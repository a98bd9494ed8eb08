/** The tab records the DevTools endpoint lists, and the
    (should_close, reason) pair every tab predicate returns. */
module Tabs {

  datatype Option<T> = None | Some(value: T)

  /** One entry of the tab list. Each key may be absent from the JSON object;
      the other keys of the object play no part in the decisions. */
  datatype Tab = Tab(id: Option<string>, url: Option<string>, title: Option<string>)

  /** The `(should_close, reason)` tuple returned by the tab predicates. */
  datatype Verdict = Verdict(close: bool, reason: string)

  /** The verdict of a predicate that does not match. */
  const Keep := Verdict(false, "")

  /** `tab.get(key, default)`: the stored string when the key is present,
      the default otherwise. */
  function Field(value: Option<string>, default: string): (r: string)
    ensures value.Some? ==> r == value.value
    ensures value.None? ==> r == default
  {
    match value
    case Some(s) => s
    case None => default
  }

  /** `tab.get('id')` is truthy: present and not the empty string, which is
      the same as `tab.get('id', '')` being non-empty. */
  predicate HasId(tab: Tab)
    ensures HasId(tab) <==> Field(tab.id, "") != ""
  {
    tab.id.Some? && tab.id.value != ""
  }
}
