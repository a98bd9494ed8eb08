/** String operations the tab predicates are built from: Python's
    `str.startswith`, the `in` substring test, ASCII `str.lower`/`str.upper`
    and `str.strip()` with no argument. A Python `str` is a sequence of
    code points, lone surrogates included; here strings are sequences of
    Unicode scalar values, so surrogate code points are left out. */
module Text {

  /** `s.startswith(prefix)` */
  predicate StartsWith(s: string, prefix: string)
  {
    |prefix| <= |s| && s[..|prefix|] == prefix
  }

  /** `sub` sits in `s` at offset `i`. */
  ghost predicate OccursAt(s: string, sub: string, i: int)
  {
    0 <= i && i + |sub| <= |s| && s[i..i + |sub|] == sub
  }

  /** `sub in s`, scanning the start offsets of `s` from the left. As in
      Python, the empty string is in every string, and nothing longer than
      `s` is in `s`. */
  predicate Contains(s: string, sub: string)
    ensures |sub| == 0 ==> Contains(s, sub)
    ensures Contains(s, sub) ==> |sub| <= |s|
    decreases |s|
  {
    StartsWith(s, sub) || (|s| > 0 && Contains(s[1..], sub))
  }

  /** An occurrence at any offset is found by the scan. */
  lemma {:induction false} ContainsAt(s: string, sub: string, i: int)
    requires OccursAt(s, sub, i)
    ensures Contains(s, sub)
    decreases i
  {
    if i > 0 {
      assert OccursAt(s[1..], sub, i - 1) by {
        assert s[1..][i - 1..i - 1 + |sub|] == s[i..i + |sub|];
      }
      ContainsAt(s[1..], sub, i - 1);
    } else {
      assert StartsWith(s, sub);
    }
  }

  /** The scan succeeds only at a real occurrence. */
  lemma {:induction false} ContainsWitness(s: string, sub: string) returns (i: int)
    requires Contains(s, sub)
    ensures OccursAt(s, sub, i)
    decreases |s|
  {
    if StartsWith(s, sub) {
      i := 0;
    } else {
      var j := ContainsWitness(s[1..], sub);
      assert s[1..][j..j + |sub|] == s[j + 1..j + 1 + |sub|];
      i := j + 1;
    }
  }

  /** `sub` occurs somewhere in `s`: the meaning of Python's `sub in s`. */
  ghost predicate Occurs(s: string, sub: string)
  {
    exists i :: OccursAt(s, sub, i)
  }

  /** The left-to-right scan agrees with the meaning of `sub in s`. */
  lemma ContainsIff(s: string, sub: string)
    ensures Contains(s, sub) <==> Occurs(s, sub)
  {
    if Contains(s, sub) {
      var i := ContainsWitness(s, sub);
    }
    if Occurs(s, sub) {
      var i :| OccursAt(s, sub, i);
      ContainsAt(s, sub, i);
    }
  }

  /** Occurrence is transitive: a string holding `mid` holds everything `mid` holds. */
  lemma OccursTransitive(s: string, mid: string, sub: string, i: int, j: int)
    requires OccursAt(s, mid, i) && OccursAt(mid, sub, j)
    ensures OccursAt(s, sub, i + j)
  {
    assert forall k :: 0 <= k < |mid| ==> s[i + k] == mid[k] by {
      assert s[i..i + |mid|] == mid;
    }
    assert s[i + j..i + j + |sub|] == mid[j..j + |sub|];
  }

  /** `sub` occurs in `s` at offset `i` when both are compared letter case aside. */
  ghost predicate MatchesIgnoringCaseAt(s: string, sub: string, i: int)
  {
    0 <= i && i + |sub| <= |s| && forall k :: 0 <= k < |sub| ==> LowerChar(s[i + k]) == LowerChar(sub[k])
  }

  /** `sub` occurs somewhere in `s`, letter case aside. */
  ghost predicate OccursIgnoringCase(s: string, sub: string)
  {
    exists i :: MatchesIgnoringCaseAt(s, sub, i)
  }

  /** `sub.lower() in s.lower()` is a case-insensitive occurrence test. */
  lemma ContainsLowerIff(s: string, sub: string)
    ensures Contains(Lower(s), Lower(sub)) <==> OccursIgnoringCase(s, sub)
  {
    ContainsIff(Lower(s), Lower(sub));
    forall i | 0 <= i && i + |sub| <= |s|
      ensures OccursAt(Lower(s), Lower(sub), i) <==> MatchesIgnoringCaseAt(s, sub, i)
    {
      if MatchesIgnoringCaseAt(s, sub, i) {
        assert Lower(s)[i..i + |sub|] == Lower(sub);
      }
      if OccursAt(Lower(s), Lower(sub), i) {
        forall k | 0 <= k < |sub| ensures LowerChar(s[i + k]) == LowerChar(sub[k]) {
          assert Lower(s)[i..i + |sub|][k] == Lower(sub)[k];
        }
      }
    }
    if OccursIgnoringCase(s, sub) {
      var i :| MatchesIgnoringCaseAt(s, sub, i);
      assert OccursAt(Lower(s), Lower(sub), i);
    }
  }

  /** `any(s.startswith(p) for p in prefixes)`, scanning the list in order. */
  predicate StartsWithAny(s: string, prefixes: seq<string>)
    ensures StartsWithAny(s, prefixes) <==>
            exists k :: 0 <= k < |prefixes| && StartsWith(s, prefixes[k])
  {
    if prefixes == [] then false
    else if StartsWith(s, prefixes[0]) then true
    else
      var rest := StartsWithAny(s, prefixes[1..]);
      assert forall k :: 1 <= k < |prefixes| ==> prefixes[k] == prefixes[1..][k - 1];
      rest
  }

  /** `any(p in s for p in subs)`, scanning the list in order. */
  predicate ContainsAny(s: string, subs: seq<string>)
    ensures ContainsAny(s, subs) <==>
            exists k :: 0 <= k < |subs| && Contains(s, subs[k])
  {
    if subs == [] then false
    else if Contains(s, subs[0]) then true
    else
      var rest := ContainsAny(s, subs[1..]);
      assert forall k :: 1 <= k < |subs| ==> subs[k] == subs[1..][k - 1];
      rest
  }

  /** ASCII case mapping of one character. */
  function LowerChar(c: char): char
  {
    if 'A' <= c <= 'Z' then (c as int - 'A' as int + 'a' as int) as char else c
  }

  function UpperChar(c: char): char
  {
    if 'a' <= c <= 'z' then (c as int - 'a' as int + 'A' as int) as char else c
  }

  /** `s.lower()` restricted to ASCII letters: each upper-case ASCII letter
      becomes the same letter in lower case, and every other character is
      kept in place. */
  function Lower(s: string): (r: string)
    ensures |r| == |s|
    ensures forall i :: 0 <= i < |r| ==> !('A' <= r[i] <= 'Z')
    ensures forall i :: 0 <= i < |s| && !('A' <= s[i] <= 'Z') ==> r[i] == s[i]
    ensures forall i :: 0 <= i < |s| && 'A' <= s[i] <= 'Z' ==>
              'a' <= r[i] <= 'z' && r[i] as int - 'a' as int == s[i] as int - 'A' as int
  {
    seq(|s|, i requires 0 <= i < |s| => LowerChar(s[i]))
  }

  /** `s.upper()` restricted to ASCII letters: each lower-case ASCII letter
      becomes the same letter in upper case, and every other character is
      kept in place. */
  function Upper(s: string): (r: string)
    ensures |r| == |s|
    ensures forall i :: 0 <= i < |r| ==> !('a' <= r[i] <= 'z')
    ensures forall i :: 0 <= i < |s| && !('a' <= s[i] <= 'z') ==> r[i] == s[i]
    ensures forall i :: 0 <= i < |s| && 'a' <= s[i] <= 'z' ==>
              'A' <= r[i] <= 'Z' && r[i] as int - 'A' as int == s[i] as int - 'a' as int
  {
    seq(|s|, i requires 0 <= i < |s| => UpperChar(s[i]))
  }

  /** `p.lower() in s.lower()` for some `p` in `subs`, scanning the list in order. */
  predicate ContainsAnyIgnoringCase(s: string, subs: seq<string>)
    ensures ContainsAnyIgnoringCase(s, subs) <==>
            exists k :: 0 <= k < |subs| && Contains(Lower(s), Lower(subs[k]))
  {
    if subs == [] then false
    else if Contains(Lower(s), Lower(subs[0])) then true
    else
      var rest := ContainsAnyIgnoringCase(s, subs[1..]);
      assert forall k :: 1 <= k < |subs| ==> subs[k] == subs[1..][k - 1];
      rest
  }

  /** Python's `str.isspace` for one character: the characters `str.strip()` removes. */
  predicate IsSpace(c: char)
  {
    ('\t' <= c <= '\r') || ('\U{1C}' <= c <= ' ') || c == '\U{85}' || c == '\U{A0}' ||
    c == '\U{1680}' || ('\U{2000}' <= c <= '\U{200A}') || c == '\U{2028}' || c == '\U{2029}' ||
    c == '\U{202F}' || c == '\U{205F}' || c == '\U{3000}'
  }

  /** `s.lstrip()`: the suffix left after dropping leading whitespace. */
  function TrimStart(s: string): (r: string)
    ensures |r| <= |s| && r == s[|s| - |r|..]
    ensures forall i :: 0 <= i < |s| - |r| ==> IsSpace(s[i])
    ensures |r| > 0 ==> !IsSpace(r[0])
    decreases |s|
  {
    if |s| > 0 && IsSpace(s[0]) then TrimStart(s[1..]) else s
  }

  /** `s.rstrip()`: the prefix left after dropping trailing whitespace. */
  function TrimEnd(s: string): (r: string)
    ensures |r| <= |s| && r == s[..|r|]
    ensures forall i :: |r| <= i < |s| ==> IsSpace(s[i])
    ensures |r| > 0 ==> !IsSpace(r[|r| - 1])
    decreases |s|
  {
    if |s| > 0 && IsSpace(s[|s| - 1]) then TrimEnd(s[..|s| - 1]) else s
  }

  /** `r` is `s` with `a` characters cut from the front, and everything cut
      from either end is whitespace. */
  ghost predicate StrippedAt(s: string, r: string, a: int)
  {
    0 <= a && a + |r| <= |s| && r == s[a..a + |r|] &&
    (forall i :: 0 <= i < a ==> IsSpace(s[i])) &&
    (forall i :: a + |r| <= i < |s| ==> IsSpace(s[i]))
  }

  /** Cutting leading whitespace to get `t`, then trailing whitespace from `t`
      to get `r`, cuts `s` down to the middle slice `r`. */
  lemma StripSlice(s: string, t: string, r: string)
    requires |t| <= |s| && t == s[|s| - |t|..]
    requires forall i :: 0 <= i < |s| - |t| ==> IsSpace(s[i])
    requires |r| <= |t| && r == t[..|r|]
    requires forall i :: |r| <= i < |t| ==> IsSpace(t[i])
    ensures StrippedAt(s, r, |s| - |t|)
  {
    var a := |s| - |t|;
    forall i | a + |r| <= i < |s| ensures IsSpace(s[i]) {
      assert s[i] == t[i - a];
    }
  }

  /** `s.strip()`: a middle slice of `s` that neither starts nor ends with
      whitespace, with only whitespace cut away on either side. */
  function Strip(s: string): (r: string)
    ensures exists a :: StrippedAt(s, r, a)
    ensures |r| > 0 ==> !IsSpace(r[0]) && !IsSpace(r[|r| - 1])
  {
    var t := TrimStart(s);
    var r := TrimEnd(t);
    StripSlice(s, t, r);
    assert |r| > 0 ==> r[0] == t[0];
    r
  }

  /** `len(s.strip()) == 0` exactly when every character of `s` is whitespace. */
  lemma StripEmptyIff(s: string)
    ensures |Strip(s)| == 0 <==> forall i :: 0 <= i < |s| ==> IsSpace(s[i])
  {
    var t := TrimStart(s);
    if |Strip(s)| == 0 {
      assert |t| == 0;
    }
  }

  /** ASCII lower-casing neither creates nor removes whitespace. */
  lemma LowerKeepsSpace(s: string, i: int)
    requires 0 <= i < |s|
    ensures IsSpace(Lower(s)[i]) <==> IsSpace(s[i])
  {
  }
}
