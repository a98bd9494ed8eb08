/** `clean_chrome_tabs` and `_close_tab`: the loop that picks the tabs to
    close, in the order the browser lists them, and the loop that closes
    them (or, in a dry run, counts the ones it would close).

    The HTTP traffic stays outside the model. The tab list is an input. The
    answer to each close request is the parameter `statusOk`:
    `statusOk(k)` says whether the request for the k-th picked tab came back
    with status 200. Each method also returns the ids it sent close requests
    for, which shows that a dry run sends none. */
module Cleaner {
  import opened Text
  import opened Tabs
  import opened Predicates

  /** A `(tab, reason)` pair of `tabs_to_close`. */
  datatype Picked = Picked(tab: Tab, reason: string)

  /** The skip test of the loop: extension pages and internal `chrome://`
      pages are never closed, except those under `chrome://newtab`. Only
      URLs that start with "chrome" are affected. */
  predicate IsInternalPage(url: string)
    ensures IsInternalPage(url) ==> StartsWith(url, "chrome")
    ensures StartsWith(url, "chrome://newtab") ==> !IsInternalPage(url)
  {
    var internal :=
      (StartsWith(url, "chrome-extension://") || StartsWith(url, "chrome://")) &&
      !StartsWith(url, "chrome://newtab");
    assert internal ==> url[..6] == "chrome" by {
      if internal {
        assert url[..9][..6] == url[..6];
      }
    }
    internal
  }

  /** The loop reads the URL with the default 'Unknown', not '', so a tab
      without a URL is never skipped. */
  predicate Skipped(tab: Tab)
    ensures tab.url.None? ==> !Skipped(tab)
  {
    IsInternalPage(Field(tab.url, "Unknown"))
  }

  /** One iteration's `(should_close, reason)` for a tab that is not skipped:
      the empty predicate first unless `jenkinsOnly`, then the Jenkins
      predicate unless `emptyOnly` or the empty predicate already fired. */
  function Decide(tab: Tab, jenkinsOnly: bool, emptyOnly: bool): (v: Verdict)
    ensures !v.close ==> v == Keep
    ensures jenkinsOnly && emptyOnly ==> v == Keep
  {
    var empty := if !jenkinsOnly then EmptyTab(tab) else Keep;
    if empty.close then empty
    else if !emptyOnly && JenkinsTab(tab).close then JenkinsTab(tab)
    else Keep
  }

  /** The tab is appended to `tabs_to_close`. */
  ghost predicate Accepted(tab: Tab, jenkinsOnly: bool, emptyOnly: bool)
  {
    !Skipped(tab) && Decide(tab, jenkinsOnly, emptyOnly).close
  }

  /** `tabs_to_close` after the loop has run over `tabs`. */
  ghost function Selection(tabs: seq<Tab>, jenkinsOnly: bool, emptyOnly: bool): (r: seq<Picked>)
    ensures |r| <= |tabs|
    ensures forall p :: p in r ==> p.tab in tabs
    decreases |tabs|
  {
    if tabs == [] then []
    else
      var tab := tabs[|tabs| - 1];
      var v := Decide(tab, jenkinsOnly, emptyOnly);
      var front := Selection(tabs[..|tabs| - 1], jenkinsOnly, emptyOnly);
      assert forall t :: t in tabs[..|tabs| - 1] ==> t in tabs;
      front + (if !Skipped(tab) && v.close then [Picked(tab, v.reason)] else [])
  }

  /** The positions of the `true` entries of `marks`, in increasing order. */
  ghost function TruePositions(marks: seq<bool>): seq<int>
    decreases |marks|
  {
    if marks == [] then []
    else
      TruePositions(marks[..|marks| - 1]) +
      (if marks[|marks| - 1] then [|marks| - 1] else [])
  }

  /** Whether each tab of `tabs` is accepted, in order. */
  ghost function Marks(tabs: seq<Tab>, jenkinsOnly: bool, emptyOnly: bool): seq<bool>
  {
    seq(|tabs|, i requires 0 <= i < |tabs| => Accepted(tabs[i], jenkinsOnly, emptyOnly))
  }

  /** The positions in `tabs` of the accepted tabs, in increasing order. */
  ghost function AcceptedPositions(tabs: seq<Tab>, jenkinsOnly: bool, emptyOnly: bool): seq<int>
  {
    TruePositions(Marks(tabs, jenkinsOnly, emptyOnly))
  }

  lemma {:induction false} TruePositionsIncrease(marks: seq<bool>)
    ensures forall k :: 0 <= k < |TruePositions(marks)| ==> 0 <= TruePositions(marks)[k] < |marks|
    ensures forall k, m :: 0 <= k < m < |TruePositions(marks)| ==>
              TruePositions(marks)[k] < TruePositions(marks)[m]
    decreases |marks|
  {
    if marks != [] {
      var n := |marks| - 1;
      TruePositionsIncrease(marks[..n]);
      assert TruePositions(marks) == TruePositions(marks[..n]) + (if marks[n] then [n] else []);
    }
  }

  lemma {:induction false} TruePositionsExact(marks: seq<bool>)
    ensures forall i :: 0 <= i < |marks| ==> (i in TruePositions(marks) <==> marks[i])
    decreases |marks|
  {
    if marks != [] {
      var n := |marks| - 1;
      TruePositionsExact(marks[..n]);
      TruePositionsIncrease(marks[..n]);
      assert forall i :: 0 <= i < n ==> marks[..n][i] == marks[i];
    }
  }

  /** The accepted positions lie inside `tabs` and strictly increase. */
  lemma PositionsIncrease(tabs: seq<Tab>, jenkinsOnly: bool, emptyOnly: bool)
    ensures forall k :: 0 <= k < |AcceptedPositions(tabs, jenkinsOnly, emptyOnly)| ==>
              0 <= AcceptedPositions(tabs, jenkinsOnly, emptyOnly)[k] < |tabs|
    ensures forall k, m :: 0 <= k < m < |AcceptedPositions(tabs, jenkinsOnly, emptyOnly)| ==>
              AcceptedPositions(tabs, jenkinsOnly, emptyOnly)[k] < AcceptedPositions(tabs, jenkinsOnly, emptyOnly)[m]
  {
    TruePositionsIncrease(Marks(tabs, jenkinsOnly, emptyOnly));
  }

  /** A position is listed exactly when the tab there is accepted. */
  lemma PositionsExact(tabs: seq<Tab>, jenkinsOnly: bool, emptyOnly: bool)
    ensures forall i :: 0 <= i < |tabs| ==>
              (i in AcceptedPositions(tabs, jenkinsOnly, emptyOnly) <==> Accepted(tabs[i], jenkinsOnly, emptyOnly))
  {
    TruePositionsExact(Marks(tabs, jenkinsOnly, emptyOnly));
  }

  /** One more tab: the loop appends it exactly when it is accepted. */
  lemma SelectionStep(tabs: seq<Tab>, i: int, jenkinsOnly: bool, emptyOnly: bool)
    requires 0 <= i < |tabs|
    ensures Selection(tabs[..i + 1], jenkinsOnly, emptyOnly) ==
            Selection(tabs[..i], jenkinsOnly, emptyOnly) +
            (if Accepted(tabs[i], jenkinsOnly, emptyOnly)
             then [Picked(tabs[i], Decide(tabs[i], jenkinsOnly, emptyOnly).reason)] else [])
  {
    assert tabs[..i + 1][..i] == tabs[..i];
  }

  /** Dropping the last tab drops its position, if it had one. */
  lemma AcceptedPositionsStep(tabs: seq<Tab>, jenkinsOnly: bool, emptyOnly: bool)
    requires tabs != []
    ensures AcceptedPositions(tabs, jenkinsOnly, emptyOnly) ==
            AcceptedPositions(tabs[..|tabs| - 1], jenkinsOnly, emptyOnly) +
            (if Accepted(tabs[|tabs| - 1], jenkinsOnly, emptyOnly) then [|tabs| - 1] else [])
  {
    var n := |tabs| - 1;
    var m := Marks(tabs, jenkinsOnly, emptyOnly);
    forall i | 0 <= i < n
      ensures m[..n][i] == Marks(tabs[..n], jenkinsOnly, emptyOnly)[i]
    {
      assert tabs[..n][i] == tabs[i];
    }
    assert m[..n] == Marks(tabs[..n], jenkinsOnly, emptyOnly);
  }

  /** The k-th picked pair is the tab at the k-th accepted position with its reason. */
  lemma {:induction false} SelectionAtPositions(tabs: seq<Tab>, jenkinsOnly: bool, emptyOnly: bool)
    ensures var sel, pos := Selection(tabs, jenkinsOnly, emptyOnly), AcceptedPositions(tabs, jenkinsOnly, emptyOnly);
            |sel| == |pos| &&
            forall k :: 0 <= k < |pos| ==>
              (0 <= pos[k] < |tabs| &&
               sel[k] == Picked(tabs[pos[k]], Decide(tabs[pos[k]], jenkinsOnly, emptyOnly).reason))
    decreases |tabs|
  {
    if tabs != [] {
      var n := |tabs| - 1;
      SelectionAtPositions(tabs[..n], jenkinsOnly, emptyOnly);
      PositionsIncrease(tabs[..n], jenkinsOnly, emptyOnly);
      AcceptedPositionsStep(tabs, jenkinsOnly, emptyOnly);
      SelectionStep(tabs, n, jenkinsOnly, emptyOnly);
      assert tabs[..n + 1] == tabs;
      var sel0, pos0 := Selection(tabs[..n], jenkinsOnly, emptyOnly), AcceptedPositions(tabs[..n], jenkinsOnly, emptyOnly);
      var sel, pos := Selection(tabs, jenkinsOnly, emptyOnly), AcceptedPositions(tabs, jenkinsOnly, emptyOnly);
      forall k | 0 <= k < |pos0|
        ensures 0 <= pos[k] < |tabs| && sel[k] == Picked(tabs[pos[k]], Decide(tabs[pos[k]], jenkinsOnly, emptyOnly).reason)
      {
        assert pos[k] == pos0[k] && sel[k] == sel0[k];
        assert tabs[..n][pos0[k]] == tabs[pos0[k]];
      }
    }
  }

  /** The picked list is exactly the accepted tabs with their reasons, each
      once and in the order of `tabs`: a subsequence of `tabs` picked out by
      strictly increasing positions, which are the positions of every
      accepted tab and of no other. */
  lemma SelectionIsOrderedFilter(tabs: seq<Tab>, jenkinsOnly: bool, emptyOnly: bool)
    ensures var sel, pos := Selection(tabs, jenkinsOnly, emptyOnly), AcceptedPositions(tabs, jenkinsOnly, emptyOnly);
            |sel| == |pos| &&
            (forall k :: 0 <= k < |pos| ==> 0 <= pos[k] < |tabs|) &&
            (forall k, m :: 0 <= k < m < |pos| ==> pos[k] < pos[m]) &&
            (forall k :: 0 <= k < |pos| ==>
               sel[k] == Picked(tabs[pos[k]], Decide(tabs[pos[k]], jenkinsOnly, emptyOnly).reason)) &&
            (forall i :: 0 <= i < |tabs| ==> (i in pos <==> Accepted(tabs[i], jenkinsOnly, emptyOnly)))
  {
    PositionsIncrease(tabs, jenkinsOnly, emptyOnly);
    PositionsExact(tabs, jenkinsOnly, emptyOnly);
    SelectionAtPositions(tabs, jenkinsOnly, emptyOnly);
  }

  /** No picked tab is an extension page or an internal page other than the new-tab page. */
  lemma {:induction false} NoInternalPagePicked(tabs: seq<Tab>, jenkinsOnly: bool, emptyOnly: bool)
    ensures forall p :: p in Selection(tabs, jenkinsOnly, emptyOnly) ==>
              !IsInternalPage(Field(p.tab.url, "Unknown"))
    decreases |tabs|
  {
    if tabs != [] {
      NoInternalPagePicked(tabs[..|tabs| - 1], jenkinsOnly, emptyOnly);
    }
  }

  /** Every picked tab carries the reason the mode's predicates gave it. */
  lemma {:induction false} PickedReasons(tabs: seq<Tab>, jenkinsOnly: bool, emptyOnly: bool)
    ensures forall p :: p in Selection(tabs, jenkinsOnly, emptyOnly) ==>
              Decide(p.tab, jenkinsOnly, emptyOnly) == Verdict(true, p.reason)
    decreases |tabs|
  {
    if tabs != [] {
      PickedReasons(tabs[..|tabs| - 1], jenkinsOnly, emptyOnly);
    }
  }

  /** `jenkins_only`: the empty predicate plays no part. */
  lemma JenkinsOnlyMode(tab: Tab)
    ensures Decide(tab, true, false) == JenkinsTab(tab)
  {
  }

  /** `empty_only`: the Jenkins predicate plays no part. */
  lemma EmptyOnlyMode(tab: Tab)
    ensures Decide(tab, false, true) == EmptyTab(tab)
  {
  }

  /** Default mode: a tab both predicates match gets the empty predicate's
      reason; otherwise the Jenkins predicate decides. */
  lemma DefaultModePrefersEmpty(tab: Tab)
    ensures Decide(tab, false, false) == if EmptyTab(tab).close then EmptyTab(tab) else JenkinsTab(tab)
  {
  }

  /** Both flags set (which the command line refuses): nothing is picked. */
  lemma {:induction false} BothFlagsPickNothing(tabs: seq<Tab>)
    ensures Selection(tabs, true, true) == []
    decreases |tabs|
  {
    if tabs != [] {
      BothFlagsPickNothing(tabs[..|tabs| - 1]);
    }
  }

  /** `chrome://new-tab-page/` is one of the empty predicate's new-tab URLs,
      but the skip test drops such tabs first, so none is ever picked. */
  lemma NewTabPageIsInternal(url: string)
    ensures StartsWith(url, "chrome://new-tab-page/") ==> IsInternalPage(url)
  {
    if StartsWith(url, "chrome://new-tab-page/") {
      assert url[..9] == "chrome://";
      assert url[..15] != "chrome://newtab" by {
        assert url[12] == '-';
      }
    }
  }

  lemma NewTabPageNeverPicked(tabs: seq<Tab>, jenkinsOnly: bool, emptyOnly: bool)
    ensures forall tab: Tab :: StartsWith(Field(tab.url, ""), "chrome://new-tab-page/") ==> EmptyTab(tab).close
    ensures forall p :: p in Selection(tabs, jenkinsOnly, emptyOnly) ==>
              !StartsWith(Field(p.tab.url, ""), "chrome://new-tab-page/")
  {
    NoInternalPagePicked(tabs, jenkinsOnly, emptyOnly);
    forall p | p in Selection(tabs, jenkinsOnly, emptyOnly)
      ensures !StartsWith(Field(p.tab.url, ""), "chrome://new-tab-page/")
    {
      NewTabPageIsInternal(Field(p.tab.url, "Unknown"));
    }
  }

  /** The selection loop of `clean_chrome_tabs`. */
  method SelectTabs(tabs: seq<Tab>, jenkinsOnly: bool, emptyOnly: bool) returns (tabsToClose: seq<Picked>)
    ensures tabsToClose == Selection(tabs, jenkinsOnly, emptyOnly)
  {
    tabsToClose := [];
    for i := 0 to |tabs|
      invariant tabsToClose == Selection(tabs[..i], jenkinsOnly, emptyOnly)
    {
      SelectionStep(tabs, i, jenkinsOnly, emptyOnly);
      var tab := tabs[i];
      var url := Field(tab.url, "Unknown");
      if IsInternalPage(url) {
        continue;
      }
      var shouldClose := false;
      var reason := "";
      if !jenkinsOnly {
        var empty := EmptyTab(tab);
        if empty.close {
          shouldClose, reason := true, empty.reason;
        }
      }
      if !emptyOnly && !shouldClose {
        var jenkins := JenkinsTab(tab);
        if jenkins.close {
          shouldClose, reason := true, jenkins.reason;
        }
      }
      assert shouldClose == Decide(tab, jenkinsOnly, emptyOnly).close;
      assert shouldClose ==> reason == Decide(tab, jenkinsOnly, emptyOnly).reason;
      if shouldClose {
        tabsToClose := tabsToClose + [Picked(tab, reason)];
      }
    }
    assert tabs[..|tabs|] == tabs;
  }

  /** What `_close_tab` did: whether it reports the tab closed, and the id
      it sent a close request for, if any. */
  datatype CloseAttempt = CloseAttempt(closed: bool, request: Option<string>)

  /** `_close_tab`: a tab without an id is never closed; a dry run reports
      every other tab closed without a request; otherwise one request goes
      out and its status decides. */
  function CloseTab(tab: Tab, dryRun: bool, statusOk: bool): (a: CloseAttempt)
    ensures a.closed ==> HasId(tab)
    ensures a.request.Some? <==> !dryRun && HasId(tab)
    ensures a.request.Some? ==> tab.id == a.request
    ensures dryRun ==> (a.closed <==> HasId(tab))
    ensures !dryRun && HasId(tab) ==> a.closed == statusOk
  {
    match tab.id
    case None => CloseAttempt(false, None)
    case Some(id) =>
      if id == "" then CloseAttempt(false, None)
      else if dryRun then CloseAttempt(true, None)
      else CloseAttempt(statusOk, Some(id))
  }

  /** `closed_count` after the closing loop has run over `picked`. */
  ghost function ClosedCount(picked: seq<Picked>, dryRun: bool, statusOk: nat -> bool): (r: nat)
    ensures r <= |picked|
    decreases |picked|
  {
    if picked == [] then 0
    else
      var n := |picked| - 1;
      ClosedCount(picked[..n], dryRun, statusOk) +
      (if CloseTab(picked[n].tab, dryRun, statusOk(n)).closed then 1 else 0)
  }

  /** The ids the closing loop sends close requests for, in order. */
  ghost function CloseRequests(picked: seq<Picked>, dryRun: bool, statusOk: nat -> bool): (r: seq<string>)
    ensures |r| <= |picked|
    ensures forall k :: 0 <= k < |r| ==> r[k] != ""
    decreases |picked|
  {
    if picked == [] then []
    else
      var n := |picked| - 1;
      CloseRequests(picked[..n], dryRun, statusOk) +
      (match CloseTab(picked[n].tab, dryRun, statusOk(n)).request
       case Some(id) => [id]
       case None => [])
  }

  /** The picked tabs that have an id. */
  ghost function WithId(picked: seq<Picked>): seq<Picked>
    decreases |picked|
  {
    if picked == [] then []
    else
      var n := |picked| - 1;
      WithId(picked[..n]) + (if HasId(picked[n].tab) then [picked[n]] else [])
  }

  /** The number of picked tabs that have an id and whose close request (the
      k-th one for the k-th picked tab) came back with status 200. */
  ghost function OkCount(picked: seq<Picked>, statusOk: nat -> bool): nat
    decreases |picked|
  {
    if picked == [] then 0
    else
      var n := |picked| - 1;
      OkCount(picked[..n], statusOk) + (if HasId(picked[n].tab) && statusOk(n) then 1 else 0)
  }

  /** In a real run `closed_count` is exactly the number of picked tabs with
      an id whose request succeeded: a failed request adds nothing. */
  lemma {:induction false} RealRunCount(picked: seq<Picked>, statusOk: nat -> bool)
    ensures ClosedCount(picked, false, statusOk) == OkCount(picked, statusOk)
    decreases |picked|
  {
    if picked != [] {
      RealRunCount(picked[..|picked| - 1], statusOk);
    }
  }

  /** In a dry run no close request goes out and the summary counts every
      picked tab that has an id. */
  lemma {:induction false} DryRunCountsTabsWithId(picked: seq<Picked>, statusOk: nat -> bool)
    ensures ClosedCount(picked, true, statusOk) == |WithId(picked)|
    ensures CloseRequests(picked, true, statusOk) == []
    decreases |picked|
  {
    if picked != [] {
      DryRunCountsTabsWithId(picked[..|picked| - 1], statusOk);
    }
  }

  /** In a real run one request goes out for each picked tab with an id, in
      order, and no more tabs are counted closed than requests were sent. */
  lemma {:induction false} RealRunRequests(picked: seq<Picked>, statusOk: nat -> bool)
    ensures var requests := CloseRequests(picked, false, statusOk);
            |requests| == |WithId(picked)| &&
            (forall k :: 0 <= k < |requests| ==> WithId(picked)[k].tab.id == Some(requests[k])) &&
            ClosedCount(picked, false, statusOk) <= |requests|
    decreases |picked|
  {
    if picked != [] {
      RealRunRequests(picked[..|picked| - 1], statusOk);
    }
  }

  /** When every close request succeeds, a real run closes exactly as many
      tabs as the dry run reports it would. */
  lemma {:induction false} DryRunPredictsRealRun(picked: seq<Picked>, statusOk: nat -> bool)
    requires forall k: nat :: statusOk(k)
    ensures ClosedCount(picked, false, statusOk) == ClosedCount(picked, true, statusOk)
    decreases |picked|
  {
    if picked != [] {
      DryRunPredictsRealRun(picked[..|picked| - 1], statusOk);
    }
  }

  /** The closing loop of `clean_chrome_tabs`. */
  method CloseTabs(picked: seq<Picked>, dryRun: bool, statusOk: nat -> bool)
    returns (closedCount: nat, requests: seq<string>)
    ensures closedCount == ClosedCount(picked, dryRun, statusOk)
    ensures requests == CloseRequests(picked, dryRun, statusOk)
  {
    closedCount, requests := 0, [];
    for k := 0 to |picked|
      invariant closedCount == ClosedCount(picked[..k], dryRun, statusOk)
      invariant requests == CloseRequests(picked[..k], dryRun, statusOk)
    {
      assert picked[..k + 1][..k] == picked[..k];
      var attempt := CloseTab(picked[k].tab, dryRun, statusOk(k));
      if attempt.request.Some? {
        requests := requests + [attempt.request.value];
      }
      if attempt.closed {
        closedCount := closedCount + 1;
      }
    }
    assert picked[..|picked|] == picked;
  }

  /** `clean_chrome_tabs`: pick the tabs, then close them. It returns the
      picked `(tab, reason)` pairs, the summary count and the ids it sent
      close requests for. */
  method CleanChromeTabs(tabs: seq<Tab>, jenkinsOnly: bool, emptyOnly: bool, dryRun: bool, statusOk: nat -> bool)
    returns (tabsToClose: seq<Picked>, closedCount: nat, requests: seq<string>)
    ensures tabsToClose == Selection(tabs, jenkinsOnly, emptyOnly)
    ensures closedCount == ClosedCount(tabsToClose, dryRun, statusOk)
    ensures requests == CloseRequests(tabsToClose, dryRun, statusOk)
    ensures dryRun ==> requests == [] && closedCount == |WithId(tabsToClose)|
    ensures !dryRun ==> closedCount <= |requests| == |WithId(tabsToClose)|
    ensures !dryRun ==> closedCount == OkCount(tabsToClose, statusOk)
  {
    if tabs == [] {
      return [], 0, [];
    }
    tabsToClose := SelectTabs(tabs, jenkinsOnly, emptyOnly);
    if tabsToClose == [] {
      return tabsToClose, 0, [];
    }
    closedCount, requests := CloseTabs(tabsToClose, dryRun, statusOk);
    DryRunCountsTabsWithId(tabsToClose, statusOk);
    RealRunRequests(tabsToClose, statusOk);
    RealRunCount(tabsToClose, statusOk);
  }
}
