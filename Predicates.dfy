/** The two tab predicates: `_is_empty_tab` (new-tab pages, failed loads,
    blank titles) and `_is_jenkins_tab` (every page on a CI domain, with the
    reason depending on console paths and build-status words). Each one scans
    constant lists with an early return; here that scan is a left-to-right
    predicate over the list, and a written-out reference definition of each
    check is proved equal to it. */
module Predicates {
  import opened Text
  import opened Tabs

  /** URL prefixes of new-tab and blank pages. */
  const EmptyUrls: seq<string> :=
    ["chrome://newtab/", "about:blank", "chrome://new-tab-page/", "edge://newtab/", "about:newtab"]

  /** Title phrases of failed loads, compared letter case aside. */
  const ErrorIndicators: seq<string> :=
    ["This site can't be reached", "Page not found", "Server not found", "Connection timed out",
     "DNS_PROBE_FINISHED", "ERR_", "Cannot connect to", "Failed to load", "Untitled"]

  /** Host-name fragments of CI servers. */
  const JenkinsDomains: seq<string> :=
    ["art-jenkins.apps.", "jenkins.", "ci.jenkins.io", "hudson.", "buildbot."]

  /** URL fragments of console-log pages. */
  const ConsolePatterns: seq<string> := ["/console", "/consoleFull", "consoleText", "/log"]

  /** Build-status words looked for in the upper-cased title. */
  const CompletionIndicators: seq<string> := ["SUCCESS", "FAILURE", "ABORTED", "UNSTABLE", "COMPLETED"]

  // Reference definitions, each list written out as a disjunction.

  ghost predicate IsNewTabUrl(url: string)
  {
    StartsWith(url, "chrome://newtab/") || StartsWith(url, "about:blank") ||
    StartsWith(url, "chrome://new-tab-page/") || StartsWith(url, "edge://newtab/") ||
    StartsWith(url, "about:newtab")
  }

  ghost predicate HasFailureIndicator(title: string)
  {
    OccursIgnoringCase(title, "This site can't be reached") || OccursIgnoringCase(title, "Page not found") ||
    OccursIgnoringCase(title, "Server not found") || OccursIgnoringCase(title, "Connection timed out") ||
    OccursIgnoringCase(title, "DNS_PROBE_FINISHED") || OccursIgnoringCase(title, "ERR_") ||
    OccursIgnoringCase(title, "Cannot connect to") || OccursIgnoringCase(title, "Failed to load") ||
    OccursIgnoringCase(title, "Untitled")
  }

  /** The title strips to nothing. */
  ghost predicate IsBlank(title: string)
  {
    forall i :: 0 <= i < |title| ==> IsSpace(title[i])
  }

  ghost predicate IsJenkinsUrl(url: string)
  {
    Occurs(url, "art-jenkins.apps.") || Occurs(url, "jenkins.") || Occurs(url, "ci.jenkins.io") ||
    Occurs(url, "hudson.") || Occurs(url, "buildbot.")
  }

  ghost predicate IsConsoleUrl(url: string)
  {
    Occurs(url, "/console") || Occurs(url, "/consoleFull") || Occurs(url, "consoleText") || Occurs(url, "/log")
  }

  ghost predicate IsCompletedTitle(title: string)
  {
    var t := Upper(title);
    Occurs(t, "SUCCESS") || Occurs(t, "FAILURE") || Occurs(t, "ABORTED") ||
    Occurs(t, "UNSTABLE") || Occurs(t, "COMPLETED")
  }

  // The list scans agree with the reference definitions.

  lemma NewTabScan(url: string)
    ensures StartsWithAny(url, EmptyUrls) <==> IsNewTabUrl(url)
  {
    assert EmptyUrls[0] == "chrome://newtab/" && EmptyUrls[1] == "about:blank" &&
           EmptyUrls[2] == "chrome://new-tab-page/" && EmptyUrls[3] == "edge://newtab/" &&
           EmptyUrls[4] == "about:newtab";
  }

  lemma FailureScan(title: string)
    ensures ContainsAnyIgnoringCase(title, ErrorIndicators) <==> HasFailureIndicator(title)
  {
    forall k | 0 <= k < |ErrorIndicators|
      ensures Contains(Lower(title), Lower(ErrorIndicators[k])) <==> OccursIgnoringCase(title, ErrorIndicators[k])
    {
      ContainsLowerIff(title, ErrorIndicators[k]);
    }
    assert ErrorIndicators[0] == "This site can't be reached" && ErrorIndicators[1] == "Page not found" &&
           ErrorIndicators[2] == "Server not found" && ErrorIndicators[3] == "Connection timed out" &&
           ErrorIndicators[4] == "DNS_PROBE_FINISHED" && ErrorIndicators[5] == "ERR_" &&
           ErrorIndicators[6] == "Cannot connect to" && ErrorIndicators[7] == "Failed to load" &&
           ErrorIndicators[8] == "Untitled";
  }

  lemma DomainScan(url: string)
    ensures ContainsAny(url, JenkinsDomains) <==> IsJenkinsUrl(url)
  {
    forall k | 0 <= k < |JenkinsDomains| ensures Contains(url, JenkinsDomains[k]) <==> Occurs(url, JenkinsDomains[k]) {
      ContainsIff(url, JenkinsDomains[k]);
    }
    assert JenkinsDomains[0] == "art-jenkins.apps." && JenkinsDomains[1] == "jenkins." &&
           JenkinsDomains[2] == "ci.jenkins.io" && JenkinsDomains[3] == "hudson." &&
           JenkinsDomains[4] == "buildbot.";
  }

  lemma ConsoleScan(url: string)
    ensures ContainsAny(url, ConsolePatterns) <==> IsConsoleUrl(url)
  {
    forall k | 0 <= k < |ConsolePatterns| ensures Contains(url, ConsolePatterns[k]) <==> Occurs(url, ConsolePatterns[k]) {
      ContainsIff(url, ConsolePatterns[k]);
    }
    assert ConsolePatterns[0] == "/console" && ConsolePatterns[1] == "/consoleFull" &&
           ConsolePatterns[2] == "consoleText" && ConsolePatterns[3] == "/log";
  }

  lemma CompletionScan(title: string)
    ensures ContainsAny(Upper(title), CompletionIndicators) <==> IsCompletedTitle(title)
  {
    var t := Upper(title);
    forall k | 0 <= k < |CompletionIndicators| ensures Contains(t, CompletionIndicators[k]) <==> Occurs(t, CompletionIndicators[k]) {
      ContainsIff(t, CompletionIndicators[k]);
    }
    assert CompletionIndicators[0] == "SUCCESS" && CompletionIndicators[1] == "FAILURE" &&
           CompletionIndicators[2] == "ABORTED" && CompletionIndicators[3] == "UNSTABLE" &&
           CompletionIndicators[4] == "COMPLETED";
  }

  /** `_is_empty_tab`: close new-tab pages, failed loads and tabs whose title is blank. */
  function EmptyTab(tab: Tab): (v: Verdict)
    ensures v.close <==>
            IsNewTabUrl(Field(tab.url, "")) || HasFailureIndicator(Field(tab.title, "")) ||
            IsBlank(Field(tab.title, ""))
    ensures !v.close ==> v == Keep
  {
    var url := Field(tab.url, "");
    var title := Field(tab.title, "");
    NewTabScan(url);
    FailureScan(title);
    StripEmptyIff(title);
    if StartsWithAny(url, EmptyUrls) then Verdict(true, "New tab page: " + url)
    else if ContainsAnyIgnoringCase(title, ErrorIndicators) then Verdict(true, "Failed load detected: " + title)
    else if |Strip(title)| == 0 then Verdict(true, "Empty title: " + url)
    else Keep
  }

  /** The checks of `_is_empty_tab` are tried in order and the first that
      fires names the reason; a new-tab URL decides whatever the title. */
  lemma EmptyTabReasons(tab: Tab)
    ensures var url, title := Field(tab.url, ""), Field(tab.title, "");
            EmptyTab(tab) ==
              if IsNewTabUrl(url) then Verdict(true, "New tab page: " + url)
              else if HasFailureIndicator(title) then Verdict(true, "Failed load detected: " + title)
              else if IsBlank(title) then Verdict(true, "Empty title: " + url)
              else Keep
  {
    NewTabScan(Field(tab.url, ""));
    FailureScan(Field(tab.title, ""));
    StripEmptyIff(Field(tab.title, ""));
  }

  /** Whether a tab is closed as empty depends on its title only through the
      title's lower-cased form. */
  lemma EmptyTabIgnoresCase(tab: Tab, other: Tab)
    requires Field(tab.url, "") == Field(other.url, "")
    requires Lower(Field(tab.title, "")) == Lower(Field(other.title, ""))
    ensures EmptyTab(tab).close == EmptyTab(other).close
  {
    var t, u := Field(tab.title, ""), Field(other.title, "");
    FailureScan(t);
    FailureScan(u);
    forall i | 0 <= i < |t| ensures IsSpace(t[i]) <==> IsSpace(u[i]) {
      LowerKeepsSpace(t, i);
      LowerKeepsSpace(u, i);
    }
  }

  /** A tab whose title contains "err_" in any letter case is closed. */
  lemma ErrTitleClosed(tab: Tab)
    requires OccursIgnoringCase(Field(tab.title, ""), "err_")
    ensures EmptyTab(tab).close
  {
    var title := Field(tab.title, "");
    var i :| MatchesIgnoringCaseAt(title, "err_", i);
    assert LowerChar('E') == LowerChar('e') && LowerChar('R') == LowerChar('r');
    assert forall k :: 0 <= k < 4 ==> LowerChar("ERR_"[k]) == LowerChar("err_"[k]);
    assert MatchesIgnoringCaseAt(title, "ERR_", i);
  }

  /** A blank title holds no failure phrase: every phrase starts with a
      letter, and lower-casing keeps whitespace as it is. */
  lemma BlankHasNoFailure(title: string)
    requires IsBlank(title)
    ensures !HasFailureIndicator(title)
  {
    forall sub: string, i | |sub| > 0 && !IsSpace(LowerChar(sub[0]))
      ensures !MatchesIgnoringCaseAt(title, sub, i)
    {
      if 0 <= i && i + |sub| <= |title| {
        assert IsSpace(title[i]);
      }
    }
    assert !IsSpace(LowerChar("This site can't be reached"[0]));
    assert !IsSpace(LowerChar("Page not found"[0]));
    assert !IsSpace(LowerChar("Server not found"[0]));
    assert !IsSpace(LowerChar("Connection timed out"[0]));
    assert !IsSpace(LowerChar("DNS_PROBE_FINISHED"[0]));
    assert !IsSpace(LowerChar("ERR_"[0]));
    assert !IsSpace(LowerChar("Cannot connect to"[0]));
    assert !IsSpace(LowerChar("Failed to load"[0]));
    assert !IsSpace(LowerChar("Untitled"[0]));
  }

  /** A blank title on a URL that is not a new-tab page is closed as
      "Empty title". */
  lemma BlankTitleClosed(tab: Tab)
    requires !IsNewTabUrl(Field(tab.url, ""))
    requires IsBlank(Field(tab.title, ""))
    ensures EmptyTab(tab) == Verdict(true, "Empty title: " + Field(tab.url, ""))
  {
    BlankHasNoFailure(Field(tab.title, ""));
    EmptyTabReasons(tab);
  }

  /** A tab without a title key reads as blank, so unless it is a new-tab
      page it is closed as "Empty title". */
  lemma UntitledTabClosed(tab: Tab)
    requires tab.title.None? && !IsNewTabUrl(Field(tab.url, ""))
    ensures EmptyTab(tab) == Verdict(true, "Empty title: " + Field(tab.url, ""))
  {
    BlankTitleClosed(tab);
  }

  /** `_is_jenkins_tab`: every page on a CI domain is closed; the reason says
      whether it is a console log, a finished build or any other page. */
  function JenkinsTab(tab: Tab): (v: Verdict)
    ensures v.close <==> IsJenkinsUrl(Field(tab.url, ""))
    ensures !v.close ==> v == Keep
  {
    var url := Field(tab.url, "");
    var title := Field(tab.title, "");
    var isJenkinsDomain := ContainsAny(url, JenkinsDomains);
    DomainScan(url);
    if !isJenkinsDomain then Keep
    else if ContainsAny(url, ConsolePatterns) then Verdict(true, "Jenkins console log: " + url)
    else if isJenkinsDomain then
      if ContainsAny(Upper(title), CompletionIndicators) then Verdict(true, "Completed Jenkins build: " + title)
      else Verdict(true, "Jenkins page: " + url)
    else Keep
  }

  /** On a CI domain the reason is decided by the first of: a console path in
      the URL (the title is not looked at), a build-status word in the title,
      or neither. Off a CI domain the result is always `(False, "")`. */
  lemma JenkinsTabReasons(tab: Tab)
    ensures var url, title := Field(tab.url, ""), Field(tab.title, "");
            JenkinsTab(tab) ==
              if !IsJenkinsUrl(url) then Keep
              else if IsConsoleUrl(url) then Verdict(true, "Jenkins console log: " + url)
              else if IsCompletedTitle(title) then Verdict(true, "Completed Jenkins build: " + title)
              else Verdict(true, "Jenkins page: " + url)
  {
    DomainScan(Field(tab.url, ""));
    ConsoleScan(Field(tab.url, ""));
    CompletionScan(Field(tab.title, ""));
  }

  /** Two of the five domain fragments already contain another: every CI
      URL contains "jenkins.", "hudson." or "buildbot.". */
  lemma JenkinsDomainsReduce(url: string)
    ensures IsJenkinsUrl(url) <==> Occurs(url, "jenkins.") || Occurs(url, "hudson.") || Occurs(url, "buildbot.")
  {
    if Occurs(url, "art-jenkins.apps.") {
      var i :| OccursAt(url, "art-jenkins.apps.", i);
      assert OccursAt("art-jenkins.apps.", "jenkins.", 4);
      OccursTransitive(url, "art-jenkins.apps.", "jenkins.", i, 4);
    }
    if Occurs(url, "ci.jenkins.io") {
      var i :| OccursAt(url, "ci.jenkins.io", i);
      assert OccursAt("ci.jenkins.io", "jenkins.", 3);
      OccursTransitive(url, "ci.jenkins.io", "jenkins.", i, 3);
    }
  }

  /** The "/consoleFull" pattern can never be the one that fires first: any
      URL holding it holds "/console". */
  lemma ConsoleFullSubsumed(url: string)
    requires Occurs(url, "/consoleFull")
    ensures Occurs(url, "/console")
  {
    var i :| OccursAt(url, "/consoleFull", i);
    assert OccursAt("/consoleFull", "/console", 0);
    OccursTransitive(url, "/consoleFull", "/console", i, 0);
  }
}
