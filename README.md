# Browser tab cleaner: a Dafny model of the tab-selection decision

`browser_tab_cleaner.py` reads the list of open Chrome tabs from the
DevTools endpoint. It closes the tabs that are "empty" (new-tab pages,
failed loads, blank titles) and the tabs that sit on a Jenkins or other CI
domain. This project models how it decides which tabs to close and for
what reason, and how it counts closed tabs in a dry run. It proves what the
script promises about those decisions.

Modules, one per part of the script:

- `Text` (Text.dfy): the Python string operations the predicates use.
  These are `startswith`, the substring test `in`, `lower`, `upper` and
  `strip`. Each constant list is scanned left to right. Each scan is proved
  equal to a reference definition based on offsets or quantifiers.
- `Tabs` (Tabs.dfy): the tab record and the `(should_close, reason)` pair.
  Each key of a tab may be absent, so every field is an `Option`.
  `Field(value, default)` is `tab.get(key, default)`.
- `Predicates` (Predicates.dfy): `_is_empty_tab` as `EmptyTab` and
  `_is_jenkins_tab` as `JenkinsTab`. Each has a reference definition that
  writes out its constant lists, and a lemma that fixes the reason for every
  case in the script's priority order.
- `Cleaner` (Cleaner.dfy): the two loops of `clean_chrome_tabs` as methods.
  `SelectTabs` builds `tabs_to_close`. `CloseTabs` runs `_close_tab`
  (`CloseTab`) and counts successes. `CleanChromeTabs` chains the two. Each
  loop is proved equal to a recursive specification function (`Selection`,
  `ClosedCount`, `CloseRequests`). The lemmas about those functions state
  the ordering, filtering, mode and dry-run properties.

Two defaults are kept apart, as in the script. The predicates read a
missing URL or title as `''`. The loop's skip test reads a missing URL as
`'Unknown'`.

The script's network traffic is outside the model. The tab list is an input
of `CleanChromeTabs`. The outcome of each real close request is the
parameter `statusOk`: `statusOk(k)` is true when the request for the k-th
picked tab returned status 200. A request that raised an exception counts
as false. The methods also return the ids they sent close requests for, so
"a dry run sends no request" is a provable statement.

Consequences of the code that the proofs make explicit:

- The last `return False, ""` of `_is_jenkins_tab` (browser_tab_cleaner.py:155)
  can never be reached. The second `if is_jenkins_domain` always holds, and
  `JenkinsTab`'s contract shows that a tab is closed exactly when its URL is
  on a CI domain. The model keeps that dead branch.
- `'chrome://new-tab-page/'` is one of the empty predicate's new-tab URLs.
  But the loop skips every `chrome://` URL that does not start with
  `chrome://newtab` before any predicate is consulted. So such a tab is
  never closed (`Cleaner.NewTabPageNeverPicked`).
- Two of the five CI domain fragments are redundant:
  `art-jenkins.apps.` and `ci.jenkins.io` both contain `jenkins.`. Likewise
  `/consoleFull` contains `/console`, so it can never be the console pattern
  that fires first.
- `_is_empty_tab` returns "Empty title: url" for a tab with no `title` key
  or with an all-whitespace title, unless its URL starts with a new-tab URL.
  A blank title can never hold a failure phrase, since every phrase starts
  with a letter. Whether the loop closes such a tab still depends on the
  skip test and on `--jenkins-only`.

## Model

| member | source | states |
|---|---|---|
| Text.Contains | browser_tab_cleaner.py:133-135 | The scanning substring test `sub in s`: the empty string is in every string, and nothing longer than `s` is in `s` (its full meaning is `Text.ContainsIff`) |
| Text.Lower | browser_tab_cleaner.py:88 | `s.lower()` on ASCII letters: same length, each upper-case ASCII letter becomes the same letter in lower case, every other character kept in place |
| Text.Upper | browser_tab_cleaner.py:149 | `s.upper()` on ASCII letters: same length, each lower-case ASCII letter becomes the same letter in upper case, every other character kept in place |
| Text.Strip | browser_tab_cleaner.py:92 | `s.strip()`: a middle slice of `s` with only whitespace cut from either end, which neither starts nor ends with whitespace |
| Text.StartsWithAny | browser_tab_cleaner.py:70-72 | The in-order scan over a prefix list holds exactly when `s` starts with some entry of the list |
| Text.ContainsAny | browser_tab_cleaner.py:120 | `any(p in s for p in subs)` holds exactly when some entry of the list is contained in `s` |
| Text.ContainsAnyIgnoringCase | browser_tab_cleaner.py:87-89 | The in-order scan of `p.lower() in s.lower()` holds exactly when some entry's lower-cased form is contained in the lower-cased `s` |
| Text.ContainsIff | browser_tab_cleaner.py:133-135 | The scanning substring test `sub in s` holds exactly when `sub` occurs at some offset of `s` |
| Text.ContainsAt | browser_tab_cleaner.py:134 | An occurrence of `sub` at any offset makes `sub in s` true |
| Text.ContainsWitness | browser_tab_cleaner.py:134 | When `sub in s` is true, it yields an offset where `sub` occurs |
| Text.OccursTransitive | browser_tab_cleaner.py:112-118 | If `mid` occurs in `s` at offset i and `sub` occurs in `mid` at offset j, then `sub` occurs in `s` at offset i + j |
| Text.ContainsLowerIff | browser_tab_cleaner.py:88 | `sub.lower() in s.lower()` holds exactly when `sub` occurs in `s` with every letter compared case-insensitively |
| Text.TrimStart | browser_tab_cleaner.py:92 | Leading-whitespace strip: the result is a suffix of `s`, everything dropped is whitespace, and the result does not start with whitespace |
| Text.TrimEnd | browser_tab_cleaner.py:92 | Trailing-whitespace strip: the result is a prefix of `s`, everything dropped is whitespace, and the result does not end with whitespace |
| Text.StripEmptyIff | browser_tab_cleaner.py:92 | `len(title.strip()) == 0` exactly when every character of the title is Python whitespace |
| Text.LowerKeepsSpace | browser_tab_cleaner.py:88 | Lower-casing a character neither creates nor removes whitespace |
| Predicates.NewTabScan | browser_tab_cleaner.py:62-72 | The scan over the five new-tab URLs is the same as "the URL starts with one of them" |
| Predicates.FailureScan | browser_tab_cleaner.py:75-89 | The scan over the nine failure phrases is the same as "the title contains one of them, case-insensitively" |
| Predicates.DomainScan | browser_tab_cleaner.py:112-120 | The domain gate is the same as "the URL contains one of the five CI fragments" |
| Predicates.ConsoleScan | browser_tab_cleaner.py:126-135 | The console scan is the same as "the URL contains one of the four console patterns" |
| Predicates.CompletionScan | browser_tab_cleaner.py:140-150 | The completion scan is the same as "the upper-cased title contains one of the five status words" |
| Tabs.Field | browser_tab_cleaner.py:58-59 | `tab.get(key, default)`: the stored string when the key is present, the default otherwise |
| Tabs.HasId | browser_tab_cleaner.py:169-170 | `tab.get('id')` is truthy exactly when the id read with default `''` is non-empty |
| Predicates.EmptyTab | browser_tab_cleaner.py:48-95 | A tab is closed as empty exactly when its URL starts with a new-tab URL, or its title contains a failure phrase in any letter case, or its title is all whitespace; otherwise the result is exactly `(False, "")` |
| Predicates.EmptyTabReasons | browser_tab_cleaner.py:58-95 | The first check that fires gives the reason. A new-tab URL gives "New tab page: url" whatever the title. Otherwise a failure phrase gives "Failed load detected: title". Otherwise a blank title gives "Empty title: url". Otherwise the result is `(False, "")` |
| Predicates.EmptyTabIgnoresCase | browser_tab_cleaner.py:87-93 | Two tabs with the same URL and titles that agree after lower-casing get the same close decision |
| Predicates.ErrTitleClosed | browser_tab_cleaner.py:81-89 | A title containing "err_" in any letter case gets the tab closed |
| Predicates.BlankHasNoFailure | browser_tab_cleaner.py:75-93 | A title that is all whitespace contains none of the nine failure phrases in any letter case, so the failure check never pre-empts the empty-title check |
| Predicates.BlankTitleClosed | browser_tab_cleaner.py:91-93 | A tab whose title is all whitespace, on a URL that is not a new-tab page, is closed as "Empty title: url" |
| Predicates.UntitledTabClosed | browser_tab_cleaner.py:59-93 | A tab without a title key that is not a new-tab page is closed as "Empty title: url" |
| Predicates.JenkinsTab | browser_tab_cleaner.py:98-155 | A tab is closed as a CI tab exactly when its URL contains one of the five domain fragments, so no CI-domain tab is kept; otherwise the result is exactly `(False, "")` |
| Predicates.JenkinsTabReasons | browser_tab_cleaner.py:108-155 | On a CI domain the first match decides the reason. A console pattern in the URL gives "Jenkins console log: url", and the title is not looked at. Otherwise a status word in the upper-cased title gives "Completed Jenkins build: title". Otherwise the reason is "Jenkins page: url". Off a CI domain the result is `(False, "")` |
| Predicates.JenkinsDomainsReduce | browser_tab_cleaner.py:112-120 | A URL is on a CI domain exactly when it contains "jenkins.", "hudson." or "buildbot." |
| Predicates.ConsoleFullSubsumed | browser_tab_cleaner.py:126-131 | A URL containing "/consoleFull" also contains "/console" |
| Cleaner.IsInternalPage | browser_tab_cleaner.py:209-211 | The skip test: only URLs starting with "chrome" are skipped, and a URL under `chrome://newtab` never is |
| Cleaner.Skipped | browser_tab_cleaner.py:205-211 | The skip test on a tab reads the URL with default 'Unknown', so a tab without a URL is never skipped |
| Cleaner.Decide | browser_tab_cleaner.py:213-226 | One iteration's `(should_close, reason)`: when nothing fires it is exactly `(False, "")`, and with both flags set nothing fires; which predicate decides in each mode is stated by `JenkinsOnlyMode`, `EmptyOnlyMode` and `DefaultModePrefersEmpty` |
| Cleaner.Selection | browser_tab_cleaner.py:202-229 | `tabs_to_close` after the loop: no longer than the tab list, and every picked tab comes from the list |
| Cleaner.SelectionStep | browser_tab_cleaner.py:204-229 | One more iteration appends the tab, with its reason, exactly when it is not skipped and the mode's predicates close it |
| Cleaner.PositionsIncrease | browser_tab_cleaner.py:204-229 | The positions of the picked tabs lie within the tab list and strictly increase |
| Cleaner.PositionsExact | browser_tab_cleaner.py:204-229 | A position is among the picked positions exactly when that tab is not skipped and the mode's predicates close it |
| Cleaner.SelectionAtPositions | browser_tab_cleaner.py:204-229 | The k-th picked pair is the tab at the k-th picked position, with the reason the predicates gave it |
| Cleaner.SelectionIsOrderedFilter | browser_tab_cleaner.py:202-229 | `tabs_to_close` holds exactly the non-skipped tabs the mode accepts, each once and in the original order, so it is a subsequence of `tabs` |
| Cleaner.NoInternalPagePicked | browser_tab_cleaner.py:205-211 | No picked tab has a URL starting with `chrome-extension://`, or with `chrome://` but not `chrome://newtab` (a missing URL read as 'Unknown') |
| Cleaner.PickedReasons | browser_tab_cleaner.py:213-229 | Every picked pair carries the reason that the mode's predicates give that tab |
| Cleaner.JenkinsOnlyMode | browser_tab_cleaner.py:216-226 | With `jenkins_only`, the decision is the Jenkins predicate's alone; the empty predicate is not consulted |
| Cleaner.EmptyOnlyMode | browser_tab_cleaner.py:216-226 | With `empty_only`, the decision is the empty predicate's alone; the Jenkins predicate is not consulted |
| Cleaner.DefaultModePrefersEmpty | browser_tab_cleaner.py:216-226 | In default mode a tab both predicates close gets the empty predicate's reason; otherwise the Jenkins predicate decides |
| Cleaner.BothFlagsPickNothing | browser_tab_cleaner.py:216-226 | With both flags set, which the command line refuses, the loop picks nothing |
| Cleaner.NewTabPageIsInternal | browser_tab_cleaner.py:209-211 | A URL starting with `chrome://new-tab-page/` passes the skip test, so the tab is skipped |
| Cleaner.NewTabPageNeverPicked | browser_tab_cleaner.py:62-72 | The empty predicate closes every `chrome://new-tab-page/` tab, yet the loop never picks one |
| Cleaner.SelectTabs | browser_tab_cleaner.py:202-229 | The selection loop, with its `should_close`/`reason` flags, builds exactly `Selection(tabs, jenkinsOnly, emptyOnly)` |
| Cleaner.CloseTab | browser_tab_cleaner.py:158-181 | A tab without a non-empty id is never closed and no request goes out. A dry run reports the tab closed exactly when it has an id and sends no request. Otherwise one request for the tab's id goes out and its status decides |
| Cleaner.ClosedCount | browser_tab_cleaner.py:238-252 | `closed_count` after the closing loop is at most the number of picked tabs; its exact value is given by `Cleaner.DryRunCountsTabsWithId` and `Cleaner.RealRunCount` |
| Cleaner.CloseRequests | browser_tab_cleaner.py:238-252 | The close requests the loop sends: at most one per picked tab, each for a non-empty id |
| Cleaner.DryRunCountsTabsWithId | browser_tab_cleaner.py:238-252 | In a dry run, `closed_count` is the number of picked tabs with an id and no close request is sent |
| Cleaner.RealRunRequests | browser_tab_cleaner.py:238-252 | In a real run, one close request goes out for each picked tab with an id, in order, carrying that id; `closed_count` is at most the number of requests |
| Cleaner.RealRunCount | browser_tab_cleaner.py:238-252 | In a real run `closed_count` is exactly the number of picked tabs that have an id and whose close request returned status 200; a failed request adds nothing |
| Cleaner.DryRunPredictsRealRun | browser_tab_cleaner.py:238-252 | When every close request succeeds, a real run closes as many tabs as the dry run reports |
| Cleaner.CloseTabs | browser_tab_cleaner.py:238-256 | The closing loop returns `closed_count` and the requested ids as given by `ClosedCount` and `CloseRequests` |
| Cleaner.CleanChromeTabs | browser_tab_cleaner.py:184-262 | The run picks `Selection(tabs, ...)`. In a dry run it sends no request and counts the picked tabs with an id. In a real run it sends one request per picked tab with an id and counts exactly the picked tabs with an id whose request returned status 200 |

## Left out

- Fetching the tab list (browser_tab_cleaner.py:31-45): this is an HTTP GET with a timeout and a process exit on failure. The list is an input of `CleanChromeTabs` instead.
- The close request itself (browser_tab_cleaner.py:176-181): the HTTP GET, the status check and the swallowed exception are the opaque parameter `statusOk`.
- `time.sleep(0.1)` after each real close, every `print`, and the cutting of titles and URLs to 60 and 80 characters for display (browser_tab_cleaner.py:235-262): these are timing and console output that play no part in any decision.
- `main` (browser_tab_cleaner.py:265-316): argument parsing, the exit when both `--jenkins-only` and `--empty-only` are given, and the KeyboardInterrupt handler. `BothFlagsPickNothing` shows what the loop alone would do with both flags.
- Text.Lower: maps ASCII letters only, whereas Python's `str.lower` uses full Unicode case mapping (for example the Kelvin sign U+212A lowers to the ASCII letter `'k'`).
- Text.Upper: maps ASCII letters only, whereas Python's `str.upper` uses full Unicode case mapping (for example `'ſ'` uppercases to `'S'` and `'ß'` to `'SS'`). A title that reaches a status word only through such a character is not modelled.
- Tab fields that are present but are not strings (JSON `null`, a number): the model takes every present field to be a string. In the script a `null` URL makes the skip test (browser_tab_cleaner.py:209) raise. A `null` title raises at `title.lower()` (88), `title.strip()` (92) or `title.upper()` (149) when those lines are reached, and at `len(title)` (244) for every picked tab. Neither exception is caught (`main` catches only `KeyboardInterrupt`, 314), so one such tab ends the run. A `null` or `0` id behaves like a missing one (`if not tab_id`, 170-171); any other numeric id goes into the close URL of a real run (177).
- Strings are sequences of Unicode scalar values; a Python `str` may also hold lone surrogate code points, which the model does not represent.
