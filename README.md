# The Great Suspender's session engine in Dafny

This project models the decisions of `src/js/gsSession.js`, the session engine of the
browser extension The Great Suspender, and proves properties of them. It covers

- the crash-recovery check at startup and the five-minute "crashed recently" gate;
- the window matcher, which maps the windows of the last saved session onto the
  browser's current windows: first by window id, then greedily by shared tab URLs;
- restore planning, which lists the tab and window requests that recreate a
  session window, and the URL rule for each recreated tab;
- startup classification (Incognito, Restart, Install, Update) and the version delta
  (major, minor, patch), with the restore-point fallback on an update;
- the per-tab responsiveness check: the time budget, the randomised back-off, and the
  ping, reinject and initialise decision tree;
- the session-metrics high-water mark, the memoised session id and the
  update-available choice.

The browser, the database and the clock are not modelled:

- What the browser answers, and the clock reading, are parameters.
- A draw of `Math.random()` is given as a fraction below one.
- The classifiers and URL rewriters of `gsUtils` are not defined here. They are the
  uninterpreted fields of `Tabs.Util`, so every result holds for any definition of
  them.
- What the engine asks of the browser is returned as a list of requests.

The module-level variables of `gsSession.js` are the fields of
`Startup.SessionState`, and the metrics record is the field of
`SessionMetrics.MetricsStore`. Loops in the source are `while` and `for` loops here.
Each loop method is proved equal to a recursive specification function, and the
lemmas state what that function guarantees.

Files:

- `wrappers.dfy`: the `Option` and `Result` types.
- `tabs.dfy`: tab, window and session records, and list helpers.
- `window_matcher.dfy`: the window matcher.
- `crash_recovery.dfy`: crash detection.
- `versions.dfy`: `split`, `parseInt`, startup classification and the version delta.
- `session_restore.dfy`: restore planning.
- `responsiveness.dfy`: the responsiveness check.
- `session_metrics.dfy`: the session metrics.
- `startup.dfy`: the engine's state and its startup handlers.

## Model

| member | source | states |
|---|---|---|
| WindowMatcher.CountInZero | src/js/gsSession.js:774-776 | the filtered count of current URLs found among the session URLs is zero exactly when the two lists share no URL |
| WindowMatcher.CountInAll | src/js/gsSession.js:774-776 | the count equals the number of current URLs exactly when every one of them occurs among the session URLs |
| WindowMatcher.TabMatchCount | src/js/gsSession.js:747-776 | the number of matchable current URLs found among the session window's; specified by `CountInZero`, `CountInAll`, `TabMatchCountZero` and `TabMatchCountBound` |
| WindowMatcher.TabMatchCountZero | src/js/gsSession.js:747-776 | a pair scores zero exactly when no unsuspended, non-special URL of the current window appears among those of the session window |
| WindowMatcher.TabMatchCountBound | src/js/gsSession.js:770-776 | a pair's score is at most the current window's tab count |
| WindowMatcher.GenerateTabMatchingObjects | src/js/gsSession.js:767-785 | the nested loops produce the pair list `Pairs`: every (session window, current window) pair with its score, session-outer and current-inner |
| WindowMatcher.PairsAt | src/js/gsSession.js:768-783 | the pair of session window i and current window j sits at row-major position i·\|currents\| + j |
| WindowMatcher.PairsMember | src/js/gsSession.js:768-783 | every listed pair joins a window of each list |
| WindowMatcher.MaxTabMatchCount | src/js/gsSession.js:695-699 | `Math.max` over the counts: no count is larger, and some pair attains it |
| WindowMatcher.FirstWithCount | src/js/gsSession.js:700-702 | `find` returns the first position holding the count, and no earlier position holds it |
| WindowMatcher.BestIndex | src/js/gsSession.js:695-702 | the chosen pair scores at least as high as every pair and strictly higher than every pair before it |
| WindowMatcher.Best | src/js/gsSession.js:695-707 | the pair the greedy pass commits next joins a window of each pool; `BestIsFirstBestPair` states that it is the first pair of maximal score |
| WindowMatcher.BestIsFirstBestPair | src/js/gsSession.js:691-707 | the committed pair is, among the highest-scoring pairs of the two pools, the first in session-outer/current-inner order, and a zero score is committed as well |
| WindowMatcher.RemoveMatchedPairs | src/js/gsSession.js:728-734 | filtering out the pairs of the matched windows leaves exactly the pair list of the two shrunken pools, so the list is never recomputed |
| WindowMatcher.Greedy | src/js/gsSession.js:691-742 | the sequence of pairs the greedy pass commits; specified by `GreedyFacts`, `GreedyPools` and `RemoveMatchedPairs` |
| WindowMatcher.GreedyFacts | src/js/gsSession.js:691-742 | the greedy pass commits min(\|sessions\|, \|currents\|) pairs, one window from each pool in each pair, and no window twice |
| WindowMatcher.GreedyPools | src/js/gsSession.js:709-720 | each commit removes exactly one session window and one current window, and the pools keep distinct ids |
| WindowMatcher.MatchByIdentity | src/js/gsSession.js:650-675 | the identity loop reaches the state of the recursive identity pass |
| WindowMatcher.IdentityPassInvariant | src/js/gsSession.js:653-675 | after i session windows, the map holds exactly the shared ids among them, each mapped to the current window with that id, and the pools are the other windows |
| WindowMatcher.IdentityPassResult | src/js/gsSession.js:653-675 | after the identity pass, the pools are the windows whose id the other list lacks, and every shared id is matched to the window bearing it |
| WindowMatcher.MatchByTabUrls | src/js/gsSession.js:691-742 | the while loop, with its safety break, builds the identity map extended by the committed greedy pairs |
| WindowMatcher.Commit | src/js/gsSession.js:704-707 | the matches after each committed pair is written under its session window's id; specified by `CommitFacts` |
| WindowMatcher.CommitFacts | src/js/gsSession.js:704-707 | committing disjoint pairs whose ids are new keeps the map injective and adds one entry per pair |
| WindowMatcher.MatchCurrentWindowsWithLastSessionWindows | src/js/gsSession.js:646-745 | the matcher returns `MatchedWindows`, the identity matches followed by the greedy matches, including its early return when a pool is empty |
| WindowMatcher.MatchedWindowsFacts | src/js/gsSession.js:646-745 | keys are session window ids and values are current windows; no current window is used twice; every pair sharing an id is matched; min(\|sessions\|, \|currents\|) windows are matched; every greedy commit is in the map |
| CrashRecovery.SuspendedCountZero | src/js/gsSession.js:352-363 | the suspended count is zero exactly when no tab is a suspended non-special tab |
| CrashRecovery.CountsPartitionNonSpecial | src/js/gsSession.js:352-363 | each non-special tab is counted once, as suspended or unsuspended |
| CrashRecovery.RecoveryApproved | src/js/gsSession.js:324-405 | the five conditions of the crash check, all of which must hold; `CheckForCrashRecovery` is proved equal to it and `ExtensionCrashScenario` instantiates it |
| CrashRecovery.CheckForCrashRecovery | src/js/gsSession.js:324-405 | the nested counting loops and the vetoes return true exactly when every veto passes: no suspended tab was open at startup, a last session exists, it has a suspended non-special tab, the host has at least as many tabs as it had unsuspended non-special tabs, and the host is not showing a single `chrome://newtab/` tab |
| CrashRecovery.ExtensionCrashScenario | src/js/gsSession.js:324-405 | a session of one suspended and one unsuspended tab, with the host keeping only the unsuspended one, is approved for recovery |
| CrashRecovery.HasCrashedRecently | src/js/gsSession.js:166-169 | "recent" means a non-zero stored recovery timestamp less than five minutes old |
| CrashRecovery.NormalStartupDecision | src/js/gsSession.js:164-189 | without approval the database is trimmed and the timestamp kept; with approval the timestamp becomes now, and recovery is automatic exactly when the last one was not recent |
| CrashRecovery.SecondCrashWithinFiveMinutesShowsRecoveryPage | src/js/gsSession.js:166-181 | of two approved recoveries less than five minutes apart, the first is automatic and the second shows the recovery page |
| CrashRecovery.LaterCrashRecoversAutomatically | src/js/gsSession.js:166-176 | a recovery five minutes or more after the last one is automatic again |
| Versions.Split | src/js/gsSession.js:201-202 | `split` gives at least one piece, and no piece holds the separator |
| Versions.JoinSplit | src/js/gsSession.js:201-202 | joining the pieces of `split` gives back the string |
| Versions.SplitJoin | src/js/gsSession.js:201-202 | splitting separator-free pieces joined by the separator gives back the pieces |
| Versions.ParseInt | src/js/gsSession.js:204-206 | `parseInt` fails (NaN) exactly when no digit follows an optional sign |
| Versions.ParseIntDecimalString | src/js/gsSession.js:204-206 | `parseInt` reads back a decimal numeral, whatever non-digit text follows it |
| Versions.ClassifyStartup | src/js/gsSession.js:146-161 | exactly one type is chosen: Incognito beats everything, then equal versions give Restart, then a missing, empty or `0.0.0` version gives Install, and anything else gives Update |
| Versions.VersionDelta | src/js/gsSession.js:201-211 | no type when either version has fewer than two parts; else major iff the first part grew, else minor iff the second grew, else patch |
| Versions.VersionDeltaOfNumbers | src/js/gsSession.js:201-211 | on numeric versions a.b.c, the delta compares the major numbers, then the minor numbers |
| Versions.VersionDeltaExamples | src/js/gsSession.js:201-211 | 4.1.0 to 4.2.3 is minor, to 5.0.0 is major, to 4.1.3 is patch |
| SessionRestore.RestoredUrl | src/js/gsSession.js:862-871 | mode 1 suspends unsuspended non-special tabs, mode 2 unsuspends suspended tabs, and every other case keeps the session URL |
| SessionRestore.CreateNewTabFromSessionTab | src/js/gsSession.js:861-878 | the request copies the window id, index and pinned flag, uses the restored URL, and is never active |
| SessionRestore.RestorePlan | src/js/gsSession.js:792-859 | the requests of a restore, matched or not; specified by `MatchedRequestsExactly`, `MatchedRequestsCount`, `MatchedRequestsNone`, `RestoreMatchedTwice`, `AllRequestsAt` and `RestoreUnmatched` |
| SessionRestore.RestoreSessionWindow | src/js/gsSession.js:792-859 | the loops that collect ids, URLs and requests produce `RestorePlan` |
| SessionRestore.MatchedRequestsExactly | src/js/gsSession.js:808-833 | into a matched window, every request creates a tab in that window that is not active, each for a non-special session tab missing there by both URL and id, and each such tab is requested; no existing tab is touched |
| SessionRestore.MatchedRequestsCount | src/js/gsSession.js:816-831 | one request per missing session tab |
| SessionRestore.MatchedRequestsNone | src/js/gsSession.js:816-831 | nothing is requested when no session tab is missing |
| SessionRestore.RestoreMatchedTwice | src/js/gsSession.js:816-831 | with suspendMode 0, once the window holds the created URLs, a second restore requests nothing |
| SessionRestore.AllRequestsAt | src/js/gsSession.js:850-854 | into a new window, every session tab gets its own creation request, in order |
| SessionRestore.RestoreUnmatched | src/js/gsSession.js:843-858 | an unmatched restore opens one window on the restoring page, then creates one tab per session tab, then removes the placeholder tab, and only at the end |
| Responsiveness.BudgetArithmetic | src/js/gsSession.js:275-276 | the init period is 125·n ms and the budget 1875·n ms for n open tabs |
| Responsiveness.RandomTimeout | src/js/gsSession.js:316-322 | a timeout lies in [minimum, minimum + init period), with 1000 standing in for a zero minimum, and equals the minimum when no tab is open |
| Responsiveness.PingTabScript | src/js/gsSession.js:496-563 | the ping, reinject and initialise decision tree; specified by `LoadingTabIsRequeued`, `PingSettles`, `UnresponsiveSuspendedTabIsReloaded` and `PingStepsShape` |
| Responsiveness.LoadingTabIsRequeued | src/js/gsSession.js:496-501 | a loading tab is requeued without a ping |
| Responsiveness.PingSettles | src/js/gsSession.js:496-563 | the ping stops the checking exactly when the tab ends up initialised, or when an unresponsive non-suspended tab rejects the reinjected script (the give-up at line 527) |
| Responsiveness.UnresponsiveSuspendedTabIsReloaded | src/js/gsSession.js:512-517 | an unresponsive suspended tab is reloaded, never reinjected, and requeued |
| Responsiveness.PingStepsShape | src/js/gsSession.js:496-554 | a tab that is not loading is pinged first, and initialisation happens at most once, last |
| Responsiveness.FindPotentialDiscardedSuspendedTab | src/js/gsSession.js:484-493 | the corrected selection among the discarded tabs; specified by `DiscardedTabSelection` and `DiscardedTabFinding` |
| Responsiveness.DiscardedTabSelection | src/js/gsSession.js:484-493 | the selection finds a discarded tab with the suspended tab's URL exactly when one exists; it is the first URL match at the same index when there is one, and otherwise the first URL match |
| Responsiveness.FirstWithIndexIsFirst | src/js/gsSession.js:488-489 | `find` by index returns the first tab with that index |
| Responsiveness.FindPotentialDiscardedSuspendedTabAsWritten | src/js/gsSession.js:473-484 | as written, the call always fails with a TypeError |
| Responsiveness.DiscardedTabFinding | src/js/gsSession.js:473-493 | where a discarded copy exists, the intended rule finds it and the code as written fails |
| Responsiveness.FetchUpdatedTab | src/js/gsSession.js:449-471 | the browser's current record wins; failing that, a tab that is not suspended is lost, and a suspended one falls back to the corrected discarded-tab selection |
| Responsiveness.FetchUpdatedTabAsWritten | src/js/gsSession.js:449-471 | as written, the call rejects exactly when the browser has lost a loosely suspended tab; otherwise it answers the browser's record or nothing |
| Responsiveness.FetchUpdatedTabFinding | src/js/gsSession.js:449-484 | the code as written fails exactly on a lost, loosely suspended tab, and wherever it succeeds it agrees with the corrected fetch |
| Responsiveness.ScriptCheck | src/js/gsSession.js:407-447 | one tab's check as the accumulator recursion; specified by `ScriptCheckOutcome`, `FirstPingSettles` and `ScriptCheckPingBound`, and `QueueTabScriptCheck` is proved equal to it |
| Responsiveness.QueueTabScriptCheck | src/js/gsSession.js:407-447 | the loop version of the accumulator recursion ends as the recursion `ScriptCheck` does |
| Responsiveness.ScriptCheckOutcome | src/js/gsSession.js:407-447 | a check gives up on the budget only with at least the whole budget queued; a tab is lost only while budget remains; the time queued and the pings only grow |
| Responsiveness.FirstPingSettles | src/js/gsSession.js:407-447 | a tab settled by its first ping finishes after one ping and one wait, with no requeue |
| Responsiveness.ScriptCheckPingBound | src/js/gsSession.js:430-445 | every ping after the first follows a wait of at least 5 s, so 5000·(pings − 1) ms is at most the time queued |
| Responsiveness.CheckTabsForResponsiveness | src/js/gsSession.js:275-287 | one independent check per tab open at restart, each with a random first wait, with the budget sized by the number of those tabs |
| Responsiveness.CheckTabsBounds | src/js/gsSession.js:280-282 | each first wait lies in [1000, 1000 + init period), and a tab that ran out of budget had the whole budget queued |
| SessionMetrics.CreateNewSessionMetrics | src/js/gsSession.js:925-932 | a new record holds the clock reading and the two counts |
| SessionMetrics.SuspendedTabCountBounds | src/js/gsSession.js:889-895 | the suspended count is at most the tab count; it is zero exactly when no tab is suspended, and full exactly when all are |
| SessionMetrics.UpdatedMetrics | src/js/gsSession.js:897-922 | the record storage holds after an update; specified by `MetricsRecreated`, `MetricsKeepPeak`, `MetricsChangeOnlyOnPeak`, `MetricsUpdateIdempotent` and `MetricsScenario` |
| SessionMetrics.MetricsRecreated | src/js/gsSession.js:897-912 | a reset, a missing record or one with no timestamp gives a new record of the current counts |
| SessionMetrics.MetricsKeepPeak | src/js/gsSession.js:914-922 | without a reset, a present record keeps its timestamp, and its suspended count never drops and becomes the larger of the old and current counts |
| SessionMetrics.MetricsChangeOnlyOnPeak | src/js/gsSession.js:903-922 | the record changes only on a reset, a missing record, or a strictly higher suspended count |
| SessionMetrics.MetricsUpdateIdempotent | src/js/gsSession.js:886-922 | a second update on the same counts changes nothing |
| SessionMetrics.MetricsScenario | src/js/gsSession.js:897-922 | a record of 3 out of 10 survives a reading of 2 out of 8, and a reset replaces it with that reading |
| SessionMetrics.MetricsStore.UpdateSessionMetrics | src/js/gsSession.js:886-923 | the counting loop and the read-modify-write leave the record `UpdatedMetrics` gives |
| Startup.SessionIdAfter | src/js/gsSession.js:68-75 | a present, non-empty id is kept; otherwise the id is the clock reading in decimal; it is never empty |
| Startup.SessionIdStable | src/js/gsSession.js:68-75 | once chosen, the id is returned by every later call, whatever the clock says |
| Startup.SessionState.GetSessionId | src/js/gsSession.js:68-75 | returns and memoises `SessionIdAfter` |
| Startup.SessionState.BuildCurrentSession | src/js/gsSession.js:77-92 | a snapshot under the memoised id exactly when some window has tabs; otherwise nothing, and the id field is untouched |
| Startup.UpdateChoice | src/js/gsSession.js:59-65 | reload at once exactly when a restore point was saved and no tab is suspended; otherwise show the update screen |
| Startup.SessionState.PrepareForUpdate | src/js/gsSession.js:41-66 | the current snapshot becomes the restore point of the running version when one was built and saved, and the choice follows `UpdateChoice`; the session id is memoised exactly when tabs exist |
| Startup.SuspendedTabsOnRestart | src/js/gsSession.js:133-135 | the filtered list holds only open non-special suspended tabs and is no longer than the tab list |
| Startup.SuspendedTabsOnRestartComplete | src/js/gsSession.js:133-135 | every open non-special suspended tab is in the filtered list |
| Startup.SuspendedTabsOnRestartEmpty | src/js/gsSession.js:133-135 | the list is empty when no open tab is a suspended non-special tab |
| Startup.RestorePointsAfterUpdate | src/js/gsSession.js:213-229 | an existing restore point for the last version is kept; failing that, one is made from the last session if there is one and the database accepts the write; no other restore point changes |
| Startup.UpdateLeavesRestorePoint | src/js/gsSession.js:213-229 | after an update, a restore point exists for the previous version exactly when one existed or the last session was written as one |
| Startup.SessionState.HandleNormalStartup | src/js/gsSession.js:164-189 | runs the crash check and acts on `NormalStartupDecision`, recording the recovery tab when the recovery page is shown |
| Startup.SessionState.HandleUpdate | src/js/gsSession.js:199-260 | records the new version, sets the update type from the version delta or leaves it, applies the restore-point fallback, runs the crash check, and marks the extension updated on both paths |
| Startup.SessionState.RunStartupChecks | src/js/gsSession.js:129-161 | enters initialisation mode, records the open tabs and the suspended ones among them, classifies the startup, and leaves the state that the kind's handler gives |
| Startup.SessionState.HandleStartup | src/js/gsSession.js:146-161 | the effects of each kind of startup: incognito touches nothing, a restart acts on the crash decision, an install records the version, an update runs handleUpdate and recovers if approved |
| Startup.SessionState.CheckTabsForResponsiveness | src/js/gsSession.js:263-313 | checks the tabs recorded at startup, and initialisation mode ends whether the checks succeed or fail |
| Startup.NextStartupIsRestart | src/js/gsSession.js:146-161 | the version an install or update records (`VersionRecorded`, which `RunStartupChecks` ties to the state through `StartupHandled`) classifies the next non-incognito startup on the same version as a Restart |

## Left out

- Browser calls (`gsChrome`, `chrome.tabs`, `chrome.runtime`, `chrome.extension.getURL`) are not made. Their answers are parameters, and the effects of restore planning are returned requests. The reload that `fetchUpdatedTab` requests for a found discarded tab is left out, as is the reload that `requestReloadSuspendedTab` performs; the second is recorded only as a `PingStep`.
- The database and local storage (`gsIndexedDb`, `gsStorage`) are fields of `Startup.SessionState` and `SessionMetrics.MetricsStore`. Whether the database accepted a restore point write is an input, both in `prepareForUpdate` (which acts on the answer) and in `handleUpdate`'s fallback (which ignores it, so a rejected write simply leaves no restore point). Migration, `trimDbItems`, the notice version and snapshot pruning are not modelled.
- Messaging (`gsMessages`), script injection and `tgs` initialisation are foreign transport. Their outcomes are the fields of `Responsiveness.PingOracle`.
- Timers and the clock are left out. The waits are summed as `totalTimeQueued` but not slept, and `Date.now()` is a parameter. The timings `startupTabCheckTimeTakenInSeconds` and `startupRecoveryTimeTakenInSeconds` are reported through the getters `getTabCheckTimeTakenInSeconds` and `getRecoveryTimeTakenInSeconds` and are not modelled.
- `Promise.all` concurrency is left out. Each tab's check and each window's restore plan are modelled independently of the others.
- `recoverLostTabs` is left out. It chains database and browser I/O between the matcher and `restoreSessionWindow`, both of which are modelled. `updateCurrentSession`, `initAsPromised`, the welcome, update and options pages, logging and analytics are I/O plumbing.
- The getters (`isUpdated`, `isInitialising`, `getStartupType` and the rest) only read fields of `Startup.SessionState`.
- `gsUtils` internals (`isSpecialTab`, `isSuspendedTab`, `isDiscardedTab`, `generateSuspendedUrl`, `getSuspendedUrl`, `removeInternalUrlsFromSession`) live in files that are not part of this model. They stay uninterpreted. A call without the loose flag is `isSuspendedTab(tab, false)`.
- Responsiveness.RandomTimeout: the value is taken exactly. Floating-point rounding of `Math.random() * initPeriodInSeconds * 1000` is not modelled, nor is `parseInt` reading an exponent-notation string.
- Versions.ParseInt: an optional sign and leading decimal digits. Leading whitespace, hexadecimal prefixes and `Infinity` are not modelled; none occurs in a version string.
- WindowMatcher.MatchCurrentWindowsWithLastSessionWindows: it requires distinct window ids within each list, which the source does not check. The source compares matching objects by reference but filters the pools by id, and the two agree only when ids are distinct within a list. That is the case for every host window list and saved snapshot. Window identity is therefore modelled by id.
- Responsiveness.PingTabScript: a ping answer is either absent or a record that has `isInitialised`. Other truthy values a script might send are not modelled.
- Responsiveness.FetchUpdatedTab: it and the members built on it (`ScriptCheck`, `QueueTabScriptCheck`, `Responsiveness.CheckTabsForResponsiveness` and `Startup.SessionState.CheckTabsForResponsiveness`) follow the corrected discarded-tab selection described under "## Findings". As written, the branch for a lost, loosely suspended tab rejects with a TypeError, and that rejection would fail the whole responsiveness check. Only `FetchUpdatedTabAsWritten` carries that rejection; it is not threaded through the check loop.
- Startup.SessionState.HandleUpdate: it reads the last session once, as its parameter `lastSession`, for both the restore-point fallback and the crash check. The source fetches it a second time inside `checkForCrashRecovery`, after `performMigration`. Migration is not modelled, so the two reads are taken to agree.
- SessionMetrics.UpdatedMetrics: stored counts are integers. A stored record whose count field is missing, where `undefined < n` is false, is not modelled.

## Findings

| source | as written | input that shows it | evidently intended | confidence | as-written member | corrected member |
|---|---|---|---|---|---|---|
| src/js/gsSession.js:475-484 | the `chrome.tabs.query` Promise is never awaited, so `.filter` is called on a Promise, which has none; the call throws a TypeError, `fetchUpdatedTab` rejects, and so does the whole `Promise.all` in `checkTabsForResponsiveness` ("Extension initialisation FAILED") | a suspended tab that the browser no longer reports by id (discarded before initialisation) while a discarded copy with its URL sits in its window | await the query, then pick among the discarded tabs with the suspended tab's URL: a single one wins; of several, the one at the same index, else the first | high (not executed) | Responsiveness.FindPotentialDiscardedSuspendedTabAsWritten, Responsiveness.DiscardedTabFinding, Responsiveness.FetchUpdatedTabAsWritten, Responsiveness.FetchUpdatedTabFinding | Responsiveness.FindPotentialDiscardedSuspendedTab, Responsiveness.DiscardedTabSelection |

The model follows the code on two details that a reading of the comments alone might get wrong:

- A tab is abandoned once its queued time reaches the budget (`>=`), not only once it exceeds it.
- A stored version of `0.0.0` also counts as a new install.
