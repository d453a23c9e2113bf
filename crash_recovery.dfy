/**
 * Crash detection: deciding at startup whether only the extension crashed (its
 * suspended tabs vanished while the host kept every other tab), and the gate
 * that sends a second crash within five minutes to the recovery page.
 */
module CrashRecovery {
  import opened Wrappers
  import opened Tabs

  /** Non-special tabs in suspended form (loose matching), the tabs an extension-only crash loses. */
  predicate IsSuspendedNonSpecial(u: Util, t: Tab)
  {
    !u.isSpecialTab(t) && u.isSuspendedTab(t, true)
  }

  /** Non-special tabs not in suspended form (loose matching), the tabs the host keeps. */
  predicate IsUnsuspendedNonSpecial(u: Util, t: Tab)
  {
    !u.isSpecialTab(t) && !u.isSuspendedTab(t, true)
  }

  function SuspendedCount(u: Util, tabs: seq<Tab>): nat
    decreases |tabs|
  {
    if |tabs| == 0 then 0
    else SuspendedCount(u, tabs[..|tabs| - 1]) + (if IsSuspendedNonSpecial(u, tabs[|tabs| - 1]) then 1 else 0)
  }

  function UnsuspendedCount(u: Util, tabs: seq<Tab>): nat
    decreases |tabs|
  {
    if |tabs| == 0 then 0
    else UnsuspendedCount(u, tabs[..|tabs| - 1]) + (if IsUnsuspendedNonSpecial(u, tabs[|tabs| - 1]) then 1 else 0)
  }

  /** All tabs of a list of windows, window by window. */
  function AllTabs(windows: seq<Window>): seq<Tab>
    decreases |windows|
  {
    if |windows| == 0 then []
    else AllTabs(windows[..|windows| - 1]) + windows[|windows| - 1].tabs
  }

  /** The suspended count is zero exactly when no tab of the list is a suspended non-special tab. */
  lemma {:induction false} SuspendedCountZero(u: Util, tabs: seq<Tab>)
    ensures SuspendedCount(u, tabs) == 0 <==> forall t :: t in tabs ==> !IsSuspendedNonSpecial(u, t)
    decreases |tabs|
  {
    if |tabs| > 0 {
      var init := tabs[..|tabs| - 1];
      SuspendedCountZero(u, init);
      assert tabs == init + [tabs[|tabs| - 1]];
      assert forall t :: t in tabs <==> t in init || t == tabs[|tabs| - 1];
    }
  }

  /** Every non-special tab is counted exactly once, as suspended or as unsuspended. */
  lemma {:induction false} CountsPartitionNonSpecial(u: Util, tabs: seq<Tab>)
    ensures SuspendedCount(u, tabs) + UnsuspendedCount(u, tabs) <= |tabs|
    ensures (forall t :: t in tabs ==> !u.isSpecialTab(t)) ==> SuspendedCount(u, tabs) + UnsuspendedCount(u, tabs) == |tabs|
    decreases |tabs|
  {
    if |tabs| > 0 {
      var init := tabs[..|tabs| - 1];
      assert forall t :: t in init ==> t in tabs;
      CountsPartitionNonSpecial(u, init);
    }
  }

  lemma {:induction false} SuspendedCountAppend(u: Util, a: seq<Tab>, b: seq<Tab>)
    ensures SuspendedCount(u, a + b) == SuspendedCount(u, a) + SuspendedCount(u, b)
    ensures UnsuspendedCount(u, a + b) == UnsuspendedCount(u, a) + UnsuspendedCount(u, b)
    decreases |b|
  {
    if |b| == 0 {
      assert a + b == a;
    } else {
      assert (a + b)[..|a + b| - 1] == a + b[..|b| - 1];
      SuspendedCountAppend(u, a, b[..|b| - 1]);
    }
  }

  /**
   * The vetoes of checkForCrashRecovery, all of which must pass: no suspended tab
   * survived the restart, a last session exists and held suspended tabs, the host
   * kept at least as many tabs as the session had unsuspended ones, and the host
   * is not showing a lone new-tab page.
   */
  predicate RecoveryApproved(u: Util, suspendedTabsOnRestart: seq<Tab>, lastSession: Option<Session>, currentTabs: seq<Tab>)
  {
    && |suspendedTabsOnRestart| == 0
    && lastSession.Some?
    && SuspendedCount(u, AllTabs(lastSession.value.windows)) > 0
    && |currentTabs| >= UnsuspendedCount(u, AllTabs(lastSession.value.windows))
    && !(|currentTabs| == 1 && currentTabs[0].url == NewTabUrl)
  }

  /**
   * checkForCrashRecovery: recovery runs only if every veto passes. The loops count the
   * last session's non-special tabs by kind, as the source does, window by window.
   */
  method CheckForCrashRecovery(u: Util, suspendedTabsOnRestart: seq<Tab>, lastSession: Option<Session>, currentTabs: seq<Tab>)
    returns (shouldRecover: bool)
    ensures shouldRecover == RecoveryApproved(u, suspendedTabsOnRestart, lastSession, currentTabs)
  {
    if |suspendedTabsOnRestart| > 0 {
      return false;
    }
    if lastSession.None? {
      return false;
    }
    var windows := lastSession.value.windows;
    var lastSessionSuspendedTabCount := 0;
    var lastSessionUnsuspendedTabCount := 0;
    for i := 0 to |windows|
      invariant lastSessionSuspendedTabCount == SuspendedCount(u, AllTabs(windows[..i]))
      invariant lastSessionUnsuspendedTabCount == UnsuspendedCount(u, AllTabs(windows[..i]))
    {
      var tabs := windows[i].tabs;
      for j := 0 to |tabs|
        invariant lastSessionSuspendedTabCount == SuspendedCount(u, AllTabs(windows[..i])) + SuspendedCount(u, tabs[..j])
        invariant lastSessionUnsuspendedTabCount == UnsuspendedCount(u, AllTabs(windows[..i])) + UnsuspendedCount(u, tabs[..j])
      {
        assert tabs[..j + 1][..j] == tabs[..j];
        if !u.isSpecialTab(tabs[j]) {
          if !u.isSuspendedTab(tabs[j], true) {
            lastSessionUnsuspendedTabCount := lastSessionUnsuspendedTabCount + 1;
          } else {
            lastSessionSuspendedTabCount := lastSessionSuspendedTabCount + 1;
          }
        }
      }
      assert tabs[..|tabs|] == tabs;
      assert windows[..i + 1][..i] == windows[..i];
      SuspendedCountAppend(u, AllTabs(windows[..i]), tabs);
    }
    assert windows[..|windows|] == windows;
    if lastSessionSuspendedTabCount == 0 {
      return false;
    }
    if |currentTabs| < lastSessionUnsuspendedTabCount {
      return false;
    }
    if |currentTabs| == 1 && currentTabs[0].url == NewTabUrl {
      return false;
    }
    return true;
  }

  /**
   * Only the extension crashed: the last session's window held suspended tab `a`
   * and unsuspended tab `b`, and the host still shows `b` alone. Recovery is approved.
   */
  lemma ExtensionCrashScenario(u: Util, a: Tab, b: Tab, sessionId: string, date: string)
    requires IsSuspendedNonSpecial(u, a) && IsUnsuspendedNonSpecial(u, b) && b.url != NewTabUrl
    ensures RecoveryApproved(u, [], Some(Session(sessionId, [Window(5, [a, b])], date)), [b])
  {
    var windows := [Window(5, [a, b])];
    assert AllTabs(windows) == [a, b] by {
      assert windows[..0] == [];
    }
    assert [a, b][..1] == [a];
    assert [a][..0] == [];
    assert SuspendedCount(u, [a]) == 1 && UnsuspendedCount(u, [a]) == 0;
    assert SuspendedCount(u, [a, b]) == 1 && UnsuspendedCount(u, [a, b]) == 1;
  }

  /** Five minutes, in milliseconds. */
  const RecentCrashWindowMs: int := 1000 * 60 * 5

  /**
   * The "crashed recently" gate: a stored recovery timestamp that is present and
   * non-zero (the source tests it for truthiness) and less than five minutes old.
   */
  function HasCrashedRecently(lastExtensionRecoveryTimestamp: Option<int>, now: int): (recent: bool)
    ensures recent ==> lastExtensionRecoveryTimestamp.Some? && now - lastExtensionRecoveryTimestamp.value < 300000
    ensures lastExtensionRecoveryTimestamp.Some? && lastExtensionRecoveryTimestamp.value != 0 && now - lastExtensionRecoveryTimestamp.value < 300000 ==> recent
    ensures lastExtensionRecoveryTimestamp == Some(0) ==> !recent
  {
    match lastExtensionRecoveryTimestamp
    case None => false
    case Some(ts) => ts != 0 && now - ts < RecentCrashWindowMs
  }

  datatype RecoveryAction = RecoverLostTabs | ShowRecoveryPage | TrimDbItems

  /** What a normal startup does next, and the recovery timestamp it leaves stored. */
  datatype NormalStartup = NormalStartup(action: RecoveryAction, recoveryTimestamp: Option<int>)

  /**
   * handleNormalStartup: with recovery approved, the timestamp is set to now and the
   * tabs are recovered automatically unless the last recovery was recent; without
   * it the database is trimmed and the timestamp is left alone.
   */
  function NormalStartupDecision(shouldRecover: bool, lastExtensionRecoveryTimestamp: Option<int>, now: int): (r: NormalStartup)
    ensures !shouldRecover ==> r == NormalStartup(TrimDbItems, lastExtensionRecoveryTimestamp)
    ensures shouldRecover ==> r.recoveryTimestamp == Some(now) && r.action != TrimDbItems
    ensures shouldRecover ==> (r.action == RecoverLostTabs <==> !HasCrashedRecently(lastExtensionRecoveryTimestamp, now))
  {
    if shouldRecover then
      NormalStartup(if HasCrashedRecently(lastExtensionRecoveryTimestamp, now) then ShowRecoveryPage else RecoverLostTabs, Some(now))
    else
      NormalStartup(TrimDbItems, lastExtensionRecoveryTimestamp)
  }

  /**
   * Two recoveries approved less than five minutes apart: the first, with no recent
   * recovery stored, restores automatically; the second goes to the recovery page.
   */
  lemma SecondCrashWithinFiveMinutesShowsRecoveryPage(stored: Option<int>, t1: int, t2: int)
    requires !HasCrashedRecently(stored, t1)
    requires t1 > 0 && t1 <= t2 < t1 + 300000
    ensures NormalStartupDecision(true, stored, t1).action == RecoverLostTabs
    ensures NormalStartupDecision(true, NormalStartupDecision(true, stored, t1).recoveryTimestamp, t2).action == ShowRecoveryPage
  {
  }

  /** A recovery approved five minutes or more after the last one is automatic again. */
  lemma LaterCrashRecoversAutomatically(t1: int, t2: int)
    requires t2 >= t1 + 300000
    ensures NormalStartupDecision(true, Some(t1), t2).action == RecoverLostTabs
  {
  }
}
