/**
 * The session engine's own state across a browser start: the memoised session id,
 * the startup classification and its follow-up (normal start, install, update),
 * and the choice made when an extension update becomes available. The persistent
 * stores it reads and writes are fields too.
 */
module Startup {
  import opened Wrappers
  import opened Tabs
  import opened Versions
  import opened CrashRecovery
  import opened Responsiveness

  /**
   * getSessionId: a stored id that is present and non-empty (the source tests it for
   * truthiness) is kept; otherwise the clock reading `now`, written in decimal.
   */
  function SessionIdAfter(stored: Option<string>, now: nat): (id: string)
    ensures id != ""
    ensures stored.Some? && stored.value != "" ==> id == stored.value
    ensures (stored.None? || stored.value == "") ==> id == DecimalString(now)
  {
    if stored.Some? && stored.value != "" then stored.value else DecimalString(now)
  }

  /** Once an id is chosen, later calls return it whatever the clock says. */
  lemma SessionIdStable(stored: Option<string>, t1: nat, t2: nat)
    ensures SessionIdAfter(Some(SessionIdAfter(stored, t1)), t2) == SessionIdAfter(stored, t1)
  {
  }

  /** suspendedTabsOnRestart: the non-special tabs open at startup in suspended form (loose matching). */
  function SuspendedTabsOnRestart(u: Util, tabs: seq<Tab>): (r: seq<Tab>)
    ensures |r| <= |tabs|
    ensures forall k :: 0 <= k < |r| ==> r[k] in tabs && IsSuspendedNonSpecial(u, r[k])
  {
    if |tabs| == 0 then []
    else
      var init := SuspendedTabsOnRestart(u, tabs[..|tabs| - 1]);
      assert forall t :: t in tabs[..|tabs| - 1] ==> t in tabs;
      if IsSuspendedNonSpecial(u, tabs[|tabs| - 1]) then init + [tabs[|tabs| - 1]] else init
  }

  /** Every non-special suspended tab open at startup is listed. */
  lemma {:induction false} SuspendedTabsOnRestartComplete(u: Util, tabs: seq<Tab>, t: Tab)
    requires t in tabs && IsSuspendedNonSpecial(u, t)
    ensures t in SuspendedTabsOnRestart(u, tabs)
  {
    var init := tabs[..|tabs| - 1];
    if t != tabs[|tabs| - 1] {
      SplitLast(tabs);
      assert t in init;
      SuspendedTabsOnRestartComplete(u, init, t);
    }
  }

  /** No list is made when no open tab is suspended, so crash recovery is not vetoed for that reason. */
  lemma {:induction false} SuspendedTabsOnRestartEmpty(u: Util, tabs: seq<Tab>)
    requires forall t :: t in tabs ==> !IsSuspendedNonSpecial(u, t)
    ensures SuspendedTabsOnRestart(u, tabs) == []
  {
    if |tabs| > 0 {
      assert forall t :: t in tabs[..|tabs| - 1] ==> t in tabs;
      SuspendedTabsOnRestartEmpty(u, tabs[..|tabs| - 1]);
      assert tabs[|tabs| - 1] in tabs;
    }
  }

  /** buildCurrentSession's test: some window has tabs. */
  predicate TabsExist(windows: seq<Window>)
  {
    exists w :: w in windows && |w.tabs| > 0
  }

  /** What prepareForUpdate does once the restore point is attempted. */
  datatype UpdatePreparation = ShowUpdateScreen | ReloadExtension

  /**
   * prepareForUpdate's choice: reload into the update at once only when a restore
   * point was saved and no tab is suspended; otherwise show the update screen.
   */
  function UpdateChoice(restorePointSaved: bool, suspendedTabCount: nat): (r: UpdatePreparation)
    ensures r == ReloadExtension <==> restorePointSaved && suspendedTabCount == 0
    ensures r == ShowUpdateScreen <==> !restorePointSaved || suspendedTabCount > 0
  {
    if !restorePointSaved || suspendedTabCount > 0 then ShowUpdateScreen else ReloadExtension
  }

  /**
   * The restore points after handleUpdate's fallback: one from the last session if
   * none exists for the last version. `saved` is whether the database accepted that
   * write; the source ignores the answer, and a rejected write leaves nothing behind.
   */
  function RestorePointsAfterUpdate(restorePoints: map<string, Session>, lastVersion: string, lastSession: Option<Session>,
                                    saved: bool): (r: map<string, Session>)
    ensures lastVersion in restorePoints ==> r == restorePoints
    ensures lastVersion !in restorePoints && (lastSession.None? || !saved) ==> r == restorePoints
    ensures lastVersion !in restorePoints && lastSession.Some? && saved ==>
      r.Keys == restorePoints.Keys + {lastVersion} && r[lastVersion] == lastSession.value
    ensures forall v :: v in restorePoints ==> v in r && r[v] == restorePoints[v]
  {
    if lastVersion !in restorePoints && lastSession.Some? && saved then restorePoints[lastVersion := lastSession.value]
    else restorePoints
  }

  /**
   * After an update, a restore point for the old version exists exactly when one
   * existed already or the last session was written as one.
   */
  lemma UpdateLeavesRestorePoint(restorePoints: map<string, Session>, lastVersion: string, lastSession: Option<Session>,
                                 saved: bool)
    ensures lastVersion in RestorePointsAfterUpdate(restorePoints, lastVersion, lastSession, saved)
      <==> lastVersion in restorePoints || (lastSession.Some? && saved)
  {
  }

  /** The last version in local storage after a startup of the given kind: an install or update records the current one. */
  function VersionRecorded(kind: StartupType, previousVersion: Option<string>, curVersion: string): Option<string>
  {
    if kind == Incognito || kind == Restart then previousVersion else Some(curVersion)
  }

  /** handleUpdate's update type: the version delta, or the previous value when the versions are too short. */
  function UpdateTypeAfter(previous: Option<UpdateType>, lastVersion: string, curVersion: string): Option<UpdateType>
  {
    if VersionDelta(lastVersion, curVersion).Some? then VersionDelta(lastVersion, curVersion) else previous
  }

  /** The session engine's module-level state and the stores it uses. */
  class SessionState {
    var sessionId: Option<string>
    var initialisationMode: bool
    var openTabsOnRestart: seq<Tab>
    var suspendedTabsOnRestart: seq<Tab>
    var startupType: Option<StartupType>
    var startupLastVersion: Option<string>
    var updateType: Option<UpdateType>
    var updated: bool
    var recoveryTabId: Option<int>
    /** The last version recorded in local storage. */
    var lastVersion: Option<string>
    /** The time of the last automatic crash recovery, in local storage. */
    var lastExtensionRecoveryTimestamp: Option<int>
    /** Session restore points in the database, by extension version. */
    var restorePoints: map<string, Session>

    /** The module as loaded, over the stores as found. */
    constructor (storedVersion: Option<string>, storedRecoveryTimestamp: Option<int>, storedRestorePoints: map<string, Session>)
      ensures sessionId.None? && !initialisationMode && openTabsOnRestart == [] && suspendedTabsOnRestart == []
      ensures startupType.None? && startupLastVersion.None? && updateType.None? && !updated && recoveryTabId.None?
      ensures lastVersion == storedVersion && lastExtensionRecoveryTimestamp == storedRecoveryTimestamp
      ensures restorePoints == storedRestorePoints
    {
      sessionId := None;
      initialisationMode := false;
      openTabsOnRestart := [];
      suspendedTabsOnRestart := [];
      startupType := None;
      startupLastVersion := None;
      updateType := None;
      updated := false;
      recoveryTabId := None;
      lastVersion := storedVersion;
      lastExtensionRecoveryTimestamp := storedRecoveryTimestamp;
      restorePoints := storedRestorePoints;
    }

    /** getSessionId, with the clock reading `now`: memoised on first use. */
    method GetSessionId(now: nat) returns (id: string)
      modifies this`sessionId
      ensures id == SessionIdAfter(old(sessionId), now)
      ensures sessionId == Some(id)
    {
      if sessionId.None? || sessionId.value == "" {
        sessionId := Some(DecimalString(now));
      }
      id := sessionId.value;
    }

    /** buildCurrentSession over the host's windows: a snapshot only if some window has tabs. */
    method BuildCurrentSession(currentWindows: seq<Window>, now: nat, date: string) returns (session: Option<Session>)
      modifies this`sessionId
      ensures TabsExist(currentWindows) ==>
        && session == Some(Session(SessionIdAfter(old(sessionId), now), currentWindows, date))
        && sessionId == Some(SessionIdAfter(old(sessionId), now))
      ensures !TabsExist(currentWindows) ==> session.None? && sessionId == old(sessionId)
    {
      if TabsExist(currentWindows) {
        var id := GetSessionId(now);
        session := Some(Session(id, currentWindows, date));
      } else {
        session := None;
      }
    }

    /**
     * prepareForUpdate: snapshot the current session, save it as the restore point of
     * the running version (`restorePointSaved` is whether the database accepted it),
     * then choose between the update screen and an immediate reload.
     */
    method PrepareForUpdate(currentWindows: seq<Window>, currentVersion: string, now: nat, date: string,
                            restorePointSaved: bool, suspendedTabCount: nat)
      returns (choice: UpdatePreparation)
      modifies this`sessionId, this`restorePoints
      ensures TabsExist(currentWindows) && restorePointSaved ==>
        restorePoints == old(restorePoints)[currentVersion := Session(SessionIdAfter(old(sessionId), now), currentWindows, date)]
      ensures !(TabsExist(currentWindows) && restorePointSaved) ==> restorePoints == old(restorePoints)
      ensures choice == UpdateChoice(TabsExist(currentWindows) && restorePointSaved, suspendedTabCount)
      ensures TabsExist(currentWindows) ==> sessionId == Some(SessionIdAfter(old(sessionId), now))
      ensures !TabsExist(currentWindows) ==> sessionId == old(sessionId)
    {
      var currentSession := BuildCurrentSession(currentWindows, now, date);
      var saved := false;
      if currentSession.Some? && restorePointSaved {
        restorePoints := restorePoints[currentVersion := currentSession.value];
        saved := true;
      }
      choice := if !saved || suspendedTabCount > 0 then ShowUpdateScreen else ReloadExtension;
    }

    /**
     * handleNormalStartup: run the crash check, then act on NormalStartupDecision;
     * the recovery page, when shown, is the host tab `recoveryTab`.
     */
    method HandleNormalStartup(u: Util, lastSession: Option<Session>, now: int, recoveryTab: int)
      returns (action: RecoveryAction)
      modifies this`lastExtensionRecoveryTimestamp, this`recoveryTabId
      ensures var d := NormalStartupDecision(RecoveryApproved(u, suspendedTabsOnRestart, lastSession, openTabsOnRestart),
                                             old(lastExtensionRecoveryTimestamp), now);
        && action == d.action
        && lastExtensionRecoveryTimestamp == d.recoveryTimestamp
        && recoveryTabId == (if action == ShowRecoveryPage then Some(recoveryTab) else old(recoveryTabId))
    {
      var shouldRecoverTabs := CheckForCrashRecovery(u, suspendedTabsOnRestart, lastSession, openTabsOnRestart);
      if shouldRecoverTabs {
        var hasCrashedRecently := HasCrashedRecently(lastExtensionRecoveryTimestamp, now);
        lastExtensionRecoveryTimestamp := Some(now);
        if !hasCrashedRecently {
          action := RecoverLostTabs;
        } else {
          action := ShowRecoveryPage;
          recoveryTabId := Some(recoveryTab);
        }
      } else {
        action := TrimDbItems;
      }
    }

    /**
     * handleUpdate: record the new version, classify the update, fall back to a
     * restore point from the last session, run the crash check, and mark the
     * extension as updated on both of its paths.
     */
    method HandleUpdate(u: Util, curVersion: string, previousVersion: string, lastSession: Option<Session>,
                        fallbackSaved: bool)
      returns (shouldRecoverTabs: bool)
      modifies this`lastVersion, this`updateType, this`restorePoints, this`updated
      ensures lastVersion == Some(curVersion)
      ensures updateType == UpdateTypeAfter(old(updateType), previousVersion, curVersion)
      ensures restorePoints == RestorePointsAfterUpdate(old(restorePoints), previousVersion, lastSession, fallbackSaved)
      ensures shouldRecoverTabs == RecoveryApproved(u, suspendedTabsOnRestart, lastSession, openTabsOnRestart)
      ensures updated
    {
      lastVersion := Some(curVersion);
      var delta := VersionDelta(previousVersion, curVersion);
      if delta.Some? {
        updateType := delta;
      }
      if previousVersion !in restorePoints {
        if lastSession.Some? && fallbackSaved {
          restorePoints := restorePoints[previousVersion := lastSession.value];
        }
      }
      shouldRecoverTabs := CheckForCrashRecovery(u, suspendedTabsOnRestart, lastSession, openTabsOnRestart);
      updated := true;
    }

    /**
     * runStartupChecks over the host's tabs at startup: enter initialisation mode,
     * record the tabs open now and the suspended ones among them, classify the
     * startup and run its handler.
     */
    method RunStartupChecks(u: Util, hostTabs: seq<Tab>, inIncognitoContext: bool, curVersion: string,
                            lastSession: Option<Session>, fallbackSaved: bool, now: int, recoveryTab: int)
      returns (action: Option<RecoveryAction>)
      modifies this
      ensures initialisationMode
      ensures openTabsOnRestart == hostTabs
      ensures suspendedTabsOnRestart == SuspendedTabsOnRestart(u, hostTabs)
      ensures startupLastVersion == old(lastVersion)
      ensures startupType == Some(ClassifyStartup(inIncognitoContext, old(lastVersion), curVersion))
      ensures sessionId == old(sessionId)
      ensures StartupHandled(startupType.value, RecoveryApproved(u, suspendedTabsOnRestart, lastSession, openTabsOnRestart),
                             curVersion, old(lastVersion), lastSession, fallbackSaved, now, recoveryTab, action,
                             old(lastExtensionRecoveryTimestamp), old(recoveryTabId), old(updated), old(updateType), old(restorePoints))
    {
      initialisationMode := true;
      openTabsOnRestart := hostTabs;
      suspendedTabsOnRestart := SuspendedTabsOnRestart(u, hostTabs);
      startupLastVersion := lastVersion;
      var kind := ClassifyStartup(inIncognitoContext, lastVersion, curVersion);
      startupType := Some(kind);
      action := HandleStartup(u, kind, curVersion, lastSession, fallbackSaved, now, recoveryTab);
    }

    /**
     * What each kind of startup leaves behind, given the crash check's verdict
     * `approved` and the state before: a normal start acts on NormalStartupDecision,
     * an install records the version, an update runs handleUpdate and recovers the
     * lost tabs if approved; incognito does nothing.
     */
    predicate StartupHandled(kind: StartupType, approved: bool, curVersion: string, previousVersion: Option<string>,
                             lastSession: Option<Session>, fallbackSaved: bool, now: int, recoveryTab: int,
                             action: Option<RecoveryAction>,
                             previousRecoveryTimestamp: Option<int>, previousRecoveryTabId: Option<int>,
                             previousUpdated: bool, previousUpdateType: Option<UpdateType>,
                             previousRestorePoints: map<string, Session>)
      reads this
    {
      var d := NormalStartupDecision(approved, previousRecoveryTimestamp, now);
      && lastVersion == VersionRecorded(kind, previousVersion, curVersion)
      && (kind == Restart ==>
            && action == Some(d.action)
            && lastExtensionRecoveryTimestamp == d.recoveryTimestamp
            && recoveryTabId == (if d.action == ShowRecoveryPage then Some(recoveryTab) else previousRecoveryTabId))
      && (kind != Restart ==>
            && lastExtensionRecoveryTimestamp == previousRecoveryTimestamp
            && recoveryTabId == previousRecoveryTabId)
      && (kind == Update ==>
            && previousVersion.Some?
            && action == (if approved then Some(RecoverLostTabs) else None)
            && updated
            && updateType == UpdateTypeAfter(previousUpdateType, previousVersion.value, curVersion)
            && restorePoints == RestorePointsAfterUpdate(previousRestorePoints, previousVersion.value, lastSession, fallbackSaved))
      && (kind != Update ==>
            && updated == previousUpdated && updateType == previousUpdateType && restorePoints == previousRestorePoints)
      && (kind == Incognito || kind == Install ==> action.None?)
    }

    /** The handler runStartupChecks calls for each kind of startup. */
    method HandleStartup(u: Util, kind: StartupType, curVersion: string, lastSession: Option<Session>, fallbackSaved: bool,
                         now: int, recoveryTab: int)
      returns (action: Option<RecoveryAction>)
      requires kind == Update ==> lastVersion.Some?
      modifies this`lastVersion, this`lastExtensionRecoveryTimestamp, this`recoveryTabId, this`updated, this`updateType, this`restorePoints
      ensures StartupHandled(kind, RecoveryApproved(u, suspendedTabsOnRestart, lastSession, openTabsOnRestart),
                             curVersion, old(lastVersion), lastSession, fallbackSaved, now, recoveryTab, action,
                             old(lastExtensionRecoveryTimestamp), old(recoveryTabId), old(updated), old(updateType), old(restorePoints))
    {
      action := None;
      match kind {
        case Incognito =>
        case Restart =>
          var a := HandleNormalStartup(u, lastSession, now, recoveryTab);
          action := Some(a);
        case Install =>
          lastVersion := Some(curVersion);
        case Update =>
          var shouldRecoverTabs := HandleUpdate(u, curVersion, lastVersion.value, lastSession, fallbackSaved);
          if shouldRecoverTabs {
            action := Some(RecoverLostTabs);
          }
      }
    }

    /**
     * checkTabsForResponsiveness over the tabs recorded at startup; initialisation mode
     * ends however the checks end.
     */
    method CheckTabsForResponsiveness(u: Util, firstDraws: nat -> Draw, attempts: nat -> nat -> Attempt)
      returns (results: seq<CheckResult>)
      modifies this`initialisationMode
      ensures !initialisationMode
      ensures |results| == |openTabsOnRestart|
      ensures forall i :: 0 <= i < |results| ==>
        results[i] == ScriptCheck(u, openTabsOnRestart[i], FirstTimeout(|openTabsOnRestart|, firstDraws, i),
                                  0, 0, |openTabsOnRestart|, attempts(i))
    {
      results := Responsiveness.CheckTabsForResponsiveness(u, openTabsOnRestart, firstDraws, attempts);
      initialisationMode := false;
    }
  }

  /**
   * Once an install or update has recorded its version, the next startup on that
   * version, outside incognito, is classified Restart.
   */
  lemma NextStartupIsRestart(kind: StartupType, previousVersion: Option<string>, curVersion: string)
    ensures kind == Install || kind == Update ==>
      ClassifyStartup(false, VersionRecorded(kind, previousVersion, curVersion), curVersion) == Restart
  {
  }
}
