/**
 * Session metrics: the largest number of suspended tabs seen in the current
 * session, kept in storage with the total tab count at that moment.
 */
module SessionMetrics {
  import opened Wrappers
  import opened Tabs

  /** The stored record: when the session began and the counts at its peak. */
  datatype Metrics = Metrics(timestamp: int, suspendedTabCount: int, totalTabCount: int)

  /** createNewSessionMetrics, stamped with the clock reading `now`. */
  function CreateNewSessionMetrics(suspendedTabCount: int, totalTabCount: int, now: int): (m: Metrics)
    ensures m.timestamp == now && m.suspendedTabCount == suspendedTabCount && m.totalTabCount == totalTabCount
  {
    Metrics(now, suspendedTabCount, totalTabCount)
  }

  /** The number of tabs that are suspended in the loose sense (a discarded suspended tab counts). */
  function SuspendedTabCount(u: Util, tabs: seq<Tab>): nat
  {
    if |tabs| == 0 then 0
    else SuspendedTabCount(u, tabs[..|tabs| - 1]) + (if u.isSuspendedTab(tabs[|tabs| - 1], true) then 1 else 0)
  }

  /** The count is at most the number of tabs, and is all or none of them in the extreme cases. */
  lemma {:induction false} SuspendedTabCountBounds(u: Util, tabs: seq<Tab>)
    ensures SuspendedTabCount(u, tabs) <= |tabs|
    ensures SuspendedTabCount(u, tabs) == 0 <==> forall t :: t in tabs ==> !u.isSuspendedTab(t, true)
    ensures SuspendedTabCount(u, tabs) == |tabs| <==> forall t :: t in tabs ==> u.isSuspendedTab(t, true)
  {
    if |tabs| > 0 {
      var init := tabs[..|tabs| - 1];
      SuspendedTabCountBounds(u, init);
      SplitLast(tabs);
      assert forall t :: t in tabs <==> t in init || t == tabs[|tabs| - 1];
    }
  }

  /** Whether the stored record is missing, or has a falsy timestamp. */
  predicate Missing(stored: Option<Metrics>)
  {
    stored.None? || stored.value.timestamp == 0
  }

  /**
   * The record updateSessionMetrics leaves in storage. A reset ignores what is
   * stored; a missing record is recreated; otherwise the record takes the current
   * counts only on a new suspended-tab peak.
   */
  function UpdatedMetrics(stored: Option<Metrics>, reset: bool, suspendedTabCount: nat, totalTabCount: nat, now: int): Option<Metrics>
  {
    var current := if reset then None else stored;
    if Missing(current) then Some(CreateNewSessionMetrics(suspendedTabCount, totalTabCount, now))
    else if current.value.suspendedTabCount < suspendedTabCount then
      Some(current.value.(suspendedTabCount := suspendedTabCount, totalTabCount := totalTabCount))
    else stored
  }

  /** A reset or a missing record yields a fresh record of the current counts. */
  lemma MetricsRecreated(stored: Option<Metrics>, reset: bool, suspendedTabCount: nat, totalTabCount: nat, now: int)
    requires reset || Missing(stored)
    ensures UpdatedMetrics(stored, reset, suspendedTabCount, totalTabCount, now)
      == Some(Metrics(now, suspendedTabCount, totalTabCount))
  {
  }

  /**
   * Without a reset, a present record keeps its timestamp and its suspended count
   * never drops; it becomes the maximum of the old and current counts.
   */
  lemma MetricsKeepPeak(stored: Option<Metrics>, suspendedTabCount: nat, totalTabCount: nat, now: int)
    requires !Missing(stored)
    ensures var m := UpdatedMetrics(stored, false, suspendedTabCount, totalTabCount, now);
      && m.Some?
      && m.value.timestamp == stored.value.timestamp
      && m.value.suspendedTabCount >= stored.value.suspendedTabCount
      && m.value.suspendedTabCount >= suspendedTabCount
      && (m.value.suspendedTabCount == stored.value.suspendedTabCount || m.value.suspendedTabCount == suspendedTabCount)
  {
  }

  /** The stored record changes only on a reset, a missing record or a strictly higher count. */
  lemma MetricsChangeOnlyOnPeak(stored: Option<Metrics>, reset: bool, suspendedTabCount: nat, totalTabCount: nat, now: int)
    requires UpdatedMetrics(stored, reset, suspendedTabCount, totalTabCount, now) != stored
    ensures reset || Missing(stored) || stored.value.suspendedTabCount < suspendedTabCount
  {
  }

  /** Running the update twice on the same tabs changes nothing the second time. */
  lemma MetricsUpdateIdempotent(stored: Option<Metrics>, reset: bool, suspendedTabCount: nat, totalTabCount: nat, now: int, later: int)
    requires now != 0
    ensures var once := UpdatedMetrics(stored, reset, suspendedTabCount, totalTabCount, now);
      UpdatedMetrics(once, false, suspendedTabCount, totalTabCount, later) == once
  {
  }

  /**
   * A record of 3 suspended out of 10 tabs survives a later reading of 2 out of 8;
   * a reset replaces it with that reading.
   */
  lemma MetricsScenario(timestamp: int, now: int)
    requires timestamp != 0
    ensures UpdatedMetrics(Some(Metrics(timestamp, 3, 10)), false, 2, 8, now) == Some(Metrics(timestamp, 3, 10))
    ensures UpdatedMetrics(Some(Metrics(timestamp, 3, 10)), true, 2, 8, now) == Some(Metrics(now, 2, 8))
  {
  }

  /** The extension's storage slot for session metrics. */
  class MetricsStore {
    var stored: Option<Metrics>

    constructor (initial: Option<Metrics>)
      ensures stored == initial
    {
      stored := initial;
    }

    /**
     * updateSessionMetrics over the host's current tabs, with the clock reading
     * `now`: count the suspended tabs, then store what UpdatedMetrics says.
     */
    method UpdateSessionMetrics(u: Util, reset: bool, tabs: seq<Tab>, now: int)
      modifies this
      ensures stored == UpdatedMetrics(old(stored), reset, SuspendedTabCount(u, tabs), |tabs|, now)
    {
      var curSuspendedTabCount := 0;
      for i := 0 to |tabs|
        invariant curSuspendedTabCount == SuspendedTabCount(u, tabs[..i])
      {
        assert tabs[..i + 1][..i] == tabs[..i];
        if u.isSuspendedTab(tabs[i], true) {
          curSuspendedTabCount := curSuspendedTabCount + 1;
        }
      }
      assert tabs[..|tabs|] == tabs;
      var sessionMetrics := if reset then None else stored;
      if Missing(sessionMetrics) {
        stored := Some(CreateNewSessionMetrics(curSuspendedTabCount, |tabs|, now));
        return;
      }
      if sessionMetrics.value.suspendedTabCount < curSuspendedTabCount {
        stored := Some(sessionMetrics.value.(suspendedTabCount := curSuspendedTabCount, totalTabCount := |tabs|));
      }
    }
  }
}
