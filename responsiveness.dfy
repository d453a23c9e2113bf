/**
 * The startup responsiveness check: every open tab is pinged until its script
 * answers initialised, with randomised back-off, inside a time budget that grows
 * with the number of open tabs. Host answers (pings, reinjection, re-fetches) and
 * random draws are inputs.
 */
module Responsiveness {
  import opened Wrappers
  import opened Tabs

  /** How many tabs the check expects to initialise per second. */
  const TabsToInitPerSecond: nat := 8

  /** initPeriodInSeconds * 1000, exact: n / 8 seconds. */
  function InitPeriodMs(openTabCount: nat): nat
  {
    openTabCount * 1000 / TabsToInitPerSecond
  }

  /** initTimeoutInSeconds * 1000: fifteen init periods. */
  function InitTimeoutMs(openTabCount: nat): nat
  {
    15 * InitPeriodMs(openTabCount)
  }

  /** The budget arithmetic is exact in integers. */
  lemma BudgetArithmetic(openTabCount: nat)
    ensures InitPeriodMs(openTabCount) == 125 * openTabCount
    ensures InitTimeoutMs(openTabCount) == 1875 * openTabCount
  {
  }

  /** A draw of Math.random(): the fraction numerator / denominator, in [0, 1). */
  type Draw = d: (nat, nat) | d.0 < d.1 witness (0, 1)

  /**
   * getRandomTimeoutInMilliseconds: the minimum (1000 when the argument is 0) plus
   * `parseInt(random * initPeriodInSeconds * 1000)`, which truncates a non-negative value.
   */
  function RandomTimeout(minimumTimeout: nat, openTabCount: nat, draw: Draw): (timeout: nat)
    ensures var minimum := if minimumTimeout == 0 then 1000 else minimumTimeout;
      && minimum <= timeout
      && (openTabCount > 0 ==> timeout < minimum + InitPeriodMs(openTabCount))
      && (openTabCount == 0 ==> timeout == minimum)
  {
    var minimum := if minimumTimeout == 0 then 1000 else minimumTimeout;
    FractionBelow(draw.0, draw.1, InitPeriodMs(openTabCount));
    draw.0 * InitPeriodMs(openTabCount) / draw.1 + minimum
  }

  /** A fraction below one of p, truncated, is below p (or zero when p is). */
  lemma FractionBelow(num: nat, den: nat, p: nat)
    requires num < den
    ensures num * p / den <= p
    ensures p > 0 ==> num * p / den < p
    ensures p == 0 ==> num * p / den == 0
  {
    var q := num * p / den;
    assert q * den <= num * p;
    MulMonotone(num, den - 1, p);
    assert (den - 1) * p == den * p - p;
    if p > 0 && q >= p {
      MulMonotone(p, q, den);
      assert false;
    }
  }

  /** Multiplication by a natural number keeps order. */
  lemma MulMonotone(a: nat, b: nat, c: nat)
    requires a <= b
    ensures a * c <= b * c
  {
    assert b * c == a * c + (b - a) * c;
  }

  /** A tab script's ping answer. */
  datatype Response = Response(isInitialised: bool)

  /**
   * What the host answers during one pingTabScript: the first ping, whether
   * reinjecting the content script worked, the ping after reinjection and the
   * result of the initialisation call (`None` for no answer or a failure).
   */
  datatype PingOracle = PingOracle(
    firstResponse: Option<Response>,
    reinjected: bool,
    secondResponse: Option<Response>,
    initialisedResponse: Option<Response>)

  /** The host calls one pingTabScript makes, in order. */
  datatype PingStep = SendPing | ReloadSuspendedTab | ReinjectContentScript | InitialiseSuspendedTab | InitialiseUnsuspendedTab

  /** pingTabScript's answer (true: stop checking this tab) and the calls it made. */
  datatype PingRun = PingRun(settled: bool, steps: seq<PingStep>)

  /** The answer the tab gave once pinging is over, before any initialisation. */
  function PingAnswer(o: PingOracle): Option<Response>
  {
    if o.firstResponse.Some? then o.firstResponse else o.secondResponse
  }

  /** pingTabScript: the ping, reinject and initialise decision tree. */
  function PingTabScript(u: Util, tab: Tab, o: PingOracle): PingRun
  {
    if tab.status == "loading" then PingRun(false, [])
    else
      var suspended := u.isSuspendedTab(tab, false);
      if o.firstResponse.None? && suspended then PingRun(false, [SendPing, ReloadSuspendedTab])
      else if o.firstResponse.None? && !o.reinjected then PingRun(true, [SendPing, ReinjectContentScript])
      else
        var pinged := if o.firstResponse.None? then [SendPing, ReinjectContentScript, SendPing] else [SendPing];
        var response := PingAnswer(o);
        if response.None? then PingRun(false, pinged)
        else if response.value.isInitialised then PingRun(true, pinged)
        else
          var init := if suspended then InitialiseSuspendedTab else InitialiseUnsuspendedTab;
          PingRun(o.initialisedResponse.Some? && o.initialisedResponse.value.isInitialised, pinged + [init])
  }

  /** A tab still loading is requeued without being pinged. */
  lemma LoadingTabIsRequeued(u: Util, tab: Tab, o: PingOracle)
    requires tab.status == "loading"
    ensures PingTabScript(u, tab, o) == PingRun(false, [])
  {
  }

  /**
   * pingTabScript stops the checking exactly when the tab ends up initialised, or
   * when a non-suspended tab neither answered nor took the reinjected script.
   */
  lemma PingSettles(u: Util, tab: Tab, o: PingOracle)
    ensures var r := PingTabScript(u, tab, o);
      var answer := PingAnswer(o);
      r.settled <==>
        && tab.status != "loading"
        && (|| (o.firstResponse.None? && !u.isSuspendedTab(tab, false) && !o.reinjected)
            || (!(o.firstResponse.None? && (u.isSuspendedTab(tab, false) || !o.reinjected))
                && answer.Some?
                && (answer.value.isInitialised
                    || (o.initialisedResponse.Some? && o.initialisedResponse.value.isInitialised))))
  {
  }

  /** An unresponsive suspended tab is reloaded, never reinjected, and requeued. */
  lemma UnresponsiveSuspendedTabIsReloaded(u: Util, tab: Tab, o: PingOracle)
    requires tab.status != "loading" && o.firstResponse.None? && u.isSuspendedTab(tab, false)
    ensures PingTabScript(u, tab, o) == PingRun(false, [SendPing, ReloadSuspendedTab])
  {
  }

  /** Every run starts with a ping unless the tab is loading, and initialises at most once, last. */
  lemma PingStepsShape(u: Util, tab: Tab, o: PingOracle)
    ensures var r := PingTabScript(u, tab, o);
      && (tab.status != "loading" ==> |r.steps| > 0 && r.steps[0] == SendPing)
      && (forall k :: 0 <= k < |r.steps| - 1 ==> r.steps[k] != InitialiseSuspendedTab && r.steps[k] != InitialiseUnsuspendedTab)
  {
  }

  /**
   * The evident rule of findPotentialDiscardedSuspendedTab over the discarded tabs
   * of the suspended tab's window: among those with the same URL, a single one
   * wins; of several, the first with the same index, else the first.
   */
  function FindPotentialDiscardedSuspendedTab(suspendedTab: Tab, discardedTabs: seq<Tab>): (r: Option<Tab>)
  {
    var sameUrl := SameUrl(discardedTabs, suspendedTab.url);
    if |sameUrl| == 1 then Some(sameUrl[0])
    else if |sameUrl| > 1 then
      match FirstWithIndex(sameUrl, suspendedTab.index)
      case Some(t) => Some(t)
      case None => Some(sameUrl[0])
    else None
  }

  /** `filter` of the tabs with the given URL, order kept. */
  function SameUrl(tabs: seq<Tab>, url: Url): (r: seq<Tab>)
    ensures forall t :: t in r <==> t in tabs && t.url == url
    decreases |tabs|
  {
    if |tabs| == 0 then []
    else
      var rest := SameUrl(tabs[1..], url);
      assert forall t :: t in tabs <==> t == tabs[0] || t in tabs[1..];
      if tabs[0].url == url then [tabs[0]] + rest else rest
  }

  /** `find` of the first tab with the given index. */
  function FirstWithIndex(tabs: seq<Tab>, index: int): (r: Option<Tab>)
    ensures r.Some? <==> exists t :: t in tabs && t.index == index
    ensures r.Some? ==> r.value in tabs && r.value.index == index
    decreases |tabs|
  {
    if |tabs| == 0 then None
    else if tabs[0].index == index then Some(tabs[0])
    else
      assert forall t :: t in tabs <==> t == tabs[0] || t in tabs[1..];
      FirstWithIndex(tabs[1..], index)
  }

  /** The first tab with the index comes before every other tab with it. */
  lemma {:induction false} FirstWithIndexIsFirst(tabs: seq<Tab>, index: int, k: int)
    requires 0 <= k < |tabs| && tabs[k].index == index
    ensures FirstWithIndex(tabs, index).Some?
    ensures exists j :: 0 <= j <= k && tabs[j] == FirstWithIndex(tabs, index).value
    decreases |tabs|
  {
    assert tabs[k] in tabs;
    if tabs[0].index != index {
      FirstWithIndexIsFirst(tabs[1..], index, k - 1);
      var j :| 0 <= j <= k - 1 && tabs[1..][j] == FirstWithIndex(tabs[1..], index).value;
      assert tabs[j + 1] == tabs[1..][j];
    }
  }

  /**
   * The selection returns a discarded tab with the suspended tab's URL exactly when
   * there is one; it prefers the first one at the same index, and otherwise takes
   * the first URL match.
   */
  lemma DiscardedTabSelection(suspendedTab: Tab, discardedTabs: seq<Tab>)
    ensures var r := FindPotentialDiscardedSuspendedTab(suspendedTab, discardedTabs);
      && (r.Some? <==> exists t :: t in discardedTabs && t.url == suspendedTab.url)
      && (r.Some? ==> r.value in discardedTabs && r.value.url == suspendedTab.url)
      && ((exists t :: t in discardedTabs && t.url == suspendedTab.url && t.index == suspendedTab.index)
            ==> r.Some? && r.value.index == suspendedTab.index)
    ensures var r := FindPotentialDiscardedSuspendedTab(suspendedTab, discardedTabs);
      var sameUrl := SameUrl(discardedTabs, suspendedTab.url);
      && (FirstWithIndex(sameUrl, suspendedTab.index).Some? ==> r == FirstWithIndex(sameUrl, suspendedTab.index))
      && (|sameUrl| > 0 && FirstWithIndex(sameUrl, suspendedTab.index).None? ==> r == Some(sameUrl[0]))
  {
    var sameUrl := SameUrl(discardedTabs, suspendedTab.url);
    if |sameUrl| == 1 && FirstWithIndex(sameUrl, suspendedTab.index).Some? {
      assert sameUrl[1..] == [];
    }
    if exists t :: t in discardedTabs && t.url == suspendedTab.url {
      var t :| t in discardedTabs && t.url == suspendedTab.url;
      assert t in sameUrl;
      assert sameUrl[0] in sameUrl;
    }
    if exists t :: t in discardedTabs && t.url == suspendedTab.url && t.index == suspendedTab.index {
      var t :| t in discardedTabs && t.url == suspendedTab.url && t.index == suspendedTab.index;
      assert t in sameUrl;
      if |sameUrl| == 1 {
        var k :| 0 <= k < |sameUrl| && sameUrl[k] == t;
      }
    }
  }

  /**
   * findPotentialDiscardedSuspendedTab as written: the query's Promise is never awaited,
   * so `filter` is looked up on a Promise, which has none, and the call throws a TypeError.
   */
  function FindPotentialDiscardedSuspendedTabAsWritten(suspendedTab: Tab, discardedTabs: seq<Tab>): (r: Result<Option<Tab>, string>)
    ensures r.Failure?
  {
    Failure("TypeError: tabs.filter is not a function")
  }

  /**
   * A suspended tab that was discarded before initialisation, and whose discarded
   * copy sits in its window, is found by the evident rule and lost as written.
   */
  lemma DiscardedTabFinding(suspendedTab: Tab, discardedTabs: seq<Tab>)
    requires exists t :: t in discardedTabs && t.url == suspendedTab.url
    ensures FindPotentialDiscardedSuspendedTab(suspendedTab, discardedTabs).Some?
    ensures FindPotentialDiscardedSuspendedTabAsWritten(suspendedTab, discardedTabs).Failure?
  {
    DiscardedTabSelection(suspendedTab, discardedTabs);
  }

  /**
   * fetchUpdatedTab: the host's current record of the tab; failing that, for a
   * (loosely) suspended tab, its discarded copy, which the engine then reloads.
   */
  function FetchUpdatedTab(u: Util, tab: Tab, hostTab: Option<Tab>, discardedTabs: seq<Tab>): (r: Option<Tab>)
    ensures hostTab.Some? ==> r == hostTab
    ensures hostTab.None? && !u.isSuspendedTab(tab, true) ==> r.None?
    ensures hostTab.None? && u.isSuspendedTab(tab, true) ==>
      r == FindPotentialDiscardedSuspendedTab(tab, discardedTabs)
  {
    if hostTab.Some? then hostTab
    else if !u.isSuspendedTab(tab, true) then None
    else FindPotentialDiscardedSuspendedTab(tab, discardedTabs)
  }

  /**
   * fetchUpdatedTab as written: the branch for a lost, loosely suspended tab awaits
   * findPotentialDiscardedSuspendedTab as written, whose TypeError rejects the call.
   */
  function FetchUpdatedTabAsWritten(u: Util, tab: Tab, hostTab: Option<Tab>, discardedTabs: seq<Tab>): (r: Result<Option<Tab>, string>)
    ensures hostTab.Some? ==> r == Success(hostTab)
    ensures hostTab.None? && !u.isSuspendedTab(tab, true) ==> r == Success(None)
    ensures hostTab.None? && u.isSuspendedTab(tab, true) ==> r.Failure?
  {
    if hostTab.Some? then Success(hostTab)
    else if !u.isSuspendedTab(tab, true) then Success(None)
    else FindPotentialDiscardedSuspendedTabAsWritten(tab, discardedTabs)
  }

  /**
   * The two readings of fetchUpdatedTab agree except on a lost, loosely suspended
   * tab, where the code as written rejects and the corrected rule still answers.
   */
  lemma FetchUpdatedTabFinding(u: Util, tab: Tab, hostTab: Option<Tab>, discardedTabs: seq<Tab>)
    ensures FetchUpdatedTabAsWritten(u, tab, hostTab, discardedTabs).Failure?
      <==> hostTab.None? && u.isSuspendedTab(tab, true)
    ensures FetchUpdatedTabAsWritten(u, tab, hostTab, discardedTabs).Success? ==>
      FetchUpdatedTabAsWritten(u, tab, hostTab, discardedTabs).value == FetchUpdatedTab(u, tab, hostTab, discardedTabs)
  {
  }

  /** What the host answers during the k-th attempt of one tab's check. */
  datatype Attempt = Attempt(hostTab: Option<Tab>, discardedTabs: seq<Tab>, ping: PingOracle, draw: Draw)

  /** How one tab's check ended. */
  datatype Outcome = Skipped | BudgetExhausted | TabLost | Settled

  /** The end of one tab's check: how, with how much time queued, after how many pings. */
  datatype CheckResult = CheckResult(outcome: Outcome, totalTimeQueued: nat, pings: nat)

  /** What decreases from one requeue to the next: time left in the budget, then whether the wait is zero. */
  function QueueMeasure(budget: nat, timeout: nat, totalTimeQueued: nat): nat
  {
    2 * (if totalTimeQueued < budget then budget - totalTimeQueued else 0) + (if timeout == 0 then 1 else 0)
  }

  /**
   * queueTabScriptCheck as the source's accumulator recursion: skip special and
   * discarded tabs, give up once the budget is spent, wait, re-fetch the tab, add the
   * wait to the time queued, ping, and requeue with a fresh timeout of at least 5 s.
   */
  function ScriptCheck(u: Util, tab: Tab, timeout: nat, totalTimeQueued: nat, pings: nat,
                       openTabCount: nat, attempts: nat -> Attempt): CheckResult
    decreases QueueMeasure(InitTimeoutMs(openTabCount), timeout, totalTimeQueued)
  {
    if u.isSpecialTab(tab) || u.isDiscardedTab(tab) then CheckResult(Skipped, totalTimeQueued, pings)
    else if totalTimeQueued >= InitTimeoutMs(openTabCount) then CheckResult(BudgetExhausted, totalTimeQueued, pings)
    else
      var attempt := attempts(pings);
      var fetched := FetchUpdatedTab(u, tab, attempt.hostTab, attempt.discardedTabs);
      if fetched.None? then CheckResult(TabLost, totalTimeQueued, pings)
      else
        var total := totalTimeQueued + timeout;
        if PingTabScript(u, fetched.value, attempt.ping).settled then CheckResult(Settled, total, pings + 1)
        else
          var nextTimeout := RandomTimeout(5000, openTabCount, attempt.draw);
          ScriptCheck(u, fetched.value, nextTimeout, total, pings + 1, openTabCount, attempts)
  }

  /** queueTabScriptCheck, with the recursion on `totalTimeQueued` run as a loop. */
  method QueueTabScriptCheck(u: Util, tab: Tab, timeout: nat, openTabCount: nat, attempts: nat -> Attempt)
    returns (result: CheckResult)
    ensures result == ScriptCheck(u, tab, timeout, 0, 0, openTabCount, attempts)
  {
    var currentTab := tab;
    var currentTimeout := timeout;
    var totalTimeQueued: nat := 0;
    var pings: nat := 0;
    var done := false;
    result := CheckResult(Skipped, 0, 0);
    while !done
      invariant !done ==>
        (ScriptCheck(u, tab, timeout, 0, 0, openTabCount, attempts)
         == ScriptCheck(u, currentTab, currentTimeout, totalTimeQueued, pings, openTabCount, attempts))
      invariant done ==> result == ScriptCheck(u, tab, timeout, 0, 0, openTabCount, attempts)
      decreases !done, QueueMeasure(InitTimeoutMs(openTabCount), currentTimeout, totalTimeQueued)
    {
      if u.isSpecialTab(currentTab) || u.isDiscardedTab(currentTab) {
        result, done := CheckResult(Skipped, totalTimeQueued, pings), true;
      } else if totalTimeQueued >= InitTimeoutMs(openTabCount) {
        result, done := CheckResult(BudgetExhausted, totalTimeQueued, pings), true;
      } else {
        var attempt := attempts(pings);
        var fetched := FetchUpdatedTab(u, currentTab, attempt.hostTab, attempt.discardedTabs);
        if fetched.None? {
          result, done := CheckResult(TabLost, totalTimeQueued, pings), true;
        } else {
          currentTab := fetched.value;
          totalTimeQueued := totalTimeQueued + currentTimeout;
          var ping := PingTabScript(u, currentTab, attempt.ping);
          pings := pings + 1;
          if ping.settled {
            result, done := CheckResult(Settled, totalTimeQueued, pings), true;
          } else {
            currentTimeout := RandomTimeout(5000, openTabCount, attempt.draw);
          }
        }
      }
    }
  }

  /**
   * A check gives up for budget reasons only with the whole budget queued; it only
   * ever stops early for a special or discarded tab, a tab it cannot re-fetch, or a
   * settled ping. Time queued and pings only grow.
   */
  lemma {:induction false} ScriptCheckOutcome(u: Util, tab: Tab, timeout: nat, totalTimeQueued: nat, pings: nat,
                                              openTabCount: nat, attempts: nat -> Attempt)
    ensures var r := ScriptCheck(u, tab, timeout, totalTimeQueued, pings, openTabCount, attempts);
      && (r.outcome == BudgetExhausted ==> r.totalTimeQueued >= InitTimeoutMs(openTabCount))
      && (r.outcome == TabLost ==> r.totalTimeQueued < InitTimeoutMs(openTabCount))
      && r.totalTimeQueued >= totalTimeQueued
      && r.pings >= pings
    decreases QueueMeasure(InitTimeoutMs(openTabCount), timeout, totalTimeQueued)
  {
    if !(u.isSpecialTab(tab) || u.isDiscardedTab(tab)) && totalTimeQueued < InitTimeoutMs(openTabCount) {
      var attempt := attempts(pings);
      var fetched := FetchUpdatedTab(u, tab, attempt.hostTab, attempt.discardedTabs);
      if fetched.Some? && !PingTabScript(u, fetched.value, attempt.ping).settled {
        var nextTimeout := RandomTimeout(5000, openTabCount, attempt.draw);
        ScriptCheckOutcome(u, fetched.value, nextTimeout, totalTimeQueued + timeout, pings + 1, openTabCount, attempts);
      }
    }
  }

  /** A tab whose first ping settles it is done after one ping and its first wait, with no requeue. */
  lemma FirstPingSettles(u: Util, tab: Tab, timeout: nat, openTabCount: nat, attempts: nat -> Attempt)
    requires !u.isSpecialTab(tab) && !u.isDiscardedTab(tab) && openTabCount > 0
    requires attempts(0).hostTab.Some? && PingTabScript(u, attempts(0).hostTab.value, attempts(0).ping).settled
    ensures ScriptCheck(u, tab, timeout, 0, 0, openTabCount, attempts) == CheckResult(Settled, timeout, 1)
  {
  }

  /**
   * Every ping after the first was preceded by a wait of at least 5 s, so the number
   * of pings is bounded by the budget.
   */
  lemma {:induction false} ScriptCheckPingBound(u: Util, tab: Tab, timeout: nat, totalTimeQueued: nat, pings: nat,
                                               openTabCount: nat, attempts: nat -> Attempt)
    ensures var r := ScriptCheck(u, tab, timeout, totalTimeQueued, pings, openTabCount, attempts);
      5000 * (r.pings - pings) <= r.totalTimeQueued - totalTimeQueued + 5000
    decreases QueueMeasure(InitTimeoutMs(openTabCount), timeout, totalTimeQueued)
  {
    if !(u.isSpecialTab(tab) || u.isDiscardedTab(tab)) && totalTimeQueued < InitTimeoutMs(openTabCount) {
      var attempt := attempts(pings);
      var fetched := FetchUpdatedTab(u, tab, attempt.hostTab, attempt.discardedTabs);
      if fetched.Some? && !PingTabScript(u, fetched.value, attempt.ping).settled {
        var nextTimeout := RandomTimeout(5000, openTabCount, attempt.draw);
        ScriptCheckPingBoundAfter(u, fetched.value, nextTimeout, totalTimeQueued + timeout, pings + 1, openTabCount, attempts);
      }
    }
  }

  /** ScriptCheckPingBound once a wait of at least 5 s is queued. */
  lemma {:induction false} ScriptCheckPingBoundAfter(u: Util, tab: Tab, timeout: nat, totalTimeQueued: nat, pings: nat,
                                                    openTabCount: nat, attempts: nat -> Attempt)
    requires timeout >= 5000
    ensures var r := ScriptCheck(u, tab, timeout, totalTimeQueued, pings, openTabCount, attempts);
      5000 * (r.pings - pings) <= r.totalTimeQueued - totalTimeQueued
    decreases QueueMeasure(InitTimeoutMs(openTabCount), timeout, totalTimeQueued)
  {
    ScriptCheckOutcome(u, tab, timeout, totalTimeQueued, pings, openTabCount, attempts);
    if !(u.isSpecialTab(tab) || u.isDiscardedTab(tab)) && totalTimeQueued < InitTimeoutMs(openTabCount) {
      var attempt := attempts(pings);
      var fetched := FetchUpdatedTab(u, tab, attempt.hostTab, attempt.discardedTabs);
      if fetched.Some? && !PingTabScript(u, fetched.value, attempt.ping).settled {
        var nextTimeout := RandomTimeout(5000, openTabCount, attempt.draw);
        ScriptCheckPingBoundAfter(u, fetched.value, nextTimeout, totalTimeQueued + timeout, pings + 1, openTabCount, attempts);
      }
    }
  }

  /** The first wait of the i-th tab's check, drawn as getRandomTimeoutInMilliseconds(1000). */
  function FirstTimeout(openTabCount: nat, firstDraws: nat -> Draw, i: nat): nat
  {
    RandomTimeout(1000, openTabCount, firstDraws(i))
  }

  /**
   * checkTabsForResponsiveness: queue one check per tab open at restart, each after a
   * random first wait, the budget sized by the number of those tabs.
   */
  method CheckTabsForResponsiveness(u: Util, openTabsOnRestart: seq<Tab>, firstDraws: nat -> Draw,
                                    attempts: nat -> nat -> Attempt)
    returns (results: seq<CheckResult>)
    ensures |results| == |openTabsOnRestart|
    ensures forall i :: 0 <= i < |results| ==>
      results[i] == ScriptCheck(u, openTabsOnRestart[i], FirstTimeout(|openTabsOnRestart|, firstDraws, i),
                                0, 0, |openTabsOnRestart|, attempts(i))
  {
    var n := |openTabsOnRestart|;
    results := [];
    for i := 0 to n
      invariant |results| == i
      invariant forall j :: 0 <= j < i ==>
        results[j] == ScriptCheck(u, openTabsOnRestart[j], FirstTimeout(n, firstDraws, j), 0, 0, n, attempts(j))
    {
      var timeout := RandomTimeout(1000, n, firstDraws(i));
      var result := QueueTabScriptCheck(u, openTabsOnRestart[i], timeout, n, attempts(i));
      results := results + [result];
    }
  }

  /**
   * Each tab's first check waits at least one second and less than one init period
   * more, and every tab that ran out of budget had the whole budget queued.
   */
  lemma CheckTabsBounds(u: Util, openTabsOnRestart: seq<Tab>, firstDraws: nat -> Draw,
                        attempts: nat -> nat -> Attempt, i: nat)
    requires i < |openTabsOnRestart|
    ensures 1000 <= FirstTimeout(|openTabsOnRestart|, firstDraws, i) < 1000 + InitPeriodMs(|openTabsOnRestart|)
    ensures var r := ScriptCheck(u, openTabsOnRestart[i], FirstTimeout(|openTabsOnRestart|, firstDraws, i),
                                 0, 0, |openTabsOnRestart|, attempts(i));
      r.outcome == BudgetExhausted ==> r.totalTimeQueued >= InitTimeoutMs(|openTabsOnRestart|)
  {
    ScriptCheckOutcome(u, openTabsOnRestart[i], FirstTimeout(|openTabsOnRestart|, firstDraws, i),
                       0, 0, |openTabsOnRestart|, attempts(i));
  }
}
