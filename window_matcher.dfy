/**
 * Pairing the windows of the last session with the windows open now: first by
 * identical id, then greedily by how many matchable tab URLs they share.
 */
module WindowMatcher {
  import opened Wrappers
  import opened Tabs

  /** How many of `current` (duplicates counted) occur somewhere in `session`. */
  function CountIn(current: seq<Url>, session: seq<Url>): (n: nat)
    ensures n <= |current|
    decreases |current|
  {
    if |current| == 0 then 0
    else CountIn(current[..|current| - 1], session) + (if current[|current| - 1] in session then 1 else 0)
  }

  /** The count is zero exactly when the lists share no URL. */
  lemma {:induction false} CountInZero(current: seq<Url>, session: seq<Url>)
    ensures CountIn(current, session) == 0 <==> forall url :: url in current ==> url !in session
    decreases |current|
  {
    if |current| > 0 {
      var init := current[..|current| - 1];
      CountInZero(init, session);
      assert current == init + [current[|current| - 1]];
      assert forall url :: url in current <==> url in init || url == current[|current| - 1];
    }
  }

  /** The count is the whole of `current` exactly when every one of its URLs occurs in `session`. */
  lemma {:induction false} CountInAll(current: seq<Url>, session: seq<Url>)
    ensures CountIn(current, session) == |current| <==> forall url :: url in current ==> url in session
    decreases |current|
  {
    if |current| > 0 {
      var init := current[..|current| - 1];
      CountInAll(init, session);
      assert current == init + [current[|current| - 1]];
      assert forall url :: url in current <==> url in init || url == current[|current| - 1];
    }
  }

  /**
   * generateTabMatchingObjects' score: how many of the current window's matchable
   * tab URLs (duplicates counted) occur among the session window's matchable URLs.
   */
  function TabMatchCount(u: Util, sessionWindow: Window, currentWindow: Window): nat
  {
    CountIn(MatchableUrls(u, currentWindow.tabs), MatchableUrls(u, sessionWindow.tabs))
  }

  /** The score is zero exactly when the two windows have no matchable URL in common. */
  lemma TabMatchCountZero(u: Util, sessionWindow: Window, currentWindow: Window)
    ensures TabMatchCount(u, sessionWindow, currentWindow) == 0 <==>
      forall t, t' :: t in currentWindow.tabs && t' in sessionWindow.tabs && IsMatchable(u, t) && IsMatchable(u, t') ==> t.url != t'.url
  {
    var currentUrls := MatchableUrls(u, currentWindow.tabs);
    var sessionUrls := MatchableUrls(u, sessionWindow.tabs);
    CountInZero(currentUrls, sessionUrls);
    if TabMatchCount(u, sessionWindow, currentWindow) == 0 {
      forall t, t' | t in currentWindow.tabs && t' in sessionWindow.tabs && IsMatchable(u, t) && IsMatchable(u, t')
        ensures t.url != t'.url
      {
        assert t.url in currentUrls;
        assert t'.url in sessionUrls;
      }
    } else {
      var url :| url in currentUrls && url in sessionUrls;
      var t :| t in currentWindow.tabs && IsMatchable(u, t) && t.url == url;
      var t' :| t' in sessionWindow.tabs && IsMatchable(u, t') && t'.url == url;
    }
  }

  /** The score never exceeds the current window's tab count. */
  lemma TabMatchCountBound(u: Util, sessionWindow: Window, currentWindow: Window)
    ensures TabMatchCount(u, sessionWindow, currentWindow) <= |currentWindow.tabs|
  {
  }

  datatype TabMatchingObject = TabMatchingObject(tabMatchCount: nat, sessionWindow: Window, currentWindow: Window)

  function Scored(u: Util, s: Window, c: Window): TabMatchingObject
  {
    TabMatchingObject(TabMatchCount(u, s, c), s, c)
  }

  /** The matching objects of one session window against every current window, in order. */
  function Row(u: Util, s: Window, currents: seq<Window>): (r: seq<TabMatchingObject>)
    ensures |r| == |currents|
    decreases |currents|
  {
    if |currents| == 0 then []
    else
      Row(u, s, currents[..|currents| - 1]) + [Scored(u, s, currents[|currents| - 1])]
  }

  /** Row lists the pair with current window j at position j. */
  lemma {:induction false} RowAt(u: Util, s: Window, currents: seq<Window>, j: int)
    requires 0 <= j < |currents|
    ensures Row(u, s, currents)[j] == Scored(u, s, currents[j])
    decreases |currents|
  {
    if j < |currents| - 1 {
      RowAt(u, s, currents[..|currents| - 1], j);
    }
  }

  /** Where row i starts when every row holds n objects. */
  function Offset(i: nat, n: nat): nat
  {
    if i == 0 then 0 else Offset(i - 1, n) + n
  }

  /** Every (session window, current window) pair, session-outer and current-inner. */
  function Pairs(u: Util, sessions: seq<Window>, currents: seq<Window>): (r: seq<TabMatchingObject>)
    ensures |r| == Offset(|sessions|, |currents|)
    decreases |sessions|
  {
    if |sessions| == 0 then []
    else Pairs(u, sessions[..|sessions| - 1], currents) + Row(u, sessions[|sessions| - 1], currents)
  }

  lemma {:induction false} OffsetMonotone(i': nat, i: nat, n: nat)
    requires i' < i
    ensures Offset(i', n) + n <= Offset(i, n)
    decreases i
  {
    if i' < i - 1 {
      OffsetMonotone(i', i - 1, n);
    }
  }

  /** Row-major positions respect the lexicographic order of (row, column). */
  lemma LexBefore(i': nat, j': nat, i: nat, j: nat, n: nat)
    requires j' < n && j < n
    requires i' < i || (i' == i && j' < j)
    ensures Offset(i', n) + j' < Offset(i, n) + j
  {
    if i' < i {
      OffsetMonotone(i', i, n);
    }
  }

  /** A position below m full rows splits into a row below m and a column below n. */
  lemma {:induction false} RowMajor(k: nat, m: nat, n: nat) returns (i: nat, j: nat)
    requires k < Offset(m, n)
    ensures i < m && j < n && k == Offset(i, n) + j
    decreases m
  {
    if k < Offset(m - 1, n) {
      i, j := RowMajor(k, m - 1, n);
    } else {
      i, j := m - 1, k - Offset(m - 1, n);
    }
  }

  /** Pairs lists pair (i, j) at position Offset(i, |currents|) + j. */
  lemma {:induction false} PairsAt(u: Util, sessions: seq<Window>, currents: seq<Window>, i: int, j: int)
    requires 0 <= i < |sessions| && 0 <= j < |currents|
    ensures Offset(i, |currents|) + j < |Pairs(u, sessions, currents)|
    ensures Pairs(u, sessions, currents)[Offset(i, |currents|) + j] == Scored(u, sessions[i], currents[j])
    decreases |sessions|
  {
    var n := |currents|;
    var init := sessions[..|sessions| - 1];
    var last := sessions[|sessions| - 1];
    var front := Pairs(u, init, currents);
    assert Pairs(u, sessions, currents) == front + Row(u, last, currents);
    if i == |sessions| - 1 {
      RowAt(u, last, currents, j);
    } else {
      OffsetMonotone(i, |init|, n);
      PairsAt(u, init, currents, i, j);
      assert init[i] == sessions[i];
    }
  }

  /** generateTabMatchingObjects: nested loops that score every pair. */
  method GenerateTabMatchingObjects(u: Util, sessionWindows: seq<Window>, currentWindows: seq<Window>)
    returns (tabMatchingObjects: seq<TabMatchingObject>)
    ensures tabMatchingObjects == Pairs(u, sessionWindows, currentWindows)
  {
    tabMatchingObjects := [];
    for i := 0 to |sessionWindows|
      invariant tabMatchingObjects == Pairs(u, sessionWindows[..i], currentWindows)
    {
      var sessionWindow := sessionWindows[i];
      for j := 0 to |currentWindows|
        invariant tabMatchingObjects == Pairs(u, sessionWindows[..i], currentWindows) + Row(u, sessionWindow, currentWindows[..j])
      {
        var currentWindow := currentWindows[j];
        var matchCount := TabMatchCount(u, sessionWindow, currentWindow);
        tabMatchingObjects := tabMatchingObjects + [TabMatchingObject(matchCount, sessionWindow, currentWindow)];
        assert currentWindows[..j + 1][..j] == currentWindows[..j];
      }
      assert currentWindows[..|currentWindows|] == currentWindows;
      assert sessionWindows[..i + 1][..i] == sessionWindows[..i];
    }
    assert sessionWindows[..|sessionWindows|] == sessionWindows;
  }

  /** `Math.max` over the objects' counts. */
  function MaxTabMatchCount(objs: seq<TabMatchingObject>): (m: nat)
    requires |objs| > 0
    ensures forall i :: 0 <= i < |objs| ==> objs[i].tabMatchCount <= m
    ensures exists i :: 0 <= i < |objs| && objs[i].tabMatchCount == m
    decreases |objs|
  {
    if |objs| == 1 then objs[0].tabMatchCount
    else
      var rest := MaxTabMatchCount(objs[1..]);
      assert forall i :: 0 < i < |objs| ==> objs[i] == objs[1..][i - 1];
      if objs[0].tabMatchCount >= rest then objs[0].tabMatchCount else rest
  }

  /** `find` of the first object with the given count. */
  function FirstWithCount(objs: seq<TabMatchingObject>, count: nat): (k: nat)
    requires exists i :: 0 <= i < |objs| && objs[i].tabMatchCount == count
    ensures k < |objs| && objs[k].tabMatchCount == count
    ensures forall i :: 0 <= i < k ==> objs[i].tabMatchCount != count
    decreases |objs|
  {
    if objs[0].tabMatchCount == count then 0
    else
      assert forall i :: 0 < i < |objs| ==> objs[i] == objs[1..][i - 1];
      1 + FirstWithCount(objs[1..], count)
  }

  /** The object the greedy pass commits: the first one with the highest count. */
  function BestIndex(objs: seq<TabMatchingObject>): (k: nat)
    requires |objs| > 0
    ensures k < |objs|
    ensures forall i :: 0 <= i < |objs| ==> objs[i].tabMatchCount <= objs[k].tabMatchCount
    ensures forall i :: 0 <= i < k ==> objs[i].tabMatchCount < objs[k].tabMatchCount
  {
    FirstWithCount(objs, MaxTabMatchCount(objs))
  }

  /**
   * The objects left once a session window and a current window have been matched.
   * The source compares window objects by reference; within one list of distinct
   * window ids, the same object is the same id.
   */
  function RemoveMatched(objs: seq<TabMatchingObject>, sessionId: int, currentId: int): seq<TabMatchingObject>
    decreases |objs|
  {
    if |objs| == 0 then []
    else
      var init := objs[..|objs| - 1];
      var last := objs[|objs| - 1];
      RemoveMatched(init, sessionId, currentId)
        + (if last.sessionWindow.id != sessionId && last.currentWindow.id != currentId then [last] else [])
  }

  lemma {:induction false} RemoveMatchedAppend(a: seq<TabMatchingObject>, b: seq<TabMatchingObject>, sid: int, cid: int)
    ensures RemoveMatched(a + b, sid, cid) == RemoveMatched(a, sid, cid) + RemoveMatched(b, sid, cid)
    decreases |b|
  {
    if |b| == 0 {
      assert a + b == a;
    } else {
      assert (a + b)[..|a + b| - 1] == a + b[..|b| - 1];
      RemoveMatchedAppend(a, b[..|b| - 1], sid, cid);
    }
  }

  lemma RowSnoc(u: Util, t: Window, ws: seq<Window>, w: Window)
    ensures Row(u, t, ws + [w]) == Row(u, t, ws) + [Scored(u, t, w)]
  {
    assert (ws + [w])[..|ws|] == ws;
  }

  lemma RemoveMatchedSnoc(objs: seq<TabMatchingObject>, x: TabMatchingObject, sid: int, cid: int)
    ensures RemoveMatched(objs + [x], sid, cid)
      == RemoveMatched(objs, sid, cid) + (if x.sessionWindow.id != sid && x.currentWindow.id != cid then [x] else [])
  {
    assert (objs + [x])[..|objs|] == objs;
  }

  lemma {:induction false} RemoveMatchedRow(u: Util, t: Window, currents: seq<Window>, sid: int, cid: int)
    ensures RemoveMatched(Row(u, t, currents), sid, cid) == if t.id == sid then [] else Row(u, t, Without(currents, cid))
    decreases |currents|
  {
    if |currents| > 0 {
      var init := currents[..|currents| - 1];
      var last := currents[|currents| - 1];
      assert currents == init + [last];
      RemoveMatchedRow(u, t, init, sid, cid);
      RowSnoc(u, t, init, last);
      RemoveMatchedSnoc(Row(u, t, init), Scored(u, t, last), sid, cid);
      var rest := RemoveMatched(Row(u, t, init), sid, cid);
      var w := Without(init, cid);
      if t.id != sid && last.id != cid {
        RowSnoc(u, t, w, last);
      } else {
        assert w + [] == w;
        assert rest + [] == rest;
      }
    }
  }

  lemma PairsSnoc(u: Util, sessions: seq<Window>, s: Window, currents: seq<Window>)
    ensures Pairs(u, sessions + [s], currents) == Pairs(u, sessions, currents) + Row(u, s, currents)
  {
    assert (sessions + [s])[..|sessions|] == sessions;
  }

  /** Removing a matched pair's objects leaves exactly the pairs of the two shrunken pools. */
  lemma {:induction false} RemoveMatchedPairs(u: Util, sessions: seq<Window>, currents: seq<Window>, sid: int, cid: int)
    ensures RemoveMatched(Pairs(u, sessions, currents), sid, cid) == Pairs(u, Without(sessions, sid), Without(currents, cid))
    decreases |sessions|
  {
    if |sessions| > 0 {
      var init := sessions[..|sessions| - 1];
      var last := sessions[|sessions| - 1];
      assert sessions == init + [last];
      RemoveMatchedPairs(u, init, currents, sid, cid);
      RemoveMatchedAppend(Pairs(u, init, currents), Row(u, last, currents), sid, cid);
      RemoveMatchedRow(u, last, currents, sid, cid);
      var front := Pairs(u, Without(init, sid), Without(currents, cid));
      var kept := Without(init, sid);
      if last.id != sid {
        PairsSnoc(u, kept, last, Without(currents, cid));
      } else {
        assert kept + [] == kept;
        assert front + [] == front;
      }
    }
  }

  /** The object the greedy pass commits from two non-empty pools. */
  function Best(u: Util, sessions: seq<Window>, currents: seq<Window>): (best: TabMatchingObject)
    requires |sessions| > 0 && |currents| > 0
    ensures best.sessionWindow in sessions && best.currentWindow in currents
  {
    var objs := Pairs(u, sessions, currents);
    assert |objs| > 0 by { PairsAt(u, sessions, currents, 0, 0); }
    PairsMember(u, sessions, currents, BestIndex(objs));
    objs[BestIndex(objs)]
  }

  /** Every object Pairs lists pairs a session window with a current window. */
  lemma PairsMember(u: Util, sessions: seq<Window>, currents: seq<Window>, k: int)
    requires 0 <= k < |Pairs(u, sessions, currents)|
    ensures Pairs(u, sessions, currents)[k].sessionWindow in sessions
    ensures Pairs(u, sessions, currents)[k].currentWindow in currents
  {
    var i, j := RowMajor(k, |sessions|, |currents|);
    PairsAt(u, sessions, currents, i, j);
  }

  /**
   * Pair (i, j) scores highest among all pairs, and strictly higher than every pair
   * before it in session-outer/current-inner order.
   */
  predicate FirstBestPair(u: Util, sessions: seq<Window>, currents: seq<Window>, i: int, j: int)
    requires 0 <= i < |sessions| && 0 <= j < |currents|
  {
    && (forall i', j' :: 0 <= i' < |sessions| && 0 <= j' < |currents| ==>
          TabMatchCount(u, sessions[i'], currents[j']) <= TabMatchCount(u, sessions[i], currents[j]))
    && (forall i', j' :: 0 <= i' < |sessions| && 0 <= j' < |currents| && (i' < i || (i' == i && j' < j)) ==>
          TabMatchCount(u, sessions[i'], currents[j']) < TabMatchCount(u, sessions[i], currents[j]))
  }

  /**
   * The committed object is the first, in session-outer/current-inner order, among
   * the highest-scoring pairs of the pools; a zero score is committed all the same.
   */
  lemma BestIsFirstBestPair(u: Util, sessions: seq<Window>, currents: seq<Window>)
    requires |sessions| > 0 && |currents| > 0
    ensures exists i, j ::
      (0 <= i < |sessions| && 0 <= j < |currents| && FirstBestPair(u, sessions, currents, i, j)
       && Best(u, sessions, currents) == Scored(u, sessions[i], currents[j]))
  {
    var n := |currents|;
    var objs := Pairs(u, sessions, currents);
    PairsAt(u, sessions, currents, 0, 0);
    var k := BestIndex(objs);
    var i, j := RowMajor(k, |sessions|, n);
    PairsAt(u, sessions, currents, i, j);
    forall i', j' | 0 <= i' < |sessions| && 0 <= j' < n
      ensures TabMatchCount(u, sessions[i'], currents[j']) <= TabMatchCount(u, sessions[i], currents[j])
      ensures (i' < i || (i' == i && j' < j)) ==> TabMatchCount(u, sessions[i'], currents[j']) < TabMatchCount(u, sessions[i], currents[j])
    {
      BestOver(u, sessions, currents, i', j');
      if i' < i || (i' == i && j' < j) {
        LexBefore(i', j', i, j, n);
      }
    }
    assert FirstBestPair(u, sessions, currents, i, j);
    assert Best(u, sessions, currents) == Scored(u, sessions[i], currents[j]);
  }

  /** One pair's score against the committed object's. */
  lemma BestOver(u: Util, sessions: seq<Window>, currents: seq<Window>, i': int, j': int)
    requires 0 <= i' < |sessions| && 0 <= j' < |currents|
    ensures var objs := Pairs(u, sessions, currents);
      && |objs| > 0
      && TabMatchCount(u, sessions[i'], currents[j']) <= objs[BestIndex(objs)].tabMatchCount
      && (Offset(i', |currents|) + j' < BestIndex(objs) ==> TabMatchCount(u, sessions[i'], currents[j']) < objs[BestIndex(objs)].tabMatchCount)
  {
    PairsAt(u, sessions, currents, i', j');
  }

  /**
   * The greedy pass as a recursion: commit the best pair, drop both windows from
   * their pools, repeat until a pool is empty.
   */
  function Greedy(u: Util, sessions: seq<Window>, currents: seq<Window>): (committed: seq<TabMatchingObject>)
    decreases |sessions|
  {
    if |sessions| == 0 || |currents| == 0 then []
    else
      var best := Best(u, sessions, currents);
      [best] + Greedy(u, Without(sessions, best.sessionWindow.id), Without(currents, best.currentWindow.id))
  }

  /** Members of a map from session window id to current window. */
  predicate Injective(m: map<int, Window>)
  {
    forall k1, k2 :: k1 in m && k2 in m && k1 != k2 ==> m[k1].id != m[k2].id
  }

  /** The state of the identity pass: the matches so far and the two pools. */
  datatype IdentityState = IdentityState(matched: map<int, Window>, sessions: seq<Window>, currents: seq<Window>)

  /**
   * One step of the identity pass: the session window is matched to the unmatched
   * current window with its id, if there is one, and both leave their pools.
   */
  function IdentityStep(st: IdentityState, sessionWindow: Window): IdentityState
  {
    match FindById(st.currents, sessionWindow.id)
    case Some(currentWindow) =>
      IdentityState(st.matched[sessionWindow.id := currentWindow],
                    Without(st.sessions, sessionWindow.id), Without(st.currents, currentWindow.id))
    case None => st
  }

  /** The identity pass after its first i session windows, as a recursion. */
  function IdentityPass(sessionWindows: seq<Window>, currentWindows: seq<Window>, i: int): IdentityState
    requires 0 <= i <= |sessionWindows|
    decreases i
  {
    if i == 0 then IdentityState(map[], sessionWindows, currentWindows)
    else IdentityStep(IdentityPass(sessionWindows, currentWindows, i - 1), sessionWindows[i - 1])
  }

  /**
   * The first pass of matchCurrentWindowsWithLastSessionWindows: a session window
   * and a current window with the same id are matched to each other.
   */
  method MatchByIdentity(sessionWindows: seq<Window>, currentWindows: seq<Window>)
    returns (matched: map<int, Window>, unmatchedSessionWindows: seq<Window>, unmatchedCurrentWindows: seq<Window>)
    ensures IdentityState(matched, unmatchedSessionWindows, unmatchedCurrentWindows)
      == IdentityPass(sessionWindows, currentWindows, |sessionWindows|)
  {
    unmatchedSessionWindows := sessionWindows;
    unmatchedCurrentWindows := currentWindows;
    matched := map[];
    for i := 0 to |sessionWindows|
      invariant IdentityState(matched, unmatchedSessionWindows, unmatchedCurrentWindows) == IdentityPass(sessionWindows, currentWindows, i)
    {
      var sessionWindow := sessionWindows[i];
      var matchingCurrentWindow := FindById(unmatchedCurrentWindows, sessionWindow.id);
      if matchingCurrentWindow.Some? {
        matched := matched[sessionWindow.id := matchingCurrentWindow.value];
        unmatchedSessionWindows := Without(unmatchedSessionWindows, sessionWindow.id);
        unmatchedCurrentWindows := Without(unmatchedCurrentWindows, matchingCurrentWindow.value.id);
      }
    }
  }

  /** What the identity pass has established after looking at the first i session windows. */
  ghost predicate IdentityInvariant(sessionWindows: seq<Window>, currentWindows: seq<Window>, i: int,
                                    matched: map<int, Window>, unmatchedSessionWindows: seq<Window>, unmatchedCurrentWindows: seq<Window>)
    requires 0 <= i <= |sessionWindows|
  {
    && unmatchedSessionWindows == Outside(sessionWindows[..i], Ids(currentWindows)) + sessionWindows[i..]
    && unmatchedCurrentWindows == Outside(currentWindows, Ids(sessionWindows[..i]))
    && matched.Keys == Ids(sessionWindows[..i]) * Ids(currentWindows)
    && (forall k :: k in matched ==> matched[k] in currentWindows && matched[k].id == k)
    && |matched| + |unmatchedSessionWindows| == |sessionWindows|
    && |matched| + |unmatchedCurrentWindows| == |currentWindows|
  }

  /** IdentityInvariant holds of the state the identity pass reaches after i session windows. */
  ghost predicate IdentityPassInvariantAt(sessionWindows: seq<Window>, currentWindows: seq<Window>, i: int)
    requires 0 <= i <= |sessionWindows|
  {
    var st := IdentityPass(sessionWindows, currentWindows, i);
    IdentityInvariant(sessionWindows, currentWindows, i, st.matched, st.sessions, st.currents)
  }

  lemma {:induction false} IdentityPassInvariant(sessionWindows: seq<Window>, currentWindows: seq<Window>, i: int)
    requires DistinctIds(sessionWindows) && DistinctIds(currentWindows) && 0 <= i <= |sessionWindows|
    ensures IdentityPassInvariantAt(sessionWindows, currentWindows, i)
    decreases i
  {
    if i == 0 {
      IdentityStart(sessionWindows, currentWindows);
    } else {
      IdentityPassInvariant(sessionWindows, currentWindows, i - 1);
      IdentityPassStep(sessionWindows, currentWindows, i);
    }
  }

  /** One step of the identity pass keeps IdentityInvariant. */
  lemma IdentityPassStep(sessionWindows: seq<Window>, currentWindows: seq<Window>, i: int)
    requires DistinctIds(sessionWindows) && DistinctIds(currentWindows) && 0 < i <= |sessionWindows|
    requires IdentityPassInvariantAt(sessionWindows, currentWindows, i - 1)
    ensures IdentityPassInvariantAt(sessionWindows, currentWindows, i)
  {
    IdentityStepKeeps(sessionWindows, currentWindows, i - 1, IdentityPass(sessionWindows, currentWindows, i - 1));
  }

  lemma IdentityStepKeeps(sessionWindows: seq<Window>, currentWindows: seq<Window>, i: int, st: IdentityState)
    requires DistinctIds(sessionWindows) && DistinctIds(currentWindows) && 0 <= i < |sessionWindows|
    requires IdentityInvariant(sessionWindows, currentWindows, i, st.matched, st.sessions, st.currents)
    ensures var next := IdentityStep(st, sessionWindows[i]);
      IdentityInvariant(sessionWindows, currentWindows, i + 1, next.matched, next.sessions, next.currents)
  {
    var found := FindById(st.currents, sessionWindows[i].id);
    if found.Some? {
      IdentityFound(sessionWindows, currentWindows, i, st.matched, st.sessions, st.currents, found.value);
    } else {
      IdentityMissing(sessionWindows, currentWindows, i, st.matched, st.sessions, st.currents);
    }
  }

  /**
   * After the identity pass the pools hold exactly the windows whose id the other
   * list lacks, and every shared id is matched to the current window with that id.
   */
  lemma IdentityPassResult(sessionWindows: seq<Window>, currentWindows: seq<Window>)
    requires DistinctIds(sessionWindows) && DistinctIds(currentWindows)
    ensures var st := IdentityPass(sessionWindows, currentWindows, |sessionWindows|);
      && st.sessions == Outside(sessionWindows, Ids(currentWindows))
      && st.currents == Outside(currentWindows, Ids(sessionWindows))
      && st.matched.Keys == Ids(sessionWindows) * Ids(currentWindows)
      && (forall k :: k in st.matched ==> st.matched[k] in currentWindows && st.matched[k].id == k)
      && |st.matched| + |st.sessions| == |sessionWindows|
      && |st.matched| + |st.currents| == |currentWindows|
  {
    IdentityPassInvariant(sessionWindows, currentWindows, |sessionWindows|);
    TakeAll(sessionWindows);
    AppendNothing(Outside(sessionWindows, Ids(currentWindows)));
  }

  lemma IdentityStart(sessionWindows: seq<Window>, currentWindows: seq<Window>)
    ensures IdentityInvariant(sessionWindows, currentWindows, 0, map[], sessionWindows, currentWindows)
  {
    OutsideNone(currentWindows);
    assert Ids(sessionWindows[..0]) == {};
    assert Outside(sessionWindows[..0], Ids(currentWindows)) + sessionWindows[0..] == sessionWindows;
  }

  /** A session window whose id no unmatched current window has changes nothing. */
  lemma IdentityMissing(sessionWindows: seq<Window>, currentWindows: seq<Window>, i: int,
                        matched: map<int, Window>, unmatchedSessionWindows: seq<Window>, unmatchedCurrentWindows: seq<Window>)
    requires DistinctIds(sessionWindows) && 0 <= i < |sessionWindows|
    requires IdentityInvariant(sessionWindows, currentWindows, i, matched, unmatchedSessionWindows, unmatchedCurrentWindows)
    requires sessionWindows[i].id !in Ids(unmatchedCurrentWindows)
    ensures IdentityInvariant(sessionWindows, currentWindows, i + 1, matched, unmatchedSessionWindows, unmatchedCurrentWindows)
  {
    IdentityNewId(sessionWindows, currentWindows, i);
    IdentitySessionDone(sessionWindows, currentWindows, i);
    IdentityCurrentPool(sessionWindows, currentWindows, i);
  }

  /** A session window whose id an unmatched current window has is matched to it. */
  lemma IdentityFound(sessionWindows: seq<Window>, currentWindows: seq<Window>, i: int,
                      matched: map<int, Window>, unmatchedSessionWindows: seq<Window>, unmatchedCurrentWindows: seq<Window>,
                      currentWindow: Window)
    requires DistinctIds(sessionWindows) && DistinctIds(currentWindows) && 0 <= i < |sessionWindows|
    requires IdentityInvariant(sessionWindows, currentWindows, i, matched, unmatchedSessionWindows, unmatchedCurrentWindows)
    requires currentWindow in unmatchedCurrentWindows && currentWindow.id == sessionWindows[i].id
    ensures IdentityInvariant(sessionWindows, currentWindows, i + 1, matched[sessionWindows[i].id := currentWindow],
                              Without(unmatchedSessionWindows, sessionWindows[i].id), Without(unmatchedCurrentWindows, currentWindow.id))
  {
    IdentityFoundPools(sessionWindows, currentWindows, i, matched, unmatchedSessionWindows, unmatchedCurrentWindows);
    IdentityFoundEntry(sessionWindows, currentWindows, i, matched, unmatchedSessionWindows, unmatchedCurrentWindows, currentWindow);
  }

  /** A session window whose id an unmatched current window has leaves both pools. */
  lemma IdentityFoundPools(sessionWindows: seq<Window>, currentWindows: seq<Window>, i: int,
                           matched: map<int, Window>, unmatchedSessionWindows: seq<Window>, unmatchedCurrentWindows: seq<Window>)
    requires DistinctIds(sessionWindows) && DistinctIds(currentWindows) && 0 <= i < |sessionWindows|
    requires IdentityInvariant(sessionWindows, currentWindows, i, matched, unmatchedSessionWindows, unmatchedCurrentWindows)
    requires sessionWindows[i].id in Ids(unmatchedCurrentWindows)
    ensures var id := sessionWindows[i].id;
      && Without(unmatchedSessionWindows, id) == Outside(sessionWindows[..i + 1], Ids(currentWindows)) + sessionWindows[i + 1..]
      && Without(unmatchedCurrentWindows, id) == Outside(currentWindows, Ids(sessionWindows[..i + 1]))
      && |Without(unmatchedSessionWindows, id)| == |unmatchedSessionWindows| - 1
      && |Without(unmatchedCurrentWindows, id)| == |unmatchedCurrentWindows| - 1
  {
    IdentityNewId(sessionWindows, currentWindows, i);
    IdentityFoundSessions(sessionWindows, currentWindows, i, unmatchedSessionWindows);
    IdentityFoundCurrents(sessionWindows, currentWindows, i, unmatchedCurrentWindows);
  }

  /** ... and is matched to that current window. */
  lemma IdentityFoundEntry(sessionWindows: seq<Window>, currentWindows: seq<Window>, i: int,
                           matched: map<int, Window>, unmatchedSessionWindows: seq<Window>, unmatchedCurrentWindows: seq<Window>,
                           currentWindow: Window)
    requires DistinctIds(sessionWindows) && 0 <= i < |sessionWindows|
    requires IdentityInvariant(sessionWindows, currentWindows, i, matched, unmatchedSessionWindows, unmatchedCurrentWindows)
    requires currentWindow in unmatchedCurrentWindows && currentWindow.id == sessionWindows[i].id
    ensures var matched' := matched[sessionWindows[i].id := currentWindow];
      && matched'.Keys == Ids(sessionWindows[..i + 1]) * Ids(currentWindows)
      && (forall k :: k in matched' ==> matched'[k] in currentWindows && matched'[k].id == k)
      && |matched'| == |matched| + 1
  {
    IdentityNewId(sessionWindows, currentWindows, i);
    IdentityFoundMap(sessionWindows, currentWindows, i, matched, currentWindow);
  }

  lemma IdentityFoundMap(sessionWindows: seq<Window>, currentWindows: seq<Window>, i: int, matched: map<int, Window>, currentWindow: Window)
    requires 0 <= i < |sessionWindows|
    requires matched.Keys == Ids(sessionWindows[..i]) * Ids(currentWindows)
    requires forall k :: k in matched ==> matched[k] in currentWindows && matched[k].id == k
    requires sessionWindows[i].id !in Ids(sessionWindows[..i])
    requires Ids(sessionWindows[..i + 1]) == Ids(sessionWindows[..i]) + {sessionWindows[i].id}
    requires currentWindow in currentWindows && currentWindow.id == sessionWindows[i].id
    ensures var matched' := matched[sessionWindows[i].id := currentWindow];
      && matched'.Keys == Ids(sessionWindows[..i + 1]) * Ids(currentWindows)
      && (forall k :: k in matched' ==> matched'[k] in currentWindows && matched'[k].id == k)
      && |matched'| == |matched| + 1
  {
    var id := sessionWindows[i].id;
    var matched' := matched[id := currentWindow];
    assert id in Ids(currentWindows);
    assert id !in matched;
    assert matched'.Keys == matched.Keys + {id};
    forall k | k in matched' ensures matched'[k] in currentWindows && matched'[k].id == k {
      if k != id {
        assert matched'[k] == matched[k];
      }
    }
  }

  lemma IdentityFoundSessions(sessionWindows: seq<Window>, currentWindows: seq<Window>, i: int, unmatchedSessionWindows: seq<Window>)
    requires DistinctIds(sessionWindows) && 0 <= i < |sessionWindows|
    requires unmatchedSessionWindows == Outside(sessionWindows[..i], Ids(currentWindows)) + sessionWindows[i..]
    requires sessionWindows[i].id in Ids(currentWindows)
    ensures Without(unmatchedSessionWindows, sessionWindows[i].id) == Outside(sessionWindows[..i + 1], Ids(currentWindows)) + sessionWindows[i + 1..]
    ensures |Without(unmatchedSessionWindows, sessionWindows[i].id)| == |unmatchedSessionWindows| - 1
  {
    IdentitySessionPool(sessionWindows, currentWindows, i);
    IdentitySessionDone(sessionWindows, currentWindows, i);
  }

  lemma IdentityFoundCurrents(sessionWindows: seq<Window>, currentWindows: seq<Window>, i: int, unmatchedCurrentWindows: seq<Window>)
    requires DistinctIds(sessionWindows) && DistinctIds(currentWindows) && 0 <= i < |sessionWindows|
    requires unmatchedCurrentWindows == Outside(currentWindows, Ids(sessionWindows[..i]))
    requires sessionWindows[i].id in Ids(unmatchedCurrentWindows)
    ensures Without(unmatchedCurrentWindows, sessionWindows[i].id) == Outside(currentWindows, Ids(sessionWindows[..i + 1]))
    ensures |Without(unmatchedCurrentWindows, sessionWindows[i].id)| == |unmatchedCurrentWindows| - 1
  {
    IdentityCurrentPool(sessionWindows, currentWindows, i);
    OutsideDistinct(currentWindows, Ids(sessionWindows[..i]));
    WithoutOne(unmatchedCurrentWindows, sessionWindows[i].id);
  }

  /**
   * The map after committing the objects in order: each maps its session window's id
   * to its current window.
   */
  function Commit(m: map<int, Window>, objs: seq<TabMatchingObject>): map<int, Window>
    decreases |objs|
  {
    if |objs| == 0 then m
    else
      var last := objs[|objs| - 1];
      Commit(m, objs[..|objs| - 1])[last.sessionWindow.id := last.currentWindow]
  }

  lemma CommitSnoc(m: map<int, Window>, objs: seq<TabMatchingObject>, o: TabMatchingObject)
    ensures Commit(m, objs + [o]) == Commit(m, objs)[o.sessionWindow.id := o.currentWindow]
  {
    assert (objs + [o])[..|objs|] == objs;
  }

  /** No two objects share a session window id or a current window id. */
  predicate Disjoint(objs: seq<TabMatchingObject>)
  {
    forall a, b :: 0 <= a < b < |objs| ==>
      objs[a].sessionWindow.id != objs[b].sessionWindow.id && objs[a].currentWindow.id != objs[b].currentWindow.id
  }

  /** What one greedy step does to the two pools. */
  lemma GreedyPools(sessions: seq<Window>, currents: seq<Window>, s: Window, c: Window)
    requires DistinctIds(sessions) && DistinctIds(currents)
    requires s in sessions && c in currents
    ensures |Without(sessions, s.id)| == |sessions| - 1 && |Without(currents, c.id)| == |currents| - 1
    ensures DistinctIds(Without(sessions, s.id)) && DistinctIds(Without(currents, c.id))
  {
    WithoutOne(sessions, s.id);
    WithoutOne(currents, c.id);
    WithoutDistinct(sessions, s.id);
    WithoutDistinct(currents, c.id);
  }

  /** Committing the best pair of the pools moves it from the pending part of Greedy to the committed part. */
  lemma GreedyAdvance(u: Util, sessions: seq<Window>, currents: seq<Window>,
                      pending: seq<Window>, pendingCurrents: seq<Window>, committed: seq<TabMatchingObject>)
    requires |pending| > 0 && |pendingCurrents| > 0
    requires Greedy(u, sessions, currents) == committed + Greedy(u, pending, pendingCurrents)
    ensures var best := Best(u, pending, pendingCurrents);
      Greedy(u, sessions, currents) == (committed + [best])
        + Greedy(u, Without(pending, best.sessionWindow.id), Without(pendingCurrents, best.currentWindow.id))
  {
    var best := Best(u, pending, pendingCurrents);
    var rest := Greedy(u, Without(pending, best.sessionWindow.id), Without(pendingCurrents, best.currentWindow.id));
    assert Greedy(u, pending, pendingCurrents) == [best] + rest;
    AppendAssociative(committed, [best], rest);
  }


  /**
   * Greedy commits min(|sessions|, |currents|) pairs, each of a window from each
   * pool, and never commits a window twice.
   */
  lemma {:induction false} GreedyFacts(u: Util, sessions: seq<Window>, currents: seq<Window>)
    requires DistinctIds(sessions) && DistinctIds(currents)
    ensures var g := Greedy(u, sessions, currents);
      && |g| == (if |sessions| <= |currents| then |sessions| else |currents|)
      && (forall o :: o in g ==> o.sessionWindow in sessions && o.currentWindow in currents)
      && Disjoint(g)
    decreases |sessions|
  {
    if |sessions| > 0 && |currents| > 0 {
      var best := Best(u, sessions, currents);
      var s', c' := Without(sessions, best.sessionWindow.id), Without(currents, best.currentWindow.id);
      GreedyPools(sessions, currents, best.sessionWindow, best.currentWindow);
      GreedyFacts(u, s', c');
      assert Greedy(u, sessions, currents) == [best] + Greedy(u, s', c');
      GreedyCons(best, Greedy(u, s', c'), sessions, currents, s', c');
    }
  }

  /** GreedyFacts for a committed pair in front of the pairs committed from the smaller pools. */
  lemma GreedyCons(best: TabMatchingObject, rest: seq<TabMatchingObject>,
                   sessions: seq<Window>, currents: seq<Window>, sessions': seq<Window>, currents': seq<Window>)
    requires best.sessionWindow in sessions && best.currentWindow in currents
    requires forall w :: w in sessions' ==> w in sessions && w.id != best.sessionWindow.id
    requires forall w :: w in currents' ==> w in currents && w.id != best.currentWindow.id
    requires |sessions'| == |sessions| - 1 && |currents'| == |currents| - 1
    requires |rest| == (if |sessions'| <= |currents'| then |sessions'| else |currents'|)
    requires forall o :: o in rest ==> o.sessionWindow in sessions' && o.currentWindow in currents'
    requires Disjoint(rest)
    ensures var g := [best] + rest;
      && |g| == (if |sessions| <= |currents| then |sessions| else |currents|)
      && (forall o :: o in g ==> o.sessionWindow in sessions && o.currentWindow in currents)
      && Disjoint(g)
  {
    var g := [best] + rest;
    forall a, b | 0 <= a < b < |g|
      ensures g[a].sessionWindow.id != g[b].sessionWindow.id && g[a].currentWindow.id != g[b].currentWindow.id
    {
      assert g[b] == rest[b - 1] && rest[b - 1] in rest;
      if a > 0 {
        assert g[a] == rest[a - 1];
      }
    }
  }

  /** Every key of the committed map is an old key or the session window id of some object. */
  lemma {:induction false} CommitOrigin(m: map<int, Window>, objs: seq<TabMatchingObject>)
    ensures var r := Commit(m, objs);
      forall k :: k in r ==> k in m || exists a :: 0 <= a < |objs| && objs[a].sessionWindow.id == k && r[k] == objs[a].currentWindow
    decreases |objs|
  {
    if |objs| > 0 {
      var init := objs[..|objs| - 1];
      var last := objs[|objs| - 1];
      CommitOrigin(m, init);
      var r0 := Commit(m, init);
      var r := r0[last.sessionWindow.id := last.currentWindow];
      forall k | k in r
        ensures k in m || exists a :: 0 <= a < |objs| && objs[a].sessionWindow.id == k && r[k] == objs[a].currentWindow
      {
        if k == last.sessionWindow.id {
          assert objs[|objs| - 1] == last;
        } else if k !in m {
          var a :| 0 <= a < |init| && init[a].sessionWindow.id == k && r0[k] == init[a].currentWindow;
          assert objs[a] == init[a];
        }
      }
    }
  }

  /** Objects whose session window ids are new to the map leave the old entries alone. */
  lemma {:induction false} CommitKeeps(m: map<int, Window>, objs: seq<TabMatchingObject>)
    requires forall o, k :: o in objs && k in m ==> o.sessionWindow.id != k
    ensures var r := Commit(m, objs);
      forall k :: k in m ==> k in r && r[k] == m[k]
    decreases |objs|
  {
    if |objs| > 0 {
      var init := objs[..|objs| - 1];
      assert forall o :: o in init ==> o in objs;
      assert objs[|objs| - 1] in objs;
      CommitKeeps(m, init);
    }
  }

  /** Disjoint objects each end up mapped. */
  lemma {:induction false} CommitMaps(m: map<int, Window>, objs: seq<TabMatchingObject>)
    requires Disjoint(objs)
    ensures var r := Commit(m, objs);
      forall a :: 0 <= a < |objs| ==> objs[a].sessionWindow.id in r && r[objs[a].sessionWindow.id] == objs[a].currentWindow
    decreases |objs|
  {
    if |objs| > 0 {
      var init := objs[..|objs| - 1];
      assert Disjoint(init) by {
        assert forall a :: 0 <= a < |init| ==> init[a] == objs[a];
      }
      CommitMaps(m, init);
      assert forall a :: 0 <= a < |init| ==> init[a] == objs[a];
    }
  }

  /**
   * Committing disjoint objects whose windows are new to the map adds one entry per
   * object and keeps the map injective.
   */
  lemma {:induction false} CommitFacts(m: map<int, Window>, objs: seq<TabMatchingObject>)
    requires Injective(m) && Disjoint(objs)
    requires forall o, k :: o in objs && k in m ==> o.sessionWindow.id != k && o.currentWindow.id != m[k].id
    ensures Injective(Commit(m, objs))
    ensures |Commit(m, objs)| == |m| + |objs|
    decreases |objs|
  {
    if |objs| > 0 {
      var init := objs[..|objs| - 1];
      var last := objs[|objs| - 1];
      assert Disjoint(init) by {
        assert forall a :: 0 <= a < |init| ==> init[a] == objs[a];
      }
      assert forall o :: o in init ==> o in objs;
      assert last in objs;
      assert init + [last] == objs;
      CommitFacts(m, init);
      CommitOrigin(m, init);
      CommitKeeps(m, init);
      CommitNew(m, init, last, Commit(m, init));
    }
  }

  /** The last object's windows are new to the map built from the objects before it. */
  lemma CommitNew(m: map<int, Window>, init: seq<TabMatchingObject>, last: TabMatchingObject, r0: map<int, Window>)
    requires Injective(r0) && Disjoint(init + [last])
    requires forall k :: k in m ==> last.sessionWindow.id != k && last.currentWindow.id != m[k].id
    requires forall k :: k in m ==> k in r0 && r0[k] == m[k]
    requires forall k :: k in r0 ==> k in m || exists a :: 0 <= a < |init| && init[a].sessionWindow.id == k && r0[k] == init[a].currentWindow
    ensures last.sessionWindow.id !in r0
    ensures forall k :: k in r0 ==> r0[k].id != last.currentWindow.id
    ensures Injective(r0[last.sessionWindow.id := last.currentWindow])
  {
    var objs := init + [last];
    forall k | k in r0
      ensures k != last.sessionWindow.id && r0[k].id != last.currentWindow.id
    {
      if k !in m {
        var a :| 0 <= a < |init| && init[a].sessionWindow.id == k && r0[k] == init[a].currentWindow;
        assert objs[a] == init[a] && objs[|init|] == last;
      }
    }
  }

  /**
   * The second pass: while both pools are non-empty, commit the best-scoring pair
   * and drop both windows from their pools, as the recursion Greedy does.
   */
  method MatchByTabUrls(u: Util, sessions: seq<Window>, currents: seq<Window>, matchedById: map<int, Window>)
    returns (matched: map<int, Window>)
    requires DistinctIds(sessions) && DistinctIds(currents)
    ensures matched == Commit(matchedById, Greedy(u, sessions, currents))
  {
    matched := matchedById;
    var unmatchedSessionWindows := sessions;
    var unmatchedCurrentWindows := currents;
    var tabMatchingObjects := GenerateTabMatchingObjects(u, unmatchedSessionWindows, unmatchedCurrentWindows);
    ghost var committed: seq<TabMatchingObject> := [];
    while |unmatchedSessionWindows| > 0 && |unmatchedCurrentWindows| > 0
      invariant DistinctIds(unmatchedSessionWindows) && DistinctIds(unmatchedCurrentWindows)
      invariant tabMatchingObjects == Pairs(u, unmatchedSessionWindows, unmatchedCurrentWindows)
      invariant Greedy(u, sessions, currents) == committed + Greedy(u, unmatchedSessionWindows, unmatchedCurrentWindows)
      invariant matched == Commit(matchedById, committed)
      decreases |unmatchedSessionWindows|
    {
      PairsAt(u, unmatchedSessionWindows, unmatchedCurrentWindows, 0, 0);
      var maxTabMatchCount := MaxTabMatchCount(tabMatchingObjects);
      var bestTabMatchingObject := tabMatchingObjects[FirstWithCount(tabMatchingObjects, maxTabMatchCount)];
      assert bestTabMatchingObject == Best(u, unmatchedSessionWindows, unmatchedCurrentWindows);
      var s, c := bestTabMatchingObject.sessionWindow, bestTabMatchingObject.currentWindow;
      GreedyAdvance(u, sessions, currents, unmatchedSessionWindows, unmatchedCurrentWindows, committed);
      GreedyPools(unmatchedSessionWindows, unmatchedCurrentWindows, s, c);
      RemoveMatchedPairs(u, unmatchedSessionWindows, unmatchedCurrentWindows, s.id, c.id);
      CommitSnoc(matchedById, committed, bestTabMatchingObject);

      matched := matched[s.id := c];

      var unmatchedSessionWindowsLengthBefore := |unmatchedSessionWindows|;
      unmatchedSessionWindows := Without(unmatchedSessionWindows, s.id);
      unmatchedCurrentWindows := Without(unmatchedCurrentWindows, c.id);
      tabMatchingObjects := RemoveMatched(tabMatchingObjects, s.id, c.id);
      committed := committed + [bestTabMatchingObject];

      // the source's guard against a pass that removes nothing
      if |unmatchedSessionWindows| >= unmatchedSessionWindowsLengthBefore {
        break;
      }
    }
    AppendNothing(committed);
  }

  /** What matchCurrentWindowsWithLastSessionWindows returns: the identity matches, then the greedy ones. */
  function MatchedWindows(u: Util, sessionWindows: seq<Window>, currentWindows: seq<Window>): map<int, Window>
  {
    var st := IdentityPass(sessionWindows, currentWindows, |sessionWindows|);
    Commit(st.matched, Greedy(u, st.sessions, st.currents))
  }

  /**
   * matchCurrentWindowsWithLastSessionWindows. Window ids are distinct within each
   * list, as in every host window list and persisted snapshot.
   */
  method MatchCurrentWindowsWithLastSessionWindows(u: Util, sessionWindows: seq<Window>, currentWindows: seq<Window>)
    returns (matched: map<int, Window>)
    requires DistinctIds(sessionWindows) && DistinctIds(currentWindows)
    ensures matched == MatchedWindows(u, sessionWindows, currentWindows)
  {
    var matchedById, unmatchedSessionWindows, unmatchedCurrentWindows := MatchByIdentity(sessionWindows, currentWindows);
    if |unmatchedSessionWindows| == 0 || |unmatchedCurrentWindows| == 0 {
      matched := matchedById;
      return;
    }
    IdentityPassResult(sessionWindows, currentWindows);
    OutsideDistinct(sessionWindows, Ids(currentWindows));
    OutsideDistinct(currentWindows, Ids(sessionWindows));
    matched := MatchByTabUrls(u, unmatchedSessionWindows, unmatchedCurrentWindows, matchedById);
  }

  /**
   * The matching maps each session window id to at most one current window and the
   * other way round, matches every pair that shares an id, matches as many windows as
   * the shorter list holds, and matches the rest as the greedy pass commits them.
   */
  lemma MatchedWindowsFacts(u: Util, sessionWindows: seq<Window>, currentWindows: seq<Window>)
    requires DistinctIds(sessionWindows) && DistinctIds(currentWindows)
    ensures var matched := MatchedWindows(u, sessionWindows, currentWindows);
      && (forall k :: k in matched ==> k in Ids(sessionWindows) && matched[k] in currentWindows)
      && Injective(matched)
      && (forall s, c :: s in sessionWindows && c in currentWindows && s.id == c.id ==> s.id in matched && matched[s.id] == c)
      && |matched| == (if |sessionWindows| <= |currentWindows| then |sessionWindows| else |currentWindows|)
      && (forall o :: o in Greedy(u, Outside(sessionWindows, Ids(currentWindows)), Outside(currentWindows, Ids(sessionWindows))) ==>
            o.sessionWindow.id in matched && matched[o.sessionWindow.id] == o.currentWindow)
  {
    var st := IdentityPass(sessionWindows, currentWindows, |sessionWindows|);
    IdentityPassResult(sessionWindows, currentWindows);
    OutsideDistinct(sessionWindows, Ids(currentWindows));
    OutsideDistinct(currentWindows, Ids(sessionWindows));
    GreedyFacts(u, st.sessions, st.currents);
    var g := Greedy(u, st.sessions, st.currents);
    assert PassResults(sessionWindows, currentWindows, st.matched, st.sessions, st.currents, g);
    CombinedShape(sessionWindows, currentWindows, st.matched, st.sessions, st.currents, g);
    CombinedCoverage(sessionWindows, currentWindows, st.matched, st.sessions, st.currents, g);
  }

  /** What MatchedWindowsFacts knows of the two passes' results. */
  predicate PassResults(sessionWindows: seq<Window>, currentWindows: seq<Window>, matched: map<int, Window>,
                        sessions: seq<Window>, currents: seq<Window>, g: seq<TabMatchingObject>)
  {
    && DistinctIds(currentWindows)
    && sessions == Outside(sessionWindows, Ids(currentWindows)) && currents == Outside(currentWindows, Ids(sessionWindows))
    && matched.Keys == Ids(sessionWindows) * Ids(currentWindows)
    && (forall k :: k in matched ==> matched[k] in currentWindows && matched[k].id == k)
    && |matched| + |sessions| == |sessionWindows| && |matched| + |currents| == |currentWindows|
    && |g| == (if |sessions| <= |currents| then |sessions| else |currents|)
    && (forall o :: o in g ==> o.sessionWindow in sessions && o.currentWindow in currents)
    && Disjoint(g)
  }

  /** The combined map sends session ids to current windows, injectively, as many as the shorter list. */
  lemma CombinedShape(sessionWindows: seq<Window>, currentWindows: seq<Window>, matched: map<int, Window>,
                      sessions: seq<Window>, currents: seq<Window>, g: seq<TabMatchingObject>)
    requires PassResults(sessionWindows, currentWindows, matched, sessions, currents, g)
    ensures var r := Commit(matched, g);
      && (forall k :: k in r ==> k in Ids(sessionWindows) && r[k] in currentWindows)
      && Injective(r)
      && |r| == (if |sessionWindows| <= |currentWindows| then |sessionWindows| else |currentWindows|)
  {
    IdentityMatchedFacts(sessionWindows, currentWindows, matched, g);
    CombinedKeys(sessionWindows, currentWindows, matched, g);
    CombinedSize(sessionWindows, currentWindows, matched, sessions, currents, g);
  }

  /** The combined map keeps every same-id pair and every committed greedy pair. */
  lemma CombinedCoverage(sessionWindows: seq<Window>, currentWindows: seq<Window>, matched: map<int, Window>,
                         sessions: seq<Window>, currents: seq<Window>, g: seq<TabMatchingObject>)
    requires PassResults(sessionWindows, currentWindows, matched, sessions, currents, g)
    ensures var r := Commit(matched, g);
      && (forall s, c :: s in sessionWindows && c in currentWindows && s.id == c.id ==> s.id in r && r[s.id] == c)
      && (forall o :: o in g ==> o.sessionWindow.id in r && r[o.sessionWindow.id] == o.currentWindow)
  {
    IdentityMatchedFacts(sessionWindows, currentWindows, matched, g);
    CombinedSameId(sessionWindows, currentWindows, matched, g);
    CombinedMaps(matched, g);
  }

  /** The combined map is injective and as large as the shorter window list. */
  lemma CombinedSize(sessionWindows: seq<Window>, currentWindows: seq<Window>, matched: map<int, Window>,
                     sessions: seq<Window>, currents: seq<Window>, g: seq<TabMatchingObject>)
    requires Injective(matched) && Disjoint(g)
    requires forall o, k :: o in g && k in matched ==> o.sessionWindow.id != k && o.currentWindow.id != matched[k].id
    requires |matched| + |sessions| == |sessionWindows| && |matched| + |currents| == |currentWindows|
    requires |g| == (if |sessions| <= |currents| then |sessions| else |currents|)
    ensures Injective(Commit(matched, g))
    ensures |Commit(matched, g)| == (if |sessionWindows| <= |currentWindows| then |sessionWindows| else |currentWindows|)
  {
    CommitFacts(matched, g);
    SharedMinimum(|matched|, |sessions|, |currents|, |sessionWindows|, |currentWindows|);
  }

  /** Taking the same number off both sides keeps which side is the smaller. */
  lemma SharedMinimum(x: int, a: int, b: int, sa: int, sb: int)
    requires x + a == sa && x + b == sb
    ensures x + (if a <= b then a else b) == (if sa <= sb then sa else sb)
  {
  }

  /** Pairs that share an id stay matched after the greedy pass. */
  lemma CombinedSameId(sessionWindows: seq<Window>, currentWindows: seq<Window>, matched: map<int, Window>, g: seq<TabMatchingObject>)
    requires forall s, c :: s in sessionWindows && c in currentWindows && s.id == c.id ==> s.id in matched && matched[s.id] == c
    requires forall o, k :: o in g && k in matched ==> o.sessionWindow.id != k
    ensures var r := Commit(matched, g);
      forall s, c :: s in sessionWindows && c in currentWindows && s.id == c.id ==> s.id in r && r[s.id] == c
  {
    CommitKeeps(matched, g);
  }

  /** Every key of the combined map is a session window id, and every value a current window. */
  lemma CombinedKeys(sessionWindows: seq<Window>, currentWindows: seq<Window>, matched: map<int, Window>, g: seq<TabMatchingObject>)
    requires forall k :: k in matched ==> k in Ids(sessionWindows) && matched[k] in currentWindows
    requires forall o :: o in g ==> o.sessionWindow in sessionWindows && o.currentWindow in currentWindows
    requires forall o, k :: o in g && k in matched ==> o.sessionWindow.id != k
    ensures var r := Commit(matched, g);
      forall k :: k in r ==> k in Ids(sessionWindows) && r[k] in currentWindows
  {
    CommitOrigin(matched, g);
    CommitKeeps(matched, g);
    var r := Commit(matched, g);
    forall k | k in r
      ensures k in Ids(sessionWindows) && r[k] in currentWindows
    {
      if k !in matched {
        var a :| 0 <= a < |g| && g[a].sessionWindow.id == k && r[k] == g[a].currentWindow;
        assert g[a] in g;
      }
    }
  }

  /** Every committed object is in the combined map. */
  lemma CombinedMaps(matched: map<int, Window>, g: seq<TabMatchingObject>)
    requires Disjoint(g)
    ensures var r := Commit(matched, g);
      forall o :: o in g ==> o.sessionWindow.id in r && r[o.sessionWindow.id] == o.currentWindow
  {
    CommitMaps(matched, g);
    var r := Commit(matched, g);
    forall o | o in g
      ensures o.sessionWindow.id in r && r[o.sessionWindow.id] == o.currentWindow
    {
      var a :| 0 <= a < |g| && g[a] == o;
    }
  }

  /** The identity matches are injective and disjoint from any pairs drawn from the two pools. */
  lemma IdentityMatchedFacts(sessionWindows: seq<Window>, currentWindows: seq<Window>,
                             matched: map<int, Window>, g: seq<TabMatchingObject>)
    requires DistinctIds(currentWindows)
    requires matched.Keys == Ids(sessionWindows) * Ids(currentWindows)
    requires forall k :: k in matched ==> matched[k] in currentWindows && matched[k].id == k
    requires forall o :: o in g ==>
      o.sessionWindow in Outside(sessionWindows, Ids(currentWindows)) && o.currentWindow in Outside(currentWindows, Ids(sessionWindows))
    ensures Injective(matched)
    ensures forall k :: k in matched ==> k in Ids(sessionWindows) && matched[k] in currentWindows
    ensures forall o :: o in g ==> o.sessionWindow in sessionWindows && o.currentWindow in currentWindows
    ensures forall o, k :: o in g && k in matched ==> o.sessionWindow.id != k && o.currentWindow.id != matched[k].id
    ensures forall s, c :: s in sessionWindows && c in currentWindows && s.id == c.id ==> s.id in matched && matched[s.id] == c
  {
    forall s, c | s in sessionWindows && c in currentWindows && s.id == c.id
      ensures s.id in matched && matched[s.id] == c
    {
      assert s.id in Ids(sessionWindows) && c.id in Ids(currentWindows);
      DistinctIdsUnique(currentWindows, matched[s.id], c);
    }
  }

  /** One step of the identity pass: the session window's id is new, and whether it is found. */
  lemma IdentityNewId(sessionWindows: seq<Window>, currentWindows: seq<Window>, i: int)
    requires DistinctIds(sessionWindows) && 0 <= i < |sessionWindows|
    ensures sessionWindows[i].id !in Ids(sessionWindows[..i])
    ensures sessionWindows[i].id !in Ids(sessionWindows[i + 1..])
    ensures Ids(sessionWindows[..i + 1]) == Ids(sessionWindows[..i]) + {sessionWindows[i].id}
    ensures sessionWindows[i].id in Ids(Outside(currentWindows, Ids(sessionWindows[..i]))) <==> sessionWindows[i].id in Ids(currentWindows)
  {
    DistinctIdsSplit(sessionWindows, i);
    OutsideIds(currentWindows, Ids(sessionWindows[..i]));
    assert sessionWindows[..i + 1] == sessionWindows[..i] + [sessionWindows[i]];
    IdsAppend(sessionWindows[..i], [sessionWindows[i]]);
  }

  /** Dropping the one window with a given id from between two lists without it. */
  lemma WithoutBetween(front: seq<Window>, w: Window, back: seq<Window>)
    requires w.id !in Ids(front) && w.id !in Ids(back)
    ensures Without(front + ([w] + back), w.id) == front + back
  {
    WithoutAppend(front, [w] + back, w.id);
    WithoutAppend([w], back, w.id);
    WithoutAbsent(front, w.id);
    WithoutAbsent(back, w.id);
    assert Without([w], w.id) == [] by { assert [w][..0] == []; }
    assert [] + back == back;
  }

  /** One step of the identity pass: dropping the session window from the session pool. */
  lemma IdentitySessionPool(sessionWindows: seq<Window>, currentWindows: seq<Window>, i: int)
    requires DistinctIds(sessionWindows) && 0 <= i < |sessionWindows|
    ensures var done := Outside(sessionWindows[..i], Ids(currentWindows));
      Without(done + sessionWindows[i..], sessionWindows[i].id) == done + sessionWindows[i + 1..]
  {
    var ws := sessionWindows;
    DistinctIdsSplit(ws, i);
    OutsideIds(ws[..i], Ids(currentWindows));
    SplitAt(ws, i);
    WithoutBetween(Outside(ws[..i], Ids(currentWindows)), ws[i], ws[i + 1..]);
  }

  lemma SplitAt<T>(s: seq<T>, i: int)
    requires 0 <= i < |s|
    ensures s[i..] == [s[i]] + s[i + 1..]
  {
  }

  /** One step of the identity pass: the session windows left unmatched so far. */
  lemma IdentitySessionDone(sessionWindows: seq<Window>, currentWindows: seq<Window>, i: int)
    requires 0 <= i < |sessionWindows|
    ensures var done := Outside(sessionWindows[..i], Ids(currentWindows));
      && (sessionWindows[i].id in Ids(currentWindows) ==> Outside(sessionWindows[..i + 1], Ids(currentWindows)) == done)
      && (sessionWindows[i].id !in Ids(currentWindows) ==>
            Outside(sessionWindows[..i + 1], Ids(currentWindows)) + sessionWindows[i + 1..] == done + sessionWindows[i..])
  {
    var done := Outside(sessionWindows[..i], Ids(currentWindows));
    assert sessionWindows[..i + 1][..i] == sessionWindows[..i];
    assert done + [] == done;
    assert sessionWindows[i..] == [sessionWindows[i]] + sessionWindows[i + 1..];
    assert done + [sessionWindows[i]] + sessionWindows[i + 1..] == done + sessionWindows[i..];
  }

  /** One step of the identity pass, on the current pool. */
  lemma IdentityCurrentPool(sessionWindows: seq<Window>, currentWindows: seq<Window>, i: int)
    requires DistinctIds(sessionWindows) && 0 <= i < |sessionWindows|
    ensures var id := sessionWindows[i].id;
      && Outside(currentWindows, Ids(sessionWindows[..i + 1])) == Without(Outside(currentWindows, Ids(sessionWindows[..i])), id)
      && (id !in Ids(currentWindows) ==> Outside(currentWindows, Ids(sessionWindows[..i + 1])) == Outside(currentWindows, Ids(sessionWindows[..i])))
  {
    var id := sessionWindows[i].id;
    IdentityNewId(sessionWindows, currentWindows, i);
    OutsideAddId(currentWindows, Ids(sessionWindows[..i]), id);
    if id !in Ids(currentWindows) {
      WithoutAbsent(Outside(currentWindows, Ids(sessionWindows[..i])), id);
    }
  }
}
