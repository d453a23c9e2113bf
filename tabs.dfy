/**
 * Tab, window and session records as the host reports them, the tab classifiers
 * the engine consumes without defining them, and small list helpers over them.
 */
module Tabs {
  import opened Wrappers

  type Url = string

  /** A host tab, reduced to the fields the session engine reads. */
  datatype Tab = Tab(id: int, url: Url, title: string, index: int, pinned: bool, status: string, windowId: int)

  /** A host window, or a window of a persisted session snapshot. */
  datatype Window = Window(id: int, tabs: seq<Tab>)

  /** A persisted snapshot of all windows. */
  datatype Session = Session(sessionId: string, windows: seq<Window>, date: string)

  /**
   * The classifiers and URL rewriters of gsUtils, which live outside the engine.
   * They stay uninterpreted: every statement below holds for all of them.
   * `isSuspendedTab(tab, loose)` takes the loose-matching flag the engine passes.
   */
  datatype Util = Util(
    isSpecialTab: Tab -> bool,
    isSuspendedTab: (Tab, bool) -> bool,
    isDiscardedTab: Tab -> bool,
    generateSuspendedUrl: (Url, string) -> Url,
    getSuspendedUrl: Url -> Url,
    getURL: string -> Url)

  /** The host's blank default page. */
  const NewTabUrl: Url := "chrome://newtab/"

  /** Non-special tabs that are not suspended (strict matching): the ones window matching compares. */
  predicate IsMatchable(u: Util, t: Tab)
  {
    !u.isSpecialTab(t) && !u.isSuspendedTab(t, false)
  }

  /** The URLs of a tab list's matchable tabs, in tab order, duplicates kept. */
  function MatchableUrls(u: Util, tabs: seq<Tab>): (urls: seq<Url>)
    ensures |urls| <= |tabs|
    ensures forall url :: url in urls <==> exists t :: t in tabs && IsMatchable(u, t) && t.url == url
  {
    if |tabs| == 0 then []
    else
      var rest := MatchableUrls(u, tabs[1..]);
      assert forall t :: t in tabs[1..] ==> t in tabs;
      assert forall t :: t in tabs ==> t == tabs[0] || t in tabs[1..];
      if IsMatchable(u, tabs[0]) then [tabs[0].url] + rest else rest
  }

  /** The ids of a list of windows. */
  function Ids(ws: seq<Window>): set<int>
  {
    set w | w in ws :: w.id
  }

  /** No two windows of the list share an id (a snapshot never holds two windows with one id). */
  predicate DistinctIds(ws: seq<Window>)
    decreases |ws|
  {
    |ws| == 0 || (DistinctIds(ws[..|ws| - 1]) && ws[|ws| - 1].id !in Ids(ws[..|ws| - 1]))
  }

  /** The list without the windows whose id is `id`, order kept (the source's `filter` on ids). */
  function Without(ws: seq<Window>, id: int): (r: seq<Window>)
    ensures |r| <= |ws|
    ensures id in Ids(ws) ==> |r| < |ws|
    ensures forall w :: w in r <==> w in ws && w.id != id
    decreases |ws|
  {
    if |ws| == 0 then []
    else
      var init := ws[..|ws| - 1];
      var last := ws[|ws| - 1];
      assert ws == init + [last];
      assert forall w :: w in ws ==> w in init || w == last;
      Without(init, id) + (if last.id == id then [] else [last])
  }

  /** The list without the windows whose id is in `ids`, order kept. */
  function Outside(ws: seq<Window>, ids: set<int>): (r: seq<Window>)
    ensures |r| <= |ws|
    ensures forall w :: w in r <==> w in ws && w.id !in ids
    decreases |ws|
  {
    if |ws| == 0 then []
    else
      var init := ws[..|ws| - 1];
      var last := ws[|ws| - 1];
      assert ws == init + [last];
      assert forall w :: w in ws ==> w in init || w == last;
      Outside(init, ids) + (if last.id in ids then [] else [last])
  }

  /** The first window of the list whose id is `id`, as the source's `find`. */
  function FindById(ws: seq<Window>, id: int): (r: Option<Window>)
    ensures r.Some? <==> id in Ids(ws)
    ensures r.Some? ==> r.value in ws && r.value.id == id
  {
    if |ws| == 0 then None
    else if ws[0].id == id then Some(ws[0])
    else
      var r := FindById(ws[1..], id);
      assert forall w :: w in ws <==> w == ws[0] || w in ws[1..];
      assert Ids(ws) == {ws[0].id} + Ids(ws[1..]);
      r
  }

  lemma IdsAppend(a: seq<Window>, b: seq<Window>)
    ensures Ids(a + b) == Ids(a) + Ids(b)
  {
    assert forall w :: w in a + b <==> w in a || w in b;
  }

  /** Two windows of a list with distinct ids that share an id are the same window. */
  lemma {:induction false} DistinctIdsUnique(ws: seq<Window>, v: Window, w: Window)
    requires DistinctIds(ws) && v in ws && w in ws && v.id == w.id
    ensures v == w
    decreases |ws|
  {
    var init := ws[..|ws| - 1];
    assert ws == init + [ws[|ws| - 1]];
    assert forall x :: x in ws ==> x in init || x == ws[|ws| - 1];
    if v in init && w in init {
      DistinctIdsUnique(init, v, w);
    }
  }

  /** Position-wise reading of DistinctIds. */
  lemma DistinctIdsAt(ws: seq<Window>, i: int, j: int)
    requires DistinctIds(ws) && 0 <= i < |ws| && 0 <= j < |ws| && ws[i].id == ws[j].id
    ensures i == j
  {
    DistinctIdsAtUpTo(ws, |ws|);
  }

  lemma {:induction false} DistinctIdsAtUpTo(ws: seq<Window>, n: nat)
    requires DistinctIds(ws) && n <= |ws|
    ensures forall i, j :: 0 <= i < n && 0 <= j < n && ws[i].id == ws[j].id ==> i == j
    decreases |ws|
  {
    if |ws| > 0 {
      var init := ws[..|ws| - 1];
      DistinctIdsAtUpTo(init, |init|);
      assert forall k :: 0 <= k < |init| ==> ws[k] == init[k] && ws[k] in init;
    }
  }

  lemma {:induction false} DistinctIdsPrefix(ws: seq<Window>, k: nat)
    requires DistinctIds(ws) && k <= |ws|
    ensures DistinctIds(ws[..k])
    decreases |ws|
  {
    if k < |ws| {
      assert ws[..|ws| - 1][..k] == ws[..k];
      DistinctIdsPrefix(ws[..|ws| - 1], k);
    } else {
      assert ws[..k] == ws;
    }
  }

  /** The window at position i has an id that no other position of the list has. */
  lemma DistinctIdsSplit(ws: seq<Window>, i: int)
    requires DistinctIds(ws) && 0 <= i < |ws|
    ensures ws[i].id !in Ids(ws[..i]) && ws[i].id !in Ids(ws[i + 1..])
  {
    forall w | w in ws[..i] ensures w.id != ws[i].id {
      var k :| 0 <= k < i && ws[..i][k] == w;
      if w.id == ws[i].id { DistinctIdsAt(ws, k, i); }
    }
    forall w | w in ws[i + 1..] ensures w.id != ws[i].id {
      var k :| 0 <= k < |ws| - i - 1 && ws[i + 1..][k] == w;
      if w.id == ws[i].id { DistinctIdsAt(ws, i + 1 + k, i); }
    }
  }

  lemma {:induction false} WithoutAppend(a: seq<Window>, b: seq<Window>, id: int)
    ensures Without(a + b, id) == Without(a, id) + Without(b, id)
    decreases |b|
  {
    if |b| == 0 {
      assert a + b == a;
      AppendNothing(Without(a, id));
    } else {
      var init := b[..|b| - 1];
      var last := b[|b| - 1];
      assert (a + b)[..|a + b| - 1] == a + init;
      WithoutAppend(a, init, id);
      AppendAssociative(Without(a, id), Without(init, id), if last.id == id then [] else [last]);
    }
  }

  /** Removing an id the list does not hold changes nothing. */
  lemma {:induction false} WithoutAbsent(ws: seq<Window>, id: int)
    requires id !in Ids(ws)
    ensures Without(ws, id) == ws
    decreases |ws|
  {
    if |ws| > 0 {
      var init := ws[..|ws| - 1];
      assert Ids(init) <= Ids(ws) by { assert forall w :: w in init ==> w in ws; }
      WithoutAbsent(init, id);
      assert ws == init + [ws[|ws| - 1]];
    }
  }

  lemma WithoutIds(ws: seq<Window>, id: int)
    ensures Ids(Without(ws, id)) == Ids(ws) - {id}
  {
    var r := Without(ws, id);
    forall x | x in Ids(ws) - {id} ensures x in Ids(r) {
      var w :| w in ws && w.id == x;
      assert w in r;
    }
  }

  /** Removing an id keeps the ids of a list distinct. */
  lemma {:induction false} WithoutDistinct(ws: seq<Window>, id: int)
    requires DistinctIds(ws)
    ensures DistinctIds(Without(ws, id))
    decreases |ws|
  {
    if |ws| > 0 {
      var init := ws[..|ws| - 1];
      var last := ws[|ws| - 1];
      WithoutDistinct(init, id);
      var r := Without(init, id);
      if last.id != id {
        var r' := r + [last];
        assert Without(ws, id) == r';
        assert r'[..|r'| - 1] == r;
        assert Ids(r) <= Ids(init) by { assert forall w :: w in r ==> w in init; }
      } else {
        assert Without(ws, id) == r;
      }
    }
  }

  /** Removing an id that a list with distinct ids holds shortens it by exactly one. */
  lemma {:induction false} WithoutOne(ws: seq<Window>, id: int)
    requires DistinctIds(ws) && id in Ids(ws)
    ensures |Without(ws, id)| == |ws| - 1
    decreases |ws|
  {
    var init := ws[..|ws| - 1];
    var last := ws[|ws| - 1];
    assert ws == init + [last];
    IdsAppend(init, [last]);
    assert Without(ws, id) == Without(init, id) + (if last.id == id then [] else [last]);
    if last.id == id {
      WithoutAbsent(init, id);
    } else {
      WithoutOne(init, id);
    }
  }

  lemma {:induction false} OutsideAppend(a: seq<Window>, b: seq<Window>, ids: set<int>)
    ensures Outside(a + b, ids) == Outside(a, ids) + Outside(b, ids)
    decreases |b|
  {
    if |b| == 0 {
      assert a + b == a;
    } else {
      var init := b[..|b| - 1];
      assert (a + b)[..|a + b| - 1] == a + init;
      OutsideAppend(a, init, ids);
    }
  }

  /** Excluding one more id is removing it from what is left. */
  lemma {:induction false} OutsideAddId(ws: seq<Window>, ids: set<int>, id: int)
    ensures Outside(ws, ids + {id}) == Without(Outside(ws, ids), id)
    decreases |ws|
  {
    if |ws| > 0 {
      var init := ws[..|ws| - 1];
      var last := ws[|ws| - 1];
      OutsideAddId(init, ids, id);
      WithoutAppend(Outside(init, ids), if last.id in ids then [] else [last], id);
    }
  }

  lemma {:induction false} OutsideDistinct(ws: seq<Window>, ids: set<int>)
    requires DistinctIds(ws)
    ensures DistinctIds(Outside(ws, ids))
    decreases |ws|
  {
    if |ws| > 0 {
      var init := ws[..|ws| - 1];
      var last := ws[|ws| - 1];
      OutsideDistinct(init, ids);
      var r := Outside(init, ids);
      assert Outside(ws, ids) == r + (if last.id in ids then [] else [last]);
      if last.id !in ids {
        var r' := r + [last];
        assert r'[..|r'| - 1] == r;
        assert Ids(r) <= Ids(init) by { assert forall w :: w in r ==> w in init; }
        assert last.id !in Ids(r);
      } else {
        assert Outside(ws, ids) == r;
      }
    }
  }

  lemma {:induction false} OutsideNone(ws: seq<Window>)
    ensures Outside(ws, {}) == ws
    decreases |ws|
  {
    if |ws| > 0 {
      var init := ws[..|ws| - 1];
      OutsideNone(init);
      assert Outside(ws, {}) == Outside(init, {}) + [ws[|ws| - 1]];
      SplitLast(ws);
    }
  }

  lemma OutsideIds(ws: seq<Window>, ids: set<int>)
    ensures Ids(Outside(ws, ids)) == Ids(ws) - ids
  {
  }

  lemma TakeAll<T>(s: seq<T>)
    ensures s[..|s|] == s
  {
  }

  lemma AppendNothing<T>(s: seq<T>)
    ensures s + [] == s
  {
  }

  /** A non-empty list is its front followed by its last element. */
  lemma SplitLast<T>(s: seq<T>)
    requires |s| > 0
    ensures s == s[..|s| - 1] + [s[|s| - 1]]
  {
  }

  lemma AppendAssociative<T>(a: seq<T>, b: seq<T>, c: seq<T>)
    ensures a + (b + c) == (a + b) + c
  {
  }
}
