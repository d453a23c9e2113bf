/**
 * Restore planning: which tabs of a session window are recreated, into which
 * window, with which URL. The host calls are modelled as the list of requests
 * the engine issues, in the order it issues them.
 */
module SessionRestore {
  import opened Wrappers
  import opened Tabs

  /** The properties passed to the host's tab-creation call. */
  datatype CreateProperties = CreateProperties(windowId: int, url: Url, index: int, pinned: bool, active: bool)

  /** A host call a restore issues. */
  datatype HostRequest =
    | CreateWindow(url: Url, focused: bool)
    | CreateTab(props: CreateProperties)
    | RemoveTab(tabId: int)

  /** The page shown in a window while its tabs are being recreated. */
  const RestoringWindowPage: string := "restoring-window.html"

  /**
   * The URL a recreated tab opens. suspendMode 1 opens unsuspended tabs suspended,
   * suspendMode 2 opens suspended tabs unsuspended, anything else keeps the URL.
   */
  function RestoredUrl(u: Util, sessionTab: Tab, suspendMode: int): (url: Url)
    ensures suspendMode != 1 && suspendMode != 2 ==> url == sessionTab.url
    ensures suspendMode == 1 && u.isSuspendedTab(sessionTab, false) ==> url == sessionTab.url
    ensures suspendMode == 1 && u.isSpecialTab(sessionTab) ==> url == sessionTab.url
    ensures suspendMode == 1 && !u.isSuspendedTab(sessionTab, false) && !u.isSpecialTab(sessionTab)
      ==> url == u.generateSuspendedUrl(sessionTab.url, sessionTab.title)
    ensures suspendMode == 2 && u.isSuspendedTab(sessionTab, false) ==> url == u.getSuspendedUrl(sessionTab.url)
    ensures suspendMode == 2 && !u.isSuspendedTab(sessionTab, false) ==> url == sessionTab.url
  {
    if suspendMode == 1 && !u.isSuspendedTab(sessionTab, false) && !u.isSpecialTab(sessionTab) then
      u.generateSuspendedUrl(sessionTab.url, sessionTab.title)
    else if suspendMode == 2 && u.isSuspendedTab(sessionTab, false) then
      u.getSuspendedUrl(sessionTab.url)
    else
      sessionTab.url
  }

  /** createNewTabFromSessionTab: the tab-creation request for one session tab. */
  function CreateNewTabFromSessionTab(u: Util, sessionTab: Tab, windowId: int, suspendMode: int): (p: CreateProperties)
    ensures p.windowId == windowId && p.url == RestoredUrl(u, sessionTab, suspendMode)
    ensures p.index == sessionTab.index && p.pinned == sessionTab.pinned && !p.active
  {
    CreateProperties(windowId, RestoredUrl(u, sessionTab, suspendMode), sessionTab.index, sessionTab.pinned, false)
  }

  /** The ids of a tab list, in order. */
  function TabIds(tabs: seq<Tab>): seq<int>
    decreases |tabs|
  {
    if |tabs| == 0 then [] else TabIds(tabs[..|tabs| - 1]) + [tabs[|tabs| - 1].id]
  }

  /** The URLs of a tab list, in order. */
  function TabUrls(tabs: seq<Tab>): seq<Url>
    decreases |tabs|
  {
    if |tabs| == 0 then [] else TabUrls(tabs[..|tabs| - 1]) + [tabs[|tabs| - 1].url]
  }

  /** A session tab is recreated in a matched window when it is missing there by URL and by id. */
  predicate NeedsRecreate(u: Util, sessionTab: Tab, currentTabUrls: seq<Url>, currentTabIds: seq<int>)
  {
    !u.isSpecialTab(sessionTab) && sessionTab.url !in currentTabUrls && sessionTab.id !in currentTabIds
  }

  /** The requests for recreating, into a matched window, the session tabs it lacks. */
  function MatchedRequests(u: Util, sessionTabs: seq<Tab>, currentTabUrls: seq<Url>, currentTabIds: seq<int>,
                           windowId: int, suspendMode: int): seq<HostRequest>
    decreases |sessionTabs|
  {
    if |sessionTabs| == 0 then []
    else
      var last := sessionTabs[|sessionTabs| - 1];
      MatchedRequests(u, sessionTabs[..|sessionTabs| - 1], currentTabUrls, currentTabIds, windowId, suspendMode)
        + (if NeedsRecreate(u, last, currentTabUrls, currentTabIds)
           then [CreateTab(CreateNewTabFromSessionTab(u, last, windowId, suspendMode))] else [])
  }

  /** The requests for recreating every session tab into a new window. */
  function AllRequests(u: Util, sessionTabs: seq<Tab>, windowId: int, suspendMode: int): seq<HostRequest>
    decreases |sessionTabs|
  {
    if |sessionTabs| == 0 then []
    else
      AllRequests(u, sessionTabs[..|sessionTabs| - 1], windowId, suspendMode)
        + [CreateTab(CreateNewTabFromSessionTab(u, sessionTabs[|sessionTabs| - 1], windowId, suspendMode))]
  }

  /**
   * What restoreSessionWindow issues. With a matched window: one creation per
   * missing session tab. Without one: a new window on the restoring page (the host
   * reports it as `newWindow`), one creation per session tab, then the removal of
   * the new window's first tab, the placeholder, when there is one.
   */
  function RestorePlan(u: Util, sessionWindow: Window, existingWindow: Option<Window>, suspendMode: int, newWindow: Window)
    : seq<HostRequest>
  {
    match existingWindow
    case Some(w) =>
      MatchedRequests(u, sessionWindow.tabs, TabUrls(w.tabs), TabIds(w.tabs), w.id, suspendMode)
    case None =>
      [CreateWindow(u.getURL(RestoringWindowPage), false)]
        + AllRequests(u, sessionWindow.tabs, newWindow.id, suspendMode)
        + (if |newWindow.tabs| > 0 then [RemoveTab(newWindow.tabs[0].id)] else [])
  }

  /** restoreSessionWindow, with the loops that collect the window's ids and URLs and the requests. */
  method RestoreSessionWindow(u: Util, sessionWindow: Window, existingWindow: Option<Window>, suspendMode: int, newWindow: Window)
    returns (requests: seq<HostRequest>)
    ensures requests == RestorePlan(u, sessionWindow, existingWindow, suspendMode, newWindow)
  {
    var sessionTabs := sessionWindow.tabs;
    if existingWindow.Some? {
      var currentTabs := existingWindow.value.tabs;
      var currentTabIds: seq<int> := [];
      var currentTabUrls: seq<Url> := [];
      for k := 0 to |currentTabs|
        invariant currentTabIds == TabIds(currentTabs[..k]) && currentTabUrls == TabUrls(currentTabs[..k])
      {
        TabListsSnoc(currentTabs, k);
        currentTabIds := currentTabIds + [currentTabs[k].id];
        currentTabUrls := currentTabUrls + [currentTabs[k].url];
      }
      TakeAll(currentTabs);
      requests := [];
      for k := 0 to |sessionTabs|
        invariant requests == MatchedRequests(u, sessionTabs[..k], currentTabUrls, currentTabIds, existingWindow.value.id, suspendMode)
      {
        var sessionTab := sessionTabs[k];
        MatchedRequestsSnoc(u, sessionTabs, k, currentTabUrls, currentTabIds, existingWindow.value.id, suspendMode);
        if !u.isSpecialTab(sessionTab) && sessionTab.url !in currentTabUrls && sessionTab.id !in currentTabIds {
          requests := requests + [CreateTab(CreateNewTabFromSessionTab(u, sessionTab, existingWindow.value.id, suspendMode))];
        } else {
          AppendNothing(requests);
        }
      }
      TakeAll(sessionTabs);
      return;
    }
    var creates: seq<HostRequest> := [];
    for k := 0 to |sessionTabs|
      invariant creates == AllRequests(u, sessionTabs[..k], newWindow.id, suspendMode)
    {
      AllRequestsSnoc(u, sessionTabs, k, newWindow.id, suspendMode);
      creates := creates + [CreateTab(CreateNewTabFromSessionTab(u, sessionTabs[k], newWindow.id, suspendMode))];
    }
    TakeAll(sessionTabs);
    requests := [CreateWindow(u.getURL(RestoringWindowPage), false)] + creates;
    if |newWindow.tabs| > 0 {
      var placeholderTab := newWindow.tabs[0];
      requests := requests + [RemoveTab(placeholderTab.id)];
    } else {
      AppendNothing(requests);
    }
  }

  lemma TabListsSnoc(tabs: seq<Tab>, k: int)
    requires 0 <= k < |tabs|
    ensures TabIds(tabs[..k + 1]) == TabIds(tabs[..k]) + [tabs[k].id]
    ensures TabUrls(tabs[..k + 1]) == TabUrls(tabs[..k]) + [tabs[k].url]
  {
    assert tabs[..k + 1][..k] == tabs[..k];
  }

  lemma MatchedRequestsSnoc(u: Util, tabs: seq<Tab>, k: int, urls: seq<Url>, ids: seq<int>, windowId: int, suspendMode: int)
    requires 0 <= k < |tabs|
    ensures MatchedRequests(u, tabs[..k + 1], urls, ids, windowId, suspendMode)
      == MatchedRequests(u, tabs[..k], urls, ids, windowId, suspendMode)
         + (if NeedsRecreate(u, tabs[k], urls, ids) then [CreateTab(CreateNewTabFromSessionTab(u, tabs[k], windowId, suspendMode))] else [])
  {
    assert tabs[..k + 1][..k] == tabs[..k];
  }

  lemma AllRequestsSnoc(u: Util, tabs: seq<Tab>, k: int, windowId: int, suspendMode: int)
    requires 0 <= k < |tabs|
    ensures AllRequests(u, tabs[..k + 1], windowId, suspendMode)
      == AllRequests(u, tabs[..k], windowId, suspendMode) + [CreateTab(CreateNewTabFromSessionTab(u, tabs[k], windowId, suspendMode))]
  {
    assert tabs[..k + 1][..k] == tabs[..k];
  }

  /** A URL is among a tab list's URLs exactly when some tab of the list has it. */
  lemma {:induction false} TabUrlsMember(tabs: seq<Tab>, url: Url)
    ensures url in TabUrls(tabs) <==> exists t :: t in tabs && t.url == url
    decreases |tabs|
  {
    if |tabs| > 0 {
      var init := tabs[..|tabs| - 1];
      TabUrlsMember(init, url);
      SplitLast(tabs);
      assert forall t :: t in tabs <==> t in init || t == tabs[|tabs| - 1];
    }
  }

  /** An id is among a tab list's ids exactly when some tab of the list has it. */
  lemma {:induction false} TabIdsMember(tabs: seq<Tab>, id: int)
    ensures id in TabIds(tabs) <==> exists t :: t in tabs && t.id == id
    decreases |tabs|
  {
    if |tabs| > 0 {
      var init := tabs[..|tabs| - 1];
      TabIdsMember(init, id);
      SplitLast(tabs);
      assert forall t :: t in tabs <==> t in init || t == tabs[|tabs| - 1];
    }
  }

  /**
   * Into a matched window, the restore creates exactly one tab, in that window, for
   * every non-special session tab missing there by URL and by id, in session order,
   * and issues nothing else: no existing tab is removed or touched.
   */
  lemma {:induction false} MatchedRequestsExactly(u: Util, sessionTabs: seq<Tab>, urls: seq<Url>, ids: seq<int>,
                                                  windowId: int, suspendMode: int)
    ensures var plan := MatchedRequests(u, sessionTabs, urls, ids, windowId, suspendMode);
      && (forall r :: r in plan ==> r.CreateTab? && r.props.windowId == windowId && !r.props.active)
      && (forall r :: r in plan ==> exists t :: Recreates(u, t, sessionTabs, urls, ids, windowId, suspendMode, r))
      && (forall t :: t in sessionTabs && NeedsRecreate(u, t, urls, ids)
            ==> CreateTab(CreateNewTabFromSessionTab(u, t, windowId, suspendMode)) in plan)
    decreases |sessionTabs|
  {
    if |sessionTabs| > 0 {
      var init := sessionTabs[..|sessionTabs| - 1];
      var last := sessionTabs[|sessionTabs| - 1];
      MatchedRequestsExactly(u, init, urls, ids, windowId, suspendMode);
      SplitLast(sessionTabs);
      assert forall t :: t in sessionTabs <==> t in init || t == last;
      var front := MatchedRequests(u, init, urls, ids, windowId, suspendMode);
      forall r | r in MatchedRequests(u, sessionTabs, urls, ids, windowId, suspendMode)
        ensures exists t :: Recreates(u, t, sessionTabs, urls, ids, windowId, suspendMode, r)
      {
        if r in front {
          var t :| Recreates(u, t, init, urls, ids, windowId, suspendMode, r);
          assert Recreates(u, t, sessionTabs, urls, ids, windowId, suspendMode, r);
        } else {
          assert Recreates(u, last, sessionTabs, urls, ids, windowId, suspendMode, r);
        }
      }
    }
  }

  /** Request r is the creation of session tab t, which the matched window lacks. */
  predicate Recreates(u: Util, t: Tab, sessionTabs: seq<Tab>, urls: seq<Url>, ids: seq<int>,
                      windowId: int, suspendMode: int, r: HostRequest)
  {
    t in sessionTabs && NeedsRecreate(u, t, urls, ids) && r == CreateTab(CreateNewTabFromSessionTab(u, t, windowId, suspendMode))
  }

  /** The number of session tabs a matched window lacks. */
  function MissingCount(u: Util, sessionTabs: seq<Tab>, urls: seq<Url>, ids: seq<int>): nat
    decreases |sessionTabs|
  {
    if |sessionTabs| == 0 then 0
    else
      MissingCount(u, sessionTabs[..|sessionTabs| - 1], urls, ids)
        + (if NeedsRecreate(u, sessionTabs[|sessionTabs| - 1], urls, ids) then 1 else 0)
  }

  /** One request per missing session tab. */
  lemma {:induction false} MatchedRequestsCount(u: Util, sessionTabs: seq<Tab>, urls: seq<Url>, ids: seq<int>,
                                                windowId: int, suspendMode: int)
    ensures |MatchedRequests(u, sessionTabs, urls, ids, windowId, suspendMode)| == MissingCount(u, sessionTabs, urls, ids)
    decreases |sessionTabs|
  {
    if |sessionTabs| > 0 {
      MatchedRequestsCount(u, sessionTabs[..|sessionTabs| - 1], urls, ids, windowId, suspendMode);
    }
  }

  /** Nothing is created when no session tab is missing. */
  lemma {:induction false} MatchedRequestsNone(u: Util, sessionTabs: seq<Tab>, urls: seq<Url>, ids: seq<int>,
                                               windowId: int, suspendMode: int)
    requires forall t :: t in sessionTabs ==> !NeedsRecreate(u, t, urls, ids)
    ensures MatchedRequests(u, sessionTabs, urls, ids, windowId, suspendMode) == []
    decreases |sessionTabs|
  {
    if |sessionTabs| > 0 {
      var init := sessionTabs[..|sessionTabs| - 1];
      assert forall t :: t in init ==> t in sessionTabs;
      assert sessionTabs[|sessionTabs| - 1] in sessionTabs;
      MatchedRequestsNone(u, init, urls, ids, windowId, suspendMode);
    }
  }

  /**
   * With suspendMode 0, once the window also holds tabs with the URLs the restore
   * created, restoring the same session window into it again creates nothing.
   */
  lemma RestoreMatchedTwice(u: Util, sessionWindow: Window, existingWindow: Window, added: seq<Tab>, newWindow: Window)
    requires forall r :: r in RestorePlan(u, sessionWindow, Some(existingWindow), 0, newWindow) ==>
      r.CreateTab? && exists t :: t in added && t.url == r.props.url
    ensures RestorePlan(u, sessionWindow, Some(Window(existingWindow.id, existingWindow.tabs + added)), 0, newWindow) == []
  {
    var tabs := existingWindow.tabs;
    var urls, ids := TabUrls(tabs), TabIds(tabs);
    var urls', ids' := TabUrls(tabs + added), TabIds(tabs + added);
    var plan := MatchedRequests(u, sessionWindow.tabs, urls, ids, existingWindow.id, 0);
    MatchedRequestsExactly(u, sessionWindow.tabs, urls, ids, existingWindow.id, 0);
    forall t | t in sessionWindow.tabs
      ensures !NeedsRecreate(u, t, urls', ids')
    {
      TabUrlsMember(tabs, t.url);
      TabUrlsMember(tabs + added, t.url);
      TabIdsMember(tabs, t.id);
      TabIdsMember(tabs + added, t.id);
      if NeedsRecreate(u, t, urls, ids) {
        var r := CreateTab(CreateNewTabFromSessionTab(u, t, existingWindow.id, 0));
        assert r in plan;
        var a :| a in added && a.url == r.props.url;
        assert a in tabs + added;
      } else if t.url in urls {
        var a :| a in tabs && a.url == t.url;
        assert a in tabs + added;
      } else if t.id in ids {
        var a :| a in tabs && a.id == t.id;
        assert a in tabs + added;
      }
    }
    MatchedRequestsNone(u, sessionWindow.tabs, urls', ids', existingWindow.id, 0);
  }

  /** Every session tab gets its own creation request, into the given window, in order. */
  lemma {:induction false} AllRequestsAt(u: Util, sessionTabs: seq<Tab>, windowId: int, suspendMode: int, k: int)
    requires 0 <= k < |sessionTabs|
    ensures |AllRequests(u, sessionTabs, windowId, suspendMode)| == |sessionTabs|
    ensures AllRequests(u, sessionTabs, windowId, suspendMode)[k] == CreateTab(CreateNewTabFromSessionTab(u, sessionTabs[k], windowId, suspendMode))
    decreases |sessionTabs|
  {
    var init := sessionTabs[..|sessionTabs| - 1];
    if k < |init| {
      AllRequestsAt(u, init, windowId, suspendMode, k);
    } else if |init| > 0 {
      AllRequestsAt(u, init, windowId, suspendMode, 0);
    }
  }

  /**
   * Without a matched window, the restore opens one window, then creates one tab per
   * session tab in it, and removes the placeholder only after all of them.
   */
  lemma RestoreUnmatched(u: Util, sessionWindow: Window, suspendMode: int, newWindow: Window)
    ensures var plan := RestorePlan(u, sessionWindow, None, suspendMode, newWindow);
      && |plan| == 1 + |sessionWindow.tabs| + (if |newWindow.tabs| > 0 then 1 else 0)
      && plan[0] == CreateWindow(u.getURL(RestoringWindowPage), false)
      && (forall k :: 0 <= k < |sessionWindow.tabs| ==>
            plan[1 + k] == CreateTab(CreateNewTabFromSessionTab(u, sessionWindow.tabs[k], newWindow.id, suspendMode)))
      && (|newWindow.tabs| > 0 ==> plan[|plan| - 1] == RemoveTab(newWindow.tabs[0].id))
      && (forall k :: 0 <= k < |plan| - 1 ==> !plan[k].RemoveTab?)
  {
    var tabs := sessionWindow.tabs;
    var creates := AllRequests(u, tabs, newWindow.id, suspendMode);
    if |tabs| > 0 {
      AllRequestsAt(u, tabs, newWindow.id, suspendMode, 0);
    } else {
      assert creates == [];
    }
    forall k | 0 <= k < |tabs|
      ensures creates[k] == CreateTab(CreateNewTabFromSessionTab(u, tabs[k], newWindow.id, suspendMode))
    {
      AllRequestsAt(u, tabs, newWindow.id, suspendMode, k);
    }
  }
}
