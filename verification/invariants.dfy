/**
 * What the session engine promises across events: every transition keeps the
 * session invariants, so any admissible run of user actions and load
 * completions does; plus the per-operation laws (closing removes exactly one
 * tab, navigation touches only the active tab, completions are idempotent,
 * toggles undo themselves).
 */
module Invariants {
  import opened Types
  import Resolver
  import Tabs
  import History
  import Bookmarks
  import opened Session

  lemma AddTabKeepsValid(s: Session, newId: Id)
    requires Valid(s)
    requires newId !in Tabs.Ids(s.tabs)
    ensures Valid(AddTab(s, newId))
    ensures ActiveTab(AddTab(s, newId)) == Tab(newId, NEW_TAB_URL, NEW_TAB_TITLE, false)
  {
  }

  lemma CloseTabKeepsValid(s: Session, id: Id)
    requires Valid(s)
    ensures Valid(CloseTab(s, id))
  {
  }

  /** With distinct ids, closing the tab at position k removes that tab and keeps the order of the rest. */
  lemma CloseTabRemovesExactlyOne(s: Session, k: nat)
    requires |s.tabs| > 1 && Tabs.UniqueIds(s.tabs)
    requires k < |s.tabs|
    ensures CloseTab(s, s.tabs[k].id).tabs == s.tabs[..k] + s.tabs[k+1..]
    ensures |CloseTab(s, s.tabs[k].id).tabs| == |s.tabs| - 1
  {
    Tabs.WithoutIdRemovesOne(s.tabs, k, s.tabs[k].id);
  }

  lemma SelectTabKeepsValid(s: Session, id: Id)
    requires Valid(s)
    requires id in Tabs.Ids(s.tabs)
    ensures Valid(SelectTab(s, id))
  {
  }

  lemma NavigateKeepsValid(s: Session, input: string, enc: string -> string, historyId: Id, now: int)
    requires Valid(s)
    ensures Valid(Navigate(s, input, enc, historyId, now).next)
  {
  }

  /**
   * Navigation changes the active tab only: it shows the resolved url and is
   * loading, with its old title; the newest history entry is the resolved url.
   */
  lemma NavigateUpdatesActiveTab(s: Session, input: string, enc: string -> string, historyId: Id, now: int)
    requires Valid(s)
    ensures var n := Navigate(s, input, enc, historyId, now);
            var url := Resolver.Resolve(input, enc);
            && ActiveTab(n.next) == ActiveTab(s).(url := url, isLoading := true)
            && n.next.history[0] == HistoryItem(historyId, url, url, now)
            && |n.next.history| <= History.LIMIT
  {
  }

  /** The reload button re-submits the active tab's url: no tab's url or title changes. */
  lemma ReloadKeepsUrls(s: Session, enc: string -> string, historyId: Id, now: int)
    requires Valid(s)
    ensures var n := Navigate(s, ActiveTab(s).url, enc, historyId, now);
            && (forall i :: 0 <= i < |s.tabs| ==>
                  n.next.tabs[i].url == s.tabs[i].url && n.next.tabs[i].title == s.tabs[i].title)
            && n.next.history[0].url == ActiveTab(s).url
  {
  }

  lemma CompleteLoadKeepsValid(s: Session, id: Id)
    requires Valid(s)
    ensures Valid(CompleteLoad(s, id))
  {
  }

  /** A completion signal delivered twice has the effect of one. */
  lemma CompleteLoadIdempotent(s: Session, id: Id)
    ensures CompleteLoad(CompleteLoad(s, id), id) == CompleteLoad(s, id)
  {
  }

  /** Two completion signals give the same session whichever arrives first. */
  lemma CompleteLoadCommute(s: Session, a: Id, b: Id)
    ensures CompleteLoad(CompleteLoad(s, a), b) == CompleteLoad(CompleteLoad(s, b), a)
  {
    var ab := CompleteLoad(CompleteLoad(s, a), b);
    var ba := CompleteLoad(CompleteLoad(s, b), a);
    assert ab.tabs == ba.tabs;
  }

  /**
   * A load that completes after its tab was closed changes nothing, and in
   * particular cannot revive the tab.
   */
  lemma CompletionAfterCloseIsNoOp(s: Session, id: Id)
    requires |s.tabs| > 1 && Tabs.UniqueIds(s.tabs)
    ensures id !in Tabs.Ids(CloseTab(s, id).tabs)
    ensures CompleteLoad(CloseTab(s, id), id) == CloseTab(s, id)
  {
  }

  /**
   * Two navigations in a row on the same tab, with both completion signals
   * delivered in either order, leave that tab idle at the second url.
   */
  lemma NavigationsSettle(s: Session, a: string, b: string, enc: string -> string, h1: Id, h2: Id, t1: int, t2: int)
    requires Valid(s)
    ensures var n1 := Navigate(s, a, enc, h1, t1);
            var n2 := Navigate(n1.next, b, enc, h2, t2);
            var done := CompleteLoad(CompleteLoad(n2.next, n1.pendingLoad), n2.pendingLoad);
            && n1.pendingLoad == n2.pendingLoad == s.activeTabId
            && |done.tabs| > 0
            && ActiveTab(done) == ActiveTab(s).(url := Resolver.Resolve(b, enc), isLoading := false)
  {
    var n1 := Navigate(s, a, enc, h1, t1);
    NavigateKeepsValid(s, a, enc, h1, t1);
    NavigateUpdatesActiveTab(s, a, enc, h1, t1);
    var n2 := Navigate(n1.next, b, enc, h2, t2);
    NavigateKeepsValid(n1.next, b, enc, h2, t2);
    NavigateUpdatesActiveTab(n1.next, b, enc, h2, t2);
    CompleteLoadIdempotent(n2.next, s.activeTabId);
    CompleteLoadKeepsValid(n2.next, s.activeTabId);
  }

  lemma ToggleBookmarkKeepsValid(s: Session, bookmarkId: Id)
    requires Valid(s)
    ensures Valid(ToggleBookmark(s, bookmarkId))
  {
    var t := ActiveTab(s);
    Bookmarks.ToggleKeepsUnique(s.bookmarks, bookmarkId, t.title, t.url);
  }

  /**
   * Pressing the star twice: from "not bookmarked" the bookmark list is back
   * exactly; from "bookmarked" the set of bookmarked urls is back.
   */
  lemma ToggleBookmarkTwice(s: Session, id1: Id, id2: Id)
    requires |s.tabs| > 0
    ensures !IsActiveBookmarked(s) ==> ToggleBookmark(ToggleBookmark(s, id1), id2) == s
    ensures IsActiveBookmarked(s) ==>
              Bookmarks.Urls(ToggleBookmark(ToggleBookmark(s, id1), id2).bookmarks) == Bookmarks.Urls(s.bookmarks)
  {
    var t := ActiveTab(s);
    var once := ToggleBookmark(s, id1);
    assert ActiveTab(once) == t;
    if !IsActiveBookmarked(s) {
      Bookmarks.ToggleTwiceFromAbsent(s.bookmarks, id1, id2, t.title, t.title, t.url);
    } else {
      Bookmarks.ToggleTwiceFromPresent(s.bookmarks, id1, id2, t.title, t.title, t.url);
    }
  }

  /** The shield button is an involution. */
  lemma ToggleShieldTwice(s: Session)
    ensures ToggleShield(ToggleShield(s)) == s
  {
  }

  /** Pressing one sidebar button twice from a hidden sidebar hides it again. */
  lemma OpenSidebarTwice(s: Session, p: SidebarPanel)
    requires s.sidebarOpen == NONE
    ensures OpenSidebar(OpenSidebar(s, p), p) == s
  {
  }

  /** Start-up, then "wikipedia.org" in the address bar, then the load completes. */
  lemma FirstNavigationScenario(enc: string -> string, historyId: Id, now: int)
    ensures var n := Navigate(Init(), "wikipedia.org", enc, historyId, now);
            var done := CompleteLoad(n.next, n.pendingLoad);
            && n.next.tabs == [Tab(FIRST_TAB_ID, "https://wikipedia.org", DEFAULT_TITLE, true)]
            && n.next.history == [HistoryItem(historyId, "https://wikipedia.org", "https://wikipedia.org", now)]
            && done.tabs == [Tab(FIRST_TAB_ID, "https://wikipedia.org", DEFAULT_TITLE, false)]
  {
    var input := "wikipedia.org";
    assert input[0] != Resolver.HTTP[0];
    assert input[9] == '.';
    assert Resolver.Resolve(input, enc) == "https://wikipedia.org";
  }

  // ---------------------------------------------------------------------------
  // Runs of events

  /** One user action or render-surface signal. */
  datatype Event =
    | OnAddTab(newId: Id)
    | OnCloseTab(closedId: Id)
    | OnSelectTab(selectedId: Id)
    | OnNavigate(input: string, historyId: Id, now: int)
    | OnLoadComplete(loadedId: Id)
    | OnToggleBookmark(bookmarkId: Id)
    | OnOpenSidebar(panel: SidebarPanel)
    | OnCloseSidebar
    | OnToggleShield

  /** What the caller guarantees for an event: new tab ids are fresh, and only shown tabs can be clicked. */
  predicate Admissible(s: Session, e: Event) {
    match e
    case OnAddTab(id) => id !in Tabs.Ids(s.tabs)
    case OnSelectTab(id) => id in Tabs.Ids(s.tabs)
    case _ => true
  }

  /** The engine's reaction to one event. */
  function Apply(s: Session, e: Event, enc: string -> string): (r: Session)
    requires Valid(s) && Admissible(s, e)
    ensures Valid(r)
  {
    match e
    case OnAddTab(id) => AddTabKeepsValid(s, id); AddTab(s, id)
    case OnCloseTab(id) => CloseTabKeepsValid(s, id); CloseTab(s, id)
    case OnSelectTab(id) => SelectTabKeepsValid(s, id); SelectTab(s, id)
    case OnNavigate(input, hid, now) =>
      NavigateKeepsValid(s, input, enc, hid, now); Navigate(s, input, enc, hid, now).next
    case OnLoadComplete(id) => CompleteLoadKeepsValid(s, id); CompleteLoad(s, id)
    case OnToggleBookmark(bid) => ToggleBookmarkKeepsValid(s, bid); ToggleBookmark(s, bid)
    case OnOpenSidebar(p) => OpenSidebar(s, p)
    case OnCloseSidebar => CloseSidebar(s)
    case OnToggleShield => ToggleShield(s)
  }

  /** Every event of the run is admissible in the session it arrives at. */
  predicate AdmissibleRun(s: Session, events: seq<Event>, enc: string -> string)
    requires Valid(s)
    decreases |events|
  {
    |events| == 0 || (Admissible(s, events[0]) && AdmissibleRun(Apply(s, events[0], enc), events[1..], enc))
  }

  /**
   * The session after a run of events. Whatever the run, there is at least one
   * tab, the active id names one of them, the log holds at most LIMIT entries
   * and no two bookmarks share a url.
   */
  function Run(s: Session, events: seq<Event>, enc: string -> string): (r: Session)
    requires Valid(s) && AdmissibleRun(s, events, enc)
    ensures Valid(r)
    ensures |r.tabs| >= 1 && r.activeTabId in Tabs.Ids(r.tabs)
    decreases |events|
  {
    if |events| == 0 then s else Run(Apply(s, events[0], enc), events[1..], enc)
  }
}
