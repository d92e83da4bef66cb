/**
 * The session state engine of the browser shell, lifted out of the UI
 * framework: one immutable session record and one pure transition per user
 * action or render-surface event.
 *
 * Fresh ids (uuids in the shell), the clock and the percent-encoding of
 * search queries are supplied by the caller. The timer that ends a page load
 * is an explicit CompleteLoad event carrying the tab id that was active when
 * the navigation started.
 */
module Session {
  import opened Types
  import Resolver
  import Tabs
  import History
  import Bookmarks
  import Panels

  const DEFAULT_URL := "https://www.wikipedia.org"
  const DEFAULT_TITLE := "Wikipedia"
  const FIRST_TAB_ID := "1"
  const NEW_TAB_URL := "https://www.google.com/search?igu=1"
  const NEW_TAB_TITLE := "New Tab"

  datatype Session = Session(
    tabs: seq<Tab>,
    activeTabId: Id,
    sidebarOpen: SidebarPanel,
    bookmarks: seq<Bookmark>,
    history: seq<HistoryItem>,
    isShieldActive: bool)

  /** What a navigation leaves behind: the new session and the id its completion event will carry. */
  datatype Navigated = Navigated(next: Session, pendingLoad: Id)

  /** The invariants the engine keeps between events. */
  predicate Valid(s: Session) {
    && |s.tabs| >= 1
    && Tabs.UniqueIds(s.tabs)
    && s.activeTabId in Tabs.Ids(s.tabs)
    && |s.history| <= History.LIMIT
    && Bookmarks.UniqueUrls(s.bookmarks)
    && forall t :: t in s.tabs ==> Resolver.HasScheme(t.url)
  }

  /** The session at start-up: one Wikipedia tab, nothing recorded, shield on. */
  function Init(): (s: Session)
    ensures Valid(s)
    ensures |s.tabs| == 1 && s.tabs[0].id == s.activeTabId && !s.tabs[0].isLoading
    ensures s.sidebarOpen == NONE && s.bookmarks == [] && s.history == [] && s.isShieldActive
  {
    var s := Session([Tab(FIRST_TAB_ID, DEFAULT_URL, DEFAULT_TITLE, false)], FIRST_TAB_ID, NONE, [], [], true);
    assert Resolver.StartsWith(DEFAULT_URL, Resolver.HTTPS);
    s
  }

  /** The tab the address bar shows: the first one with the active id, else the first tab. */
  function ActiveTab(s: Session): (t: Tab)
    requires |s.tabs| > 0
    ensures t in s.tabs
    ensures s.activeTabId in Tabs.Ids(s.tabs) ==> t.id == s.activeTabId
    ensures s.activeTabId !in Tabs.Ids(s.tabs) ==> t == s.tabs[0]
  {
    match Tabs.Find(s.tabs, s.activeTabId)
    case Some(k) => s.tabs[k]
    case None => s.tabs[0]
  }

  /** Whether the star in the address bar is lit: some bookmark has the shown tab's url. */
  function IsActiveBookmarked(s: Session): (lit: bool)
    requires |s.tabs| > 0
    ensures lit <==> exists i :: 0 <= i < |s.bookmarks| && s.bookmarks[i].url == ActiveTab(s).url
  {
    ActiveTab(s).url in Bookmarks.Urls(s.bookmarks)
  }

  /** The "+" button: a blank search tab with the caller's fresh id is appended and made active. */
  function AddTab(s: Session, newId: Id): (r: Session)
    ensures |r.tabs| == |s.tabs| + 1
    ensures r.tabs[..|s.tabs|] == s.tabs
    ensures r.tabs[|s.tabs|] == Tab(newId, NEW_TAB_URL, NEW_TAB_TITLE, false)
    ensures r.activeTabId == newId
    ensures r == s.(tabs := r.tabs, activeTabId := r.activeTabId)
  {
    s.(tabs := s.tabs + [Tab(newId, NEW_TAB_URL, NEW_TAB_TITLE, false)], activeTabId := newId)
  }

  /**
   * The close button of tab `id`. The last remaining tab cannot be closed.
   * When the closed tab was active, the tab now last in the strip becomes active.
   * The caller's registry must be non-empty with distinct ids: the shell reads
   * the last surviving tab without checking that one survives.
   */
  function CloseTab(s: Session, id: Id): (r: Session)
    requires |s.tabs| >= 1 && Tabs.UniqueIds(s.tabs)
    ensures |s.tabs| == 1 ==> r == s
    ensures |r.tabs| >= 1 && Tabs.UniqueIds(r.tabs)
    ensures |s.tabs| > 1 ==> forall t :: t in r.tabs <==> t in s.tabs && t.id != id
    ensures id !in Tabs.Ids(s.tabs) ==> r.tabs == s.tabs
    ensures |s.tabs| > 1 && s.activeTabId == id ==> r.activeTabId == r.tabs[|r.tabs| - 1].id
    ensures s.activeTabId != id ==> r.activeTabId == s.activeTabId
    ensures r == s.(tabs := r.tabs, activeTabId := r.activeTabId)
  {
    if |s.tabs| == 1 then s
    else
      var newTabs := Tabs.WithoutId(s.tabs, id);
      Tabs.WithoutIdUnique(s.tabs, id);
      var active := if s.activeTabId == id then newTabs[|newTabs| - 1].id else s.activeTabId;
      s.(tabs := newTabs, activeTabId := active)
  }

  /** Clicking a tab in the strip makes it active. */
  function SelectTab(s: Session, id: Id): (r: Session)
    ensures r == s.(activeTabId := r.activeTabId)
    ensures |s.tabs| > 0 && id in Tabs.Ids(s.tabs) ==> ActiveTab(r).id == id
  {
    s.(activeTabId := id)
  }

  /**
   * Submitting `input` in the address bar. The active tab shows the resolved
   * url and starts loading, keeping its title; the visit is logged with the
   * resolved url as its title; the completion event will carry the id that is
   * active now.
   */
  function Navigate(s: Session, input: string, enc: string -> string, historyId: Id, now: int): (r: Navigated)
    ensures r.pendingLoad == s.activeTabId
    ensures |r.next.tabs| == |s.tabs|
    ensures forall i :: 0 <= i < |s.tabs| && s.tabs[i].id == s.activeTabId ==>
              r.next.tabs[i] == Tab(s.activeTabId, Resolver.Resolve(input, enc), s.tabs[i].title, true)
    ensures forall i :: 0 <= i < |s.tabs| && s.tabs[i].id != s.activeTabId ==> r.next.tabs[i] == s.tabs[i]
    ensures var url := Resolver.Resolve(input, enc);
            r.next.history == History.RecordVisit(s.history, HistoryItem(historyId, url, url, now))
    ensures r.next == s.(tabs := r.next.tabs, history := r.next.history)
  {
    var url := Resolver.Resolve(input, enc);
    var tabs := Tabs.MarkLoading(s.tabs, s.activeTabId, url);
    var history := History.RecordVisit(s.history, HistoryItem(historyId, url, url, now));
    Navigated(s.(tabs := tabs, history := history), s.activeTabId)
  }

  /** The render surface reports that the load started for tab `id` has finished. */
  function CompleteLoad(s: Session, id: Id): (r: Session)
    ensures id !in Tabs.Ids(s.tabs) ==> r == s
    ensures |r.tabs| == |s.tabs|
    ensures forall i :: 0 <= i < |s.tabs| && s.tabs[i].id == id ==> r.tabs[i] == s.tabs[i].(isLoading := false)
    ensures forall i :: 0 <= i < |s.tabs| && s.tabs[i].id != id ==> r.tabs[i] == s.tabs[i]
    ensures r == s.(tabs := r.tabs)
  {
    var tabs := Tabs.MarkLoaded(s.tabs, id);
    assert id !in Tabs.Ids(s.tabs) ==> tabs == s.tabs by {
      if id !in Tabs.Ids(s.tabs) {
        forall i | 0 <= i < |s.tabs| ensures tabs[i] == s.tabs[i] {
          assert s.tabs[i] in s.tabs;
        }
      }
    }
    s.(tabs := tabs)
  }

  /** The star button: bookmarks or un-bookmarks the active tab's url. */
  function ToggleBookmark(s: Session, bookmarkId: Id): (r: Session)
    requires |s.tabs| > 0
    ensures r == s.(bookmarks := r.bookmarks)
    ensures IsActiveBookmarked(r) <==> !IsActiveBookmarked(s)
    ensures !IsActiveBookmarked(s) ==>
              r.bookmarks == s.bookmarks + [Bookmark(bookmarkId, ActiveTab(s).title, ActiveTab(s).url)]
    ensures IsActiveBookmarked(s) ==> r.bookmarks == Bookmarks.WithoutUrl(s.bookmarks, ActiveTab(s).url)
    ensures forall b: Bookmark :: b.url != ActiveTab(s).url ==> (b in r.bookmarks <==> b in s.bookmarks)
  {
    var t := ActiveTab(s);
    s.(bookmarks := Bookmarks.Toggle(s.bookmarks, bookmarkId, t.title, t.url))
  }

  /** A sidebar button of the address bar. */
  function OpenSidebar(s: Session, p: SidebarPanel): (r: Session)
    ensures r.sidebarOpen == NONE <==> s.sidebarOpen == p || p == NONE
    ensures r.sidebarOpen != NONE ==> r.sidebarOpen == p
    ensures r == s.(sidebarOpen := r.sidebarOpen)
  {
    s.(sidebarOpen := Panels.Toggle(s.sidebarOpen, p))
  }

  /** The close button of the sidebar. */
  function CloseSidebar(s: Session): (r: Session)
    ensures r.sidebarOpen == NONE
    ensures r == s.(sidebarOpen := NONE)
  {
    s.(sidebarOpen := NONE)
  }

  /** The shield button. */
  function ToggleShield(s: Session): (r: Session)
    ensures r.isShieldActive != s.isShieldActive
    ensures r == s.(isShieldActive := r.isShieldActive)
  {
    s.(isShieldActive := !s.isShieldActive)
  }
}
