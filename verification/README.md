# Lumina session engine in Dafny

Lumina is a browser-shell UI. Its only stateful logic is the session state
engine in `App.tsx`: the tab strip with its active tab, the address-bar URL
heuristic, navigation with its loading flag and visit log, the bookmark star,
the sidebar panel buttons and the privacy-shield switch. The UI framework
holds all of this as component state and callbacks. This project models it
as one immutable `Session` record (`tabs`, `activeTabId`, `sidebarOpen`,
`bookmarks`, `history`, `isShieldActive`) with a pure function per user
action or load-completion signal. It proves the invariants the engine keeps
and the laws of each operation.

Modules (one file each):

- `Types` (`types.dfy`): the `Tab`, `Bookmark` and `HistoryItem` records and the five-way `SidebarPanel` enumeration of `types.ts`.
- `Resolver` (`resolver.dfy`): the address-bar heuristic. Input that starts with exactly `http://` or `https://` (case-sensitive) is kept. A dotted input with no space gets `https://` in front. Anything else becomes a search URL.
- `Tabs` (`tabs.dfy`): the three registry rewrites. Closing drops tabs, navigation marks a tab as loading, and completion marks it as loaded. Also the `find` of the active tab.
- `History` (`history.dfy`): the visit log. It is newest first and capped at 50 entries.
- `Bookmarks` (`bookmarks.dfy`): the bookmark list keyed by url, and its toggle.
- `Panels` (`panels.dfy`): the sidebar toggle.
- `Session` (`session.dfy`): the session record, its invariant `Valid`, the start-up session and the operations.
- `Invariants` (`invariants.dfy`): invariant preservation, the per-operation laws, and runs of events. For any run, at least one tab exists, the active id names a tab, the log has at most 50 entries and bookmark urls are unique.

Outside effects become parameters:

- Ids that `uuidv4` would produce are passed in by the caller. Tab ids are fresh: every event run checks this through `Admissible`.
- `Date.now()` becomes the `now` argument.
- `encodeURIComponent` becomes the uninterpreted function argument `enc`.
- The one-second timer that ends a load becomes the `CompleteLoad(id)` event. `Navigate` returns the id it will carry, which is the id that was active when the navigation started. The caller may deliver it at any later point, or never.

On these points the model follows `App.tsx`:

- Navigation keeps the tab's old title (App.tsx:56).
- The history entry's title is the resolved url (App.tsx:61).
- A new tab opens the search page `https://www.google.com/search?igu=1` titled `New Tab` (App.tsx:27-28).
- The host heuristic rejects only the space character; other whitespace is not checked (App.tsx:48).
- Closing the only tab is silently ignored (App.tsx:37).

## Model

| member | source | states |
|---|---|---|
| Resolver.Resolve | App.tsx:46-53 | The result always starts with `http://` or `https://`. The input is returned unchanged exactly when it already has one of those schemes. A scheme-less input with a dot and no space becomes `https://` + input. Anything else becomes the search URL with the encoded query and `&igu=1`. |
| Resolver.ResolveIdempotent | App.tsx:46-53 | Resolving a resolved url gives it back unchanged. This is why the reload button can re-submit the current url. |
| Resolver.ResolveExamples | App.tsx:46-53 | `openai.com` becomes `https://openai.com`. `https://x.com` is unchanged. `hello world` becomes a search for its encoding. |
| Tabs.Find | App.tsx:22 | Returns the position of the first tab with the id. It returns none exactly when no tab has that id. |
| Tabs.WithoutId | App.tsx:38 | The surviving tabs are exactly the tabs whose id differs from the closed id. With an absent id the registry is unchanged. |
| Tabs.WithoutIdAppend | App.tsx:38 | Closing distributes over concatenation, so survivors keep their relative order. |
| Tabs.WithoutIdUnique | App.tsx:37-41 | With distinct ids, closing keeps ids distinct and drops at most one tab. So a registry of two or more tabs keeps at least one, and the shell's read of the last survivor is safe. |
| Tabs.WithoutIdRemovesOne | App.tsx:38 | With distinct ids, closing the tab at position k yields exactly the tabs before k followed by the tabs after k. |
| Tabs.MarkLoading | App.tsx:55-57 | Every tab with the active id gets the new url and `isLoading = true` and keeps its title. Every other tab is untouched and the length is unchanged. |
| Tabs.MarkLoaded | App.tsx:67-69 | Every tab with the id gets `isLoading = false` and nothing else changes. Every other tab is untouched. |
| Tabs.MarkLoadedIdempotent | App.tsx:67-69 | Applying a completion twice is the same as applying it once. |
| Tabs.MarkLoadedCommute | App.tsx:67-69 | Two completions commute. |
| History.RecordVisit | App.tsx:60-63 | The new entry is at index 0. Entry k+1 is old entry k, and only the 49 newest old entries stay. The length is min(50, old length + 1). |
| History.RecordAllIsCapOfReverse | App.tsx:60-63 | Starting from a log of at most 50 entries, any sequence of recorded visits yields the first 50 of "the visits newest first, then the old log". |
| History.RecordAllWindow | App.tsx:60-63 | After any visits the log has min(50, visits + old length) entries, and entry k is the k-th newest visit. |
| History.RecordAllFullWindow | App.tsx:60-63 | After 50 or more visits the log is exactly the last 50 visits, newest first. Nothing of the earlier log survives. |
| History.OldestVisitDropped | App.tsx:60-63 | After 51 visits the log holds 50 entries. The first visit is gone and the last is at index 0. |
| History.RecordVisitKeepsOrder | App.tsx:61-62 | If the clock does not run backwards, the log stays ordered newest first by timestamp. |
| Bookmarks.WithoutUrl | App.tsx:76 | The remaining bookmarks are exactly those with a different url. With an absent url the list is unchanged. |
| Bookmarks.WithoutUrlAppend | App.tsx:76 | Removing by url distributes over concatenation, so the remaining bookmarks keep their relative order. |
| Bookmarks.WithoutUrlUnique | App.tsx:76 | Removing bookmarks never creates a duplicate url. |
| Bookmarks.Toggle | App.tsx:73-79 | The url is bookmarked afterwards exactly when it was not before. The url set loses or gains exactly that url. Bookmarks for other urls are untouched. An absent url is appended as one new bookmark at the end. A present url is removed by the order-keeping url filter, so the remaining bookmarks keep their order. |
| Bookmarks.ToggleKeepsUnique | App.tsx:73-79 | Toggling preserves url uniqueness. |
| Bookmarks.ToggleTwiceFromAbsent | App.tsx:73-79 | Toggling twice from "absent" restores the exact list. |
| Bookmarks.ToggleTwiceFromPresent | App.tsx:73-79 | Toggling twice from "present" restores the set of urls. |
| Panels.Toggle | App.tsx:102 | The sidebar ends hidden exactly when the pressed panel was already showing or NONE was pressed. Otherwise it shows the pressed panel. |
| Panels.ToggleTwiceHides | App.tsx:102 | Pressing one panel button twice from hidden gives hidden again. |
| Panels.ToggleSwitchesDirectly | App.tsx:102 | Pressing X and then a different Y always shows Y. If X was not showing, X is shown in between, never NONE. |
| Session.Init | App.tsx:13-20 | The start-up session satisfies every invariant. It has one idle tab that is active, a hidden sidebar, no bookmarks, no history, and the shield on. |
| Session.ActiveTab | App.tsx:22 | The tab shown is one of the tabs. It carries the active id when some tab does, and otherwise it is the first tab. |
| Session.IsActiveBookmarked | App.tsx:98 | The star is lit exactly when some bookmark's url equals the shown tab's url. |
| Session.AddTab | App.tsx:24-33 | Exactly one tab is appended: the fresh id, the new-tab search url, title `New Tab`, not loading. It becomes active. Earlier tabs and all other fields are unchanged. |
| Session.CloseTab | App.tsx:35-43 | On a one-tab session nothing changes. Otherwise the survivors are exactly the tabs with another id, at least one remains, and an absent id changes no tab. A closed active tab passes activity to the new last tab. Otherwise the active id is kept. |
| Session.SelectTab | App.tsx:90 | Clicking an existing tab makes it the tab shown. Nothing else changes. |
| Session.Navigate | App.tsx:45-71 | Only tabs with the active id change, to the resolved url and loading with the title kept. The log records the resolved url as both url and title. The completion carries the id active at the call. Nothing else changes. |
| Session.CompleteLoad | App.tsx:66-70 | Only tabs with the id stop loading. For an id that names no tab the session is unchanged. |
| Session.ToggleBookmark | App.tsx:73-80 | The star's state flips. When it was off, exactly one bookmark with the fresh id and the shown tab's title and url is appended at the end. When it was on, the list is exactly the old list without the bookmarks for that url. Bookmarks for other urls are untouched and nothing else in the session changes. |
| Session.OpenSidebar | App.tsx:102 | Pressing the showing panel hides the sidebar. Pressing another panel shows that panel. |
| Session.CloseSidebar | App.tsx:125 | The sidebar is hidden and nothing else changes. |
| Session.ToggleShield | App.tsx:100 | The shield flag flips and nothing else changes. |
| Invariants.AddTabKeepsValid | App.tsx:24-33 | Adding a tab with a fresh id keeps all invariants, and the new tab is the one shown. |
| Invariants.CloseTabKeepsValid | App.tsx:35-43 | Closing keeps all invariants. In particular the active id still names a tab. |
| Invariants.CloseTabRemovesExactlyOne | App.tsx:38 | Closing the tab at position k of a registry with two or more distinct ids removes exactly that tab and keeps the others' order. |
| Invariants.SelectTabKeepsValid | App.tsx:90 | Selecting an existing tab keeps all invariants. |
| Invariants.NavigateKeepsValid | App.tsx:55-63 | Navigation keeps all invariants. Tab urls stay fully qualified and the log stays at most 50 entries. |
| Invariants.NavigateUpdatesActiveTab | App.tsx:55-63 | After navigation the tab shown is the old active tab with the resolved url, loading, and its old title. The newest log entry has the resolved url as url and title. |
| Invariants.ReloadKeepsUrls | components/AddressBar.tsx:50 | Re-submitting the shown tab's url changes no tab's url or title. It logs that url. |
| Invariants.CompleteLoadKeepsValid | App.tsx:66-70 | A completion keeps all invariants. |
| Invariants.CompleteLoadIdempotent | App.tsx:66-70 | Delivering a completion twice equals delivering it once. |
| Invariants.CompleteLoadCommute | App.tsx:66-70 | Two completions give the same session in either order. |
| Invariants.CompletionAfterCloseIsNoOp | App.tsx:66-70 | After a tab is closed its id is gone. A late completion for it changes nothing and cannot revive it. |
| Invariants.NavigationsSettle | App.tsx:45-71 | Two navigations on one tab carry the same pending id. Once both completions arrive, in either order, the tab shows the second resolved url and is idle. |
| Invariants.ToggleBookmarkKeepsValid | App.tsx:73-80 | Toggling the bookmark keeps all invariants, including url uniqueness. |
| Invariants.ToggleBookmarkTwice | App.tsx:73-80 | Pressing the star twice restores the exact list when the url was not bookmarked. It restores the url set when it was. |
| Invariants.ToggleShieldTwice | App.tsx:100 | The shield flip is an involution. |
| Invariants.OpenSidebarTwice | App.tsx:102 | Pressing one sidebar button twice from hidden restores the session. |
| Invariants.FirstNavigationScenario | App.tsx:45-70 | Start-up and then `wikipedia.org` gives one tab at `https://wikipedia.org` that is loading with title `Wikipedia`, plus one log entry for that url. The completion makes the tab idle. |
| Invariants.Apply | App.tsx:24-102 | Each admissible event applied to a valid session gives a valid session. |
| Invariants.Run | App.tsx:13-102 | Any admissible run of events from a valid session ends in a valid session. It always has a tab and the active id names one. |

## Left out

- Rendering, styling and the framework's re-render and hook-dependency mechanics: presentation only.
- A close click does not also select its tab: `e.stopPropagation()` (App.tsx:36) stops the tab's own click handler, so `CloseTab` is modelled as one event.
- The optional `favicon` field of a tab: the engine never sets or reads it.
- The AI-assistant chat in `components/Sidebar.tsx`, a network call with a local message log. It is not part of this model.
- Page rendering and URL parsing in `components/WebView.tsx`, and its load-error flag. This is a foreign library call plus a visual flag.
- `components/TabBar.tsx` and the address bar's local input buffer: presentational.
- `encodeURIComponent` throws on a string holding a lone UTF-16 surrogate, and the shell's navigate then stops before changing any state. Script strings are UTF-16 code units, while Dafny strings here hold whole characters and `enc` is total, so that input cannot be represented. On it the shell's navigate changes nothing.
- `main.js`: window creation, auto-update, dialogs and opening external links are platform I/O.
- `uuidv4`, `Date.now`, the timer's delay and `encodeURIComponent`: they are caller-supplied ids, an abstract timestamp, an explicit completion event and the uninterpreted `enc`.
- Session.CloseTab: requires a non-empty registry with distinct ids. The shell reads the last surviving tab without checking that one exists, which would fail if every tab carried the closed id. Fresh uuids rule that out, and `Valid` includes it.
- Session.ToggleBookmark: requires at least one tab. The shell's fallback to the first tab has no tab to fall back to on an empty registry.
- Tab-id freshness is stated relative to the tabs currently open. A later tab that reused a closed tab's id is not ruled out by the model. The shell's uuids are never reused.
- A loading indicator that stays on when no completion is ever delivered is not modelled as a separate state. A new navigation re-arms it, and any later completion clears it.
