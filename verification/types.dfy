/**
 * The records and the panel enumeration of the browser shell: one tab, one
 * bookmark, one history entry, and the five states of the sidebar.
 */
module Types {

  /** Tab, bookmark and history ids are opaque strings (uuids in the shell). */
  type Id = string

  datatype Option<T> = None | Some(value: T)

  /** A tab of the shell. The optional favicon is never set by the session engine and is not modelled. */
  datatype Tab = Tab(id: Id, url: string, title: string, isLoading: bool)

  datatype Bookmark = Bookmark(id: Id, title: string, url: string)

  /** `timestamp` is the caller's clock reading when the visit was recorded. */
  datatype HistoryItem = HistoryItem(id: Id, title: string, url: string, timestamp: int)

  /** Which auxiliary panel is shown; NONE means the sidebar is hidden. */
  datatype SidebarPanel = NONE | AI | BOOKMARKS | HISTORY | SETTINGS
}
