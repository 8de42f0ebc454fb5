/**
 The browser tab as the frequently-tabs-manager popup sees it, and the
 two parts of a URL it reads.
 */
module Tabs {

  /** A tab as the tabs query hands it to the popup: only the fields the popup reads. */
  datatype Tab = Tab(id: int, url: string, title: string, windowId: int)

  /**
   One component of a parsed URL, `new URL(url).hostname` or
   `new URL(url).pathname`. URL parsing belongs to the platform, so the
   model takes it as a parameter and assumes nothing about it.
   */
  type UrlPart = string -> string
}
