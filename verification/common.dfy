/** Page ids shared by the storage modules. */
module Common {
  type PageId = int

  /** INVALID_PAGE_ID: no page. */
  const INVALID_PAGE_ID: PageId := -1
}
