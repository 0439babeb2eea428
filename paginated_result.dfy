/** The envelope a paged query returns. */
module Results {
  import opened Meta

  /** PaginatedResult: the rows of the requested page and the page's metadata. */
  datatype PaginatedResult<T> = PaginatedResult(items: seq<T>, meta: PageMeta)
}
