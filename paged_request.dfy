/** The paging and sorting parameters of one list request. */
module Requests {
  import opened Wrappers

  /**
   * PagedRequest: an immutable record. The page number and page size are
   * carried raw, exactly as the caller supplied them; they are clamped only
   * when a page is fetched.
   */
  datatype PagedRequest = PagedRequest(
    pageNumber: int,
    pageSize: int,
    sortBy: Option<string>,
    desc: bool,
    includeTotalCount: bool)

  /** `new PagedRequest()`: every property keeps its declared default. */
  function DefaultRequest(): (r: PagedRequest)
    ensures r.pageNumber == 1 && r.pageSize == 10
    ensures r.sortBy.None? && !r.desc
    ensures r.includeTotalCount
  {
    PagedRequest(1, 10, None, false, true)
  }
}
