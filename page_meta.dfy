/** The navigation metadata of one page: derived page count and previous/next flags. */
module Meta {
  import opened Wrappers
  import opened PaginationOptions

  /**
   * PageMeta: the page number (1-based), the page size and the total number of
   * rows, which is None when the total was not counted.
   */
  datatype PageMeta = PageMeta(pageNumber: int, pageSize: int, totalCount: Option<int>)

  /** The derived properties are defined whenever a known total can be divided by the page size. */
  predicate Computable(m: PageMeta) {
    m.totalCount.Some? ==> m.pageSize > 0
  }

  /** Integer ceiling of a / b for a positive divisor; equals Math.Ceiling((double)a / b) on 32-bit integers. */
  function CeilDiv(a: int, b: int): (q: int)
    requires b > 0
    ensures (q - 1) * b < a <= q * b
  {
    var q := (a + b - 1) / b;
    DivBounds(a + b - 1, b);
    q
  }

  lemma DivBounds(a: int, b: int)
    requires b > 0
    ensures (a / b) * b <= a < (a / b) * b + b
  {
  }

  /** TotalPages: ceiling of TotalCount / PageSize, or None when the total is unknown. */
  function TotalPages(m: PageMeta): (r: Option<int>)
    requires Computable(m)
    ensures r.None? <==> m.totalCount.None?
    ensures r.Some? ==> (r.value - 1) * m.pageSize < m.totalCount.value <= r.value * m.pageSize
  {
    match m.totalCount
    case None => None
    case Some(count) => Some(CeilDiv(count, m.pageSize))
  }

  /** HasPrevious: there is a page before this one, i.e. PageNumber - 1 is itself a page number. */
  function HasPrevious(m: PageMeta): (r: bool)
    ensures r <==> m.pageNumber - 1 >= MinPageNumber
  {
    m.pageNumber > 1
  }

  /**
   * HasNext: None when the total is unknown; otherwise whether the page number
   * is below the page count, which holds exactly when the rows of pages
   * 1..PageNumber do not exhaust the total.
   */
  function HasNext(m: PageMeta): (r: Option<bool>)
    requires Computable(m)
    ensures r.None? <==> m.totalCount.None?
    ensures r.Some? ==> (r.value <==> m.pageNumber * m.pageSize < m.totalCount.value)
  {
    match TotalPages(m)
    case None => None
    case Some(pages) =>
      NextIffRowsRemain(m.pageNumber, m.pageSize, m.totalCount.value, pages);
      Some(m.pageNumber < pages)
  }

  lemma NextIffRowsRemain(pageNumber: int, pageSize: int, count: int, pages: int)
    requires pageSize > 0
    requires (pages - 1) * pageSize < count <= pages * pageSize
    ensures pageNumber < pages <==> pageNumber * pageSize < count
  {
    if pageNumber < pages {
      MulMonotone(pageNumber, pages - 1, pageSize);
    } else {
      MulMonotone(pages, pageNumber, pageSize);
    }
  }

  lemma MulMonotone(a: int, b: int, c: int)
    requires a <= b && c >= 0
    ensures a * c <= b * c
  {
    assert b * c - a * c == (b - a) * c;
  }

  /** A known, non-negative total gives a non-negative page count, and an empty total gives no pages. */
  lemma TotalPagesOfNonNegativeCount(m: PageMeta)
    requires m.pageSize > 0 && m.totalCount.Some? && m.totalCount.value >= 0
    ensures TotalPages(m).value >= 0
    ensures TotalPages(m).value == 0 <==> m.totalCount.value == 0
  {
    var pages := TotalPages(m).value;
    if pages < 0 {
      MulMonotone(pages, 0, m.pageSize);
    }
    if pages > 0 {
      MulMonotone(1, pages, m.pageSize);
    }
  }

  /** With no rows there are no pages and no next page, whatever non-negative page is asked for. */
  lemma EmptyTotalHasNoNext(pageNumber: int, pageSize: int)
    requires pageSize > 0 && pageNumber >= 0
    ensures TotalPages(PageMeta(pageNumber, pageSize, Some(0))) == Some(0)
    ensures HasNext(PageMeta(pageNumber, pageSize, Some(0))) == Some(false)
  {
    TotalPagesOfNonNegativeCount(PageMeta(pageNumber, pageSize, Some(0)));
  }

  /** On the last page and on every page past it there is no next page. */
  lemma NoNextFromLastPage(m: PageMeta)
    requires Computable(m) && m.totalCount.Some?
    requires m.pageNumber >= TotalPages(m).value
    ensures HasNext(m) == Some(false)
  {
  }

  /** HasPrevious depends on the page number only, never on whether the total is known. */
  lemma HasPreviousIgnoresTotal(m: PageMeta, count: Option<int>)
    ensures HasPrevious(m) == HasPrevious(m.(totalCount := count))
    ensures HasPrevious(m) <==> m.pageNumber > 1
  {
  }

  /** 23 rows in pages of 10 make 3 pages: 2.3 rounded up. */
  lemma TwentyThreeRowsMakeThreePages()
    ensures TotalPages(PageMeta(1, 10, Some(23))) == Some(3)
  {
    assert CeilDiv(23, 10) == 3;
  }
}
