/**
 * The paging executor: normalize the request, pick the ordering (requested
 * column, else the caller's default, else "Id"), then fetch one page with
 * either an exact count or a one-row over-fetch.
 */
module Paging {
  import opened Wrappers
  import opened Text
  import opened PaginationOptions
  import opened Meta
  import opened Requests
  import opened Results
  import opened Sorting
  import opened Ordering

  /** The well-known identity column used when neither a requested nor a default column is given. */
  const IdColumn: string := "Id"

  /** `Skip(n)`: drops the first n rows; a non-positive n drops nothing. */
  function Skip<T>(s: seq<T>, n: int): seq<T> {
    if n <= 0 then s else if n >= |s| then [] else s[n..]
  }

  /** `Take(n)`: keeps the first n rows; a non-positive n keeps nothing. */
  function Take<T>(s: seq<T>, n: int): seq<T> {
    if n <= 0 then [] else if n >= |s| then s else s[..n]
  }

  /** `Select(selector)`: the projection of every row. */
  function Select<T, D>(s: seq<T>, selector: T -> D): seq<D> {
    seq(|s|, i requires 0 <= i < |s| => selector(s[i]))
  }

  /** The number of rows before page `pageNumber`. */
  function PageOffset(pageNumber: int, pageSize: int): (r: int)
    requires pageNumber >= 1 && pageSize >= 1
    ensures r >= 0
  {
    MulMonotone(0, pageNumber - 1, pageSize);
    (pageNumber - 1) * pageSize
  }

  /** Reference definition of a page: rows [(p-1)*s, p*s) of the sequence, clipped to its end. */
  function PageSlice<T>(s: seq<T>, pageNumber: int, pageSize: int): (r: seq<T>)
    requires pageNumber >= 1 && pageSize >= 1
    ensures |r| <= pageSize
    ensures r == [] <==> PageOffset(pageNumber, pageSize) >= |s|
  {
    var offset := PageOffset(pageNumber, pageSize);
    s[Min(offset, |s|)..Min(offset + pageSize, |s|)]
  }

  /**
   * The column and direction the executor hands to OrderBySafe: a non-blank
   * requested column with the requested direction; otherwise a non-blank
   * default column with the default direction; otherwise "Id" ascending.
   */
  function SortChoice(request: PagedRequest, defaultSortBy: Option<string>, defaultDesc: bool): (Option<string>, bool) {
    if !IsNullOrWhiteSpace(request.sortBy) then (request.sortBy, request.desc)
    else if !IsNullOrWhiteSpace(defaultSortBy) then (defaultSortBy, defaultDesc)
    else (Some(IdColumn), false)
  }

  /** The ordering step of the executor: OrderBySafe of the chosen column, still subject to the whitelist. */
  function OrderedQuery<T>(query: seq<T>, request: PagedRequest, whitelist: Option<Whitelist>,
                           defaultSortBy: Option<string>, defaultDesc: bool, t: TypeMembers<T>): (r: seq<T>)
    ensures multiset(r) == multiset(query) && |r| == |query|
    ensures var choice := SortChoice(request, defaultSortBy, defaultDesc);
            Accepted(t, choice.0, whitelist) ==> SortedBy(r, FindMember(t, choice.0.value).value, choice.1)
    ensures var choice := SortChoice(request, defaultSortBy, defaultDesc);
            !Accepted(t, choice.0, whitelist) ==> r == query
  {
    var choice := SortChoice(request, defaultSortBy, defaultDesc);
    OrderBySafe(query, choice.0, choice.1, whitelist, t)
  }

  /**
   * The page the executor promises: the normalized page of the ordered rows,
   * with metadata holding the normalized page number and size and, when
   * requested, the number of rows of the whole query.
   */
  function ExpectedPage<T>(query: seq<T>, request: PagedRequest, whitelist: Option<Whitelist>,
                           defaultSortBy: Option<string>, defaultDesc: bool, t: TypeMembers<T>): (r: PaginatedResult<T>)
    ensures r.meta.pageNumber >= MinPageNumber
    ensures MinPageSize <= r.meta.pageSize <= MaxPageSize
    ensures |r.items| <= r.meta.pageSize
    ensures r.meta.totalCount.Some? <==> request.includeTotalCount
  {
    var pageNumber := ClampPageNumber(request.pageNumber);
    var pageSize := ClampPageSize(request.pageSize);
    var ordered := OrderedQuery(query, request, whitelist, defaultSortBy, defaultDesc, t);
    PaginatedResult(
      PageSlice(ordered, pageNumber, pageSize),
      PageMeta(pageNumber, pageSize, if request.includeTotalCount then Some(|query|) else None))
  }

  /** Skip then Take of one page size is exactly the page. */
  lemma SkipTakeIsPage<T>(s: seq<T>, pageNumber: int, pageSize: int)
    requires pageNumber >= 1 && pageSize >= 1
    ensures Take(Skip(s, PageOffset(pageNumber, pageSize)), pageSize) == PageSlice(s, pageNumber, pageSize)
  {
  }

  /**
   * Over-fetching one extra row and trimming it when it arrives gives exactly
   * the page, and the extra row arrives exactly when rows remain after the page.
   */
  lemma OverFetchTrimIsPage<T>(s: seq<T>, pageNumber: int, pageSize: int)
    requires pageNumber >= 1 && pageSize >= 1
    ensures var pagePlusOne := Take(Skip(s, PageOffset(pageNumber, pageSize)), pageSize + 1);
            && (|pagePlusOne| > pageSize <==> PageOffset(pageNumber, pageSize) + pageSize < |s|)
            && (if |pagePlusOne| > pageSize then Take(pagePlusOne, pageSize) else pagePlusOne)
               == PageSlice(s, pageNumber, pageSize)
  {
  }

  /** Projection commutes with trimming. */
  lemma SelectTake<T, D>(s: seq<T>, n: int, selector: T -> D)
    ensures Select(Take(s, n), selector) == Take(Select(s, selector), n)
  {
  }

  /**
   * ToPaginatedResultAsync with a projection: normalize, order, then either
   * count the ordered rows and fetch one page, or over-fetch one extra row and
   * trim it. The rows are projected before they are materialized.
   */
  method ToPaginatedResultProjected<T, D>(query: seq<T>, request: PagedRequest, selector: T -> D,
                                          t: TypeMembers<T>,
                                          sortableWhitelist: Option<Whitelist> := None,
                                          defaultSortBy: Option<string> := None,
                                          defaultDesc: bool := false)
    returns (result: PaginatedResult<D>)
    ensures var expected := ExpectedPage(query, request, sortableWhitelist, defaultSortBy, defaultDesc, t);
            result.items == Select(expected.items, selector) && result.meta == expected.meta
  {
    var pageNumber, pageSize := Normalize(request.pageNumber, request.pageSize);

    var ordered := query;
    if !IsNullOrWhiteSpace(request.sortBy) {
      ordered := OrderBySafe(ordered, request.sortBy, request.desc, sortableWhitelist, t);
    } else if !IsNullOrWhiteSpace(defaultSortBy) {
      ordered := OrderBySafe(ordered, defaultSortBy, defaultDesc, sortableWhitelist, t);
    } else {
      ordered := OrderBySafe(ordered, Some(IdColumn), false, sortableWhitelist, t);
    }

    var offset := PageOffset(pageNumber, pageSize);
    if request.includeTotalCount {
      var total := |ordered|;
      var items := Select(Take(Skip(ordered, offset), pageSize), selector);
      SkipTakeIsPage(ordered, pageNumber, pageSize);
      result := PaginatedResult(items, PageMeta(pageNumber, pageSize, Some(total)));
    } else {
      var pagePlusOne := Select(Take(Skip(ordered, offset), pageSize + 1), selector);
      var hasNext := |pagePlusOne| > pageSize;
      var items := if hasNext then Take(pagePlusOne, pageSize) else pagePlusOne;
      OverFetchTrimIsPage(ordered, pageNumber, pageSize);
      SelectTake(Take(Skip(ordered, offset), pageSize + 1), pageSize, selector);
      result := PaginatedResult(items, PageMeta(pageNumber, pageSize, None));
    }
  }

  /**
   * ToPaginatedResultAsync on the rows themselves: the same steps without a
   * projection.
   */
  method ToPaginatedResult<T>(query: seq<T>, request: PagedRequest, t: TypeMembers<T>,
                              sortableWhitelist: Option<Whitelist> := None,
                              defaultSortBy: Option<string> := None,
                              defaultDesc: bool := false)
    returns (result: PaginatedResult<T>)
    ensures result == ExpectedPage(query, request, sortableWhitelist, defaultSortBy, defaultDesc, t)
  {
    var pageNumber, pageSize := Normalize(request.pageNumber, request.pageSize);

    var ordered := query;
    if !IsNullOrWhiteSpace(request.sortBy) {
      ordered := OrderBySafe(ordered, request.sortBy, request.desc, sortableWhitelist, t);
    } else if !IsNullOrWhiteSpace(defaultSortBy) {
      ordered := OrderBySafe(ordered, defaultSortBy, defaultDesc, sortableWhitelist, t);
    } else {
      ordered := OrderBySafe(ordered, Some(IdColumn), false, sortableWhitelist, t);
    }

    var offset := PageOffset(pageNumber, pageSize);
    if request.includeTotalCount {
      var total := |ordered|;
      var items := Take(Skip(ordered, offset), pageSize);
      SkipTakeIsPage(ordered, pageNumber, pageSize);
      result := PaginatedResult(items, PageMeta(pageNumber, pageSize, Some(total)));
    } else {
      var pagePlusOne := Take(Skip(ordered, offset), pageSize + 1);
      var hasNext := |pagePlusOne| > pageSize;
      var items := if hasNext then Take(pagePlusOne, pageSize) else pagePlusOne;
      OverFetchTrimIsPage(ordered, pageNumber, pageSize);
      result := PaginatedResult(items, PageMeta(pageNumber, pageSize, None));
    }
  }

  /**
   * ToPaginatedResultAsync taking the page number and size as arguments: builds
   * a request from its arguments, carried raw, and delegates.
   */
  method ToPaginatedResultOfPage<T>(query: seq<T>, pageNumber: int, pageSize: int, t: TypeMembers<T>,
                                    sortableWhitelist: Option<Whitelist> := None,
                                    defaultSortBy: Option<string> := None,
                                    defaultDesc: bool := false,
                                    sortBy: Option<string> := None,
                                    desc: bool := false,
                                    includeTotalCount: bool := true)
    returns (result: PaginatedResult<T>)
    ensures result == ExpectedPage(query, PagedRequest(pageNumber, pageSize, sortBy, desc, includeTotalCount),
                                   sortableWhitelist, defaultSortBy, defaultDesc, t)
    ensures sortBy.None? && !desc && includeTotalCount ==>
              result == ExpectedPage(query, DefaultRequest().(pageNumber := pageNumber, pageSize := pageSize),
                                     sortableWhitelist, defaultSortBy, defaultDesc, t)
  {
    var request := PagedRequest(pageNumber, pageSize, sortBy, desc, includeTotalCount);
    result := ToPaginatedResult(query, request, t, sortableWhitelist, defaultSortBy, defaultDesc);
  }

  /** Every page before the last known page is full. */
  lemma FullPagesBeforeLast<T>(s: seq<T>, pageNumber: int, pageSize: int)
    requires pageNumber >= 1 && pageSize >= 1
    requires pageNumber < TotalPages(PageMeta(pageNumber, pageSize, Some(|s|))).value
    ensures |PageSlice(s, pageNumber, pageSize)| == pageSize
  {
    assert HasNext(PageMeta(pageNumber, pageSize, Some(|s|))) == Some(true);
    assert PageOffset(pageNumber, pageSize) + pageSize == pageNumber * pageSize;
  }

  /** Pages 1..k of a sequence, one after the other. */
  function Pages<T>(s: seq<T>, pageSize: int, k: nat): seq<T>
    requires pageSize >= 1
  {
    if k == 0 then [] else Pages(s, pageSize, k - 1) + PageSlice(s, k, pageSize)
  }

  /** Consecutive pages are adjacent slices: pages 1..k are the first k*pageSize rows, clipped. */
  lemma {:induction false} PagesArePrefix<T>(s: seq<T>, pageSize: int, k: nat)
    requires pageSize >= 1
    ensures Pages(s, pageSize, k) == s[..Min(k * pageSize, |s|)]
  {
    if k > 0 {
      PagesArePrefix(s, pageSize, k - 1);
      var a := Min((k - 1) * pageSize, |s|);
      var b := Min(k * pageSize, |s|);
      assert PageOffset(k, pageSize) + pageSize == k * pageSize;
      assert PageSlice(s, k, pageSize) == s[a..b];
      assert s[..a] + s[a..b] == s[..b];
    }
  }

  /** Concatenating pages 1..TotalPages reproduces the ordered rows exactly. */
  lemma AllPagesReproduceRows<T>(s: seq<T>, pageSize: int)
    requires pageSize >= 1
    ensures var pages := TotalPages(PageMeta(1, pageSize, Some(|s|))).value;
            pages >= 0 && Pages(s, pageSize, pages) == s
  {
    var m := PageMeta(1, pageSize, Some(|s|));
    TotalPagesOfNonNegativeCount(m);
    var pages := TotalPages(m).value;
    PagesArePrefix(s, pageSize, pages);
  }

  /** A page before another one ends where or before the later one starts: pages never overlap. */
  lemma PagesDoNotOverlap<T>(s: seq<T>, p: int, q: int, pageSize: int)
    requires 1 <= p < q && pageSize >= 1
    ensures Min(PageOffset(p, pageSize) + pageSize, |s|) <= Min(PageOffset(q, pageSize), |s|)
  {
    MulMonotone(p, q - 1, pageSize);
    assert PageOffset(p, pageSize) + pageSize == p * pageSize;
  }

  /** No row occurs twice in the sequence. */
  ghost predicate NoDuplicates<T>(s: seq<T>) {
    forall x | x in s :: multiset(s)[x] == 1
  }

  /** A row found at two different positions occurs at least twice. */
  lemma RepeatedRowCountsTwice<T>(s: seq<T>, i: int, j: int)
    requires 0 <= i < j < |s| && s[i] == s[j]
    ensures multiset(s)[s[i]] >= 2
  {
    assert s == s[..j] + [s[j]] + s[j + 1..];
    assert s[..j][i] == s[i];
    assert s[i] in multiset(s[..j]);
  }

  /** Two different pages of a sequence without duplicates share no row. */
  lemma PagesShareNoRow<T>(s: seq<T>, p: int, q: int, pageSize: int)
    requires 1 <= p < q && pageSize >= 1
    requires NoDuplicates(s)
    ensures forall x :: x in PageSlice(s, p, pageSize) ==> x !in PageSlice(s, q, pageSize)
  {
    PagesDoNotOverlap(s, p, q, pageSize);
    var a := Min(PageOffset(p, pageSize), |s|);
    var b := Min(PageOffset(q, pageSize), |s|);
    var first := PageSlice(s, p, pageSize);
    var second := PageSlice(s, q, pageSize);
    forall x | x in first ensures x !in second {
      var i :| 0 <= i < |first| && first[i] == x;
      if x in second {
        var j :| 0 <= j < |second| && second[j] == x;
        assert s[a + i] == x && s[b + j] == x && x in s;
        RepeatedRowCountsTwice(s, a + i, b + j);
      }
    }
  }

  /**
   * The over-fetch probe, which the executor computes and then drops, agrees
   * with the next-page flag that an exact count of the same rows would give.
   */
  lemma ProbeAgreesWithCount<T>(s: seq<T>, pageNumber: int, pageSize: int)
    requires pageNumber >= 1 && pageSize >= 1
    ensures (|Take(Skip(s, PageOffset(pageNumber, pageSize)), pageSize + 1)| > pageSize)
            == HasNext(PageMeta(pageNumber, pageSize, Some(|s|))).value
  {
    OverFetchTrimIsPage(s, pageNumber, pageSize);
    assert PageOffset(pageNumber, pageSize) + pageSize == pageNumber * pageSize;
  }

  /**
   * What every page promises: normalized page number and size in the
   * metadata, at most one page of rows, an empty page exactly past the end,
   * no total (so no page count and no next flag) in over-fetch mode, and the
   * same rows in both modes.
   */
  lemma ExpectedPageShape<T>(query: seq<T>, request: PagedRequest, whitelist: Option<Whitelist>,
                             defaultSortBy: Option<string>, defaultDesc: bool, t: TypeMembers<T>)
    ensures var page := ExpectedPage(query, request, whitelist, defaultSortBy, defaultDesc, t);
            && page.meta.pageNumber == ClampPageNumber(request.pageNumber)
            && page.meta.pageSize == ClampPageSize(request.pageSize)
            && |page.items| <= page.meta.pageSize
            && (page.items == [] <==> PageOffset(page.meta.pageNumber, page.meta.pageSize) >= |query|)
            && (request.includeTotalCount ==> page.meta.totalCount == Some(|query|))
            && (!request.includeTotalCount ==> TotalPages(page.meta).None? && HasNext(page.meta).None?)
            && ExpectedPage(query, request.(includeTotalCount := !request.includeTotalCount),
                            whitelist, defaultSortBy, defaultDesc, t).items == page.items
  {
  }

  /** The executor always asks OrderBySafe for a non-blank column: "Id" stands in when nothing else is given. */
  lemma SortPriority(request: PagedRequest, defaultSortBy: Option<string>, defaultDesc: bool)
    ensures !IsNullOrWhiteSpace(SortChoice(request, defaultSortBy, defaultDesc).0)
  {
    assert !IsWhiteSpace(IdColumn[0]);
  }

  /** A rejected requested column leaves the rows unordered, whatever default is configured. */
  lemma RejectedSortHasNoFallback<T>(query: seq<T>, request: PagedRequest, whitelist: Option<Whitelist>,
                                     defaultSortBy: Option<string>, defaultDesc: bool, t: TypeMembers<T>)
    requires !IsNullOrWhiteSpace(request.sortBy) && !Accepted(t, request.sortBy, whitelist)
    ensures OrderedQuery(query, request, whitelist, defaultSortBy, defaultDesc, t) == query
  {
  }

  /** A blank requested column and a rejected default column leave the rows unordered: "Id" is not tried. */
  lemma RejectedDefaultHasNoFallback<T>(query: seq<T>, request: PagedRequest, whitelist: Option<Whitelist>,
                                        defaultSortBy: Option<string>, defaultDesc: bool, t: TypeMembers<T>)
    requires IsNullOrWhiteSpace(request.sortBy) && !IsNullOrWhiteSpace(defaultSortBy)
    requires !Accepted(t, defaultSortBy, whitelist)
    ensures OrderedQuery(query, request, whitelist, defaultSortBy, defaultDesc, t) == query
  {
  }

  /** With no requested and no default column, an accepted "Id" orders the rows by their identity, ascending. */
  lemma IdFallbackOrdersById<T>(query: seq<T>, request: PagedRequest, whitelist: Option<Whitelist>,
                                defaultSortBy: Option<string>, defaultDesc: bool, t: TypeMembers<T>)
    requires IsNullOrWhiteSpace(request.sortBy) && IsNullOrWhiteSpace(defaultSortBy)
    requires Accepted(t, Some(IdColumn), whitelist)
    ensures SortedBy(OrderedQuery(query, request, whitelist, defaultSortBy, defaultDesc, t), FindMember(t, IdColumn).value, false)
  {
  }

  /** With no requested and no default column, a whitelist without "Id" leaves the rows unordered. */
  lemma IdFallbackIsWhitelisted<T>(query: seq<T>, request: PagedRequest, whitelist: Whitelist,
                                   defaultSortBy: Option<string>, defaultDesc: bool, t: TypeMembers<T>)
    requires IsNullOrWhiteSpace(request.sortBy) && IsNullOrWhiteSpace(defaultSortBy)
    requires !WhitelistContains(whitelist, IdColumn)
    ensures OrderedQuery(query, request, Some(whitelist), defaultSortBy, defaultDesc, t) == query
  {
    assert !IsWhiteSpace(IdColumn[0]);
  }

  /**
   * When the chosen column is accepted and its key tells the rows apart, the
   * page depends only on which rows the query holds, not on the order in which
   * the store returns them: repeating a request gives the same page.
   */
  lemma SameRowsSamePage<T>(query: seq<T>, other: seq<T>, request: PagedRequest, whitelist: Option<Whitelist>,
                            defaultSortBy: Option<string>, defaultDesc: bool, t: TypeMembers<T>)
    requires multiset(other) == multiset(query)
    requires Accepted(t, SortChoice(request, defaultSortBy, defaultDesc).0, whitelist)
    requires KeyIsUnique(query, FindMember(t, SortChoice(request, defaultSortBy, defaultDesc).0.value).value)
    ensures ExpectedPage(other, request, whitelist, defaultSortBy, defaultDesc, t)
            == ExpectedPage(query, request, whitelist, defaultSortBy, defaultDesc, t)
  {
    var choice := SortChoice(request, defaultSortBy, defaultDesc);
    OrderBySafeDeterministic(query, other, choice.0, choice.1, whitelist, t);
    assert |other| == |query| by {
      assert |multiset(other)| == |other| && |multiset(query)| == |query|;
    }
  }

  /**
   * Requesting a page and then a later page with the same sort parameters
   * never returns a row twice, even when the store hands the rows back in a
   * different order the second time, as long as the chosen column is accepted
   * and its key tells the rows apart.
   */
  lemma SuccessivePagesShareNoRow<T>(query: seq<T>, other: seq<T>, request: PagedRequest, laterPageNumber: int,
                                     whitelist: Option<Whitelist>, defaultSortBy: Option<string>, defaultDesc: bool,
                                     t: TypeMembers<T>)
    requires multiset(other) == multiset(query)
    requires NoDuplicates(query)
    requires Accepted(t, SortChoice(request, defaultSortBy, defaultDesc).0, whitelist)
    requires KeyIsUnique(query, FindMember(t, SortChoice(request, defaultSortBy, defaultDesc).0.value).value)
    requires ClampPageNumber(request.pageNumber) < ClampPageNumber(laterPageNumber)
    ensures forall x :: x in ExpectedPage(query, request, whitelist, defaultSortBy, defaultDesc, t).items ==>
              x !in ExpectedPage(other, request.(pageNumber := laterPageNumber), whitelist, defaultSortBy, defaultDesc, t).items
  {
    var later := request.(pageNumber := laterPageNumber);
    assert SortChoice(later, defaultSortBy, defaultDesc) == SortChoice(request, defaultSortBy, defaultDesc);
    SameRowsSamePage(query, other, later, whitelist, defaultSortBy, defaultDesc, t);
    var ordered := OrderedQuery(query, request, whitelist, defaultSortBy, defaultDesc, t);
    assert OrderedQuery(query, later, whitelist, defaultSortBy, defaultDesc, t) == ordered;
    assert NoDuplicates(ordered);
    PagesShareNoRow(ordered, ClampPageNumber(request.pageNumber), ClampPageNumber(laterPageNumber),
                    ClampPageSize(request.pageSize));
  }

  /**
   * 23 rows in pages of 10, counted: pages 1 and 2 hold 10 rows and page 3
   * holds 3; there are 3 pages; only pages 1 and 2 have a next page and only
   * page 1 has no previous one. Over-fetching, page 2 sees an extra row and
   * page 3 does not.
   */
  lemma TwentyThreeRowsInPagesOfTen<T>(query: seq<T>, t: TypeMembers<T>)
    requires |query| == 23
    ensures forall p | 1 <= p <= 3 ::
      var page := ExpectedPage(query, PagedRequest(p, 10, None, false, true), None, None, false, t);
      && |page.items| == (if p < 3 then 10 else 3)
      && TotalPages(page.meta) == Some(3)
      && HasNext(page.meta) == Some(p < 3)
      && HasPrevious(page.meta) == (p > 1)
    ensures forall p | 1 <= p <= 3 ::
      var page := ExpectedPage(query, PagedRequest(p, 10, None, false, false), None, None, false, t);
      && |page.items| == (if p < 3 then 10 else 3)
      && page.meta.totalCount.None? && TotalPages(page.meta).None? && HasNext(page.meta).None?
    ensures forall p | 1 <= p <= 3 ::
      var ordered := OrderedQuery(query, PagedRequest(p, 10, None, false, false), None, None, false, t);
      |Take(Skip(ordered, PageOffset(p, 10)), 11)| > 10 <==> p < 3
  {
    TwentyThreeRowsMakeThreePages();
  }
}
