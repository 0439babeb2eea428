# Pagination and dynamic sorting engine — Dafny model

This project models the pagination and dynamic-sorting engine of the
CleanArchitecture sample application:

- **Parameter clamping** (`PaginationOptions.Normalize`): the page number is
  raised to at least 1 and the page size is pulled into [1, 100].
- **Page metadata** (`PageMeta`): `TotalPages`, `HasPrevious` and `HasNext`
  derived from the page number, the page size and an optional total count.
- **The request record** (`PagedRequest`): an immutable record with defaults
  page 1, size 10, no sort column, ascending, exact count.
- **Whitelist-guarded ordering** (`OrderBySafe`): a column name supplied at
  run time either orders the rows by that member or leaves the query as it
  is. There are three silent exits: the name is blank, the name is not in
  the whitelist, or the type has no such member.
- **The paging executor** (`ToPaginatedResultAsync`, three overloads): it
  normalizes the request and picks the ordering in priority order (the
  requested column, then the caller's default, then "Id"). It then runs
  either the exact-count strategy (COUNT, then Skip/Take) or the over-fetch
  strategy (Take pageSize + 1, then trim), and wraps the rows and metadata in
  a `PaginatedResult`.

A query is a `seq<T>` of rows. `Skip`/`Take` follow the LINQ semantics: a
non-positive count skips or keeps nothing, and a count past the end is
clipped. `Count` is the length of the sequence, and `Select` maps a
projection over it. A record type's reflection metadata is a `TypeMembers`
value: its public instance properties and fields in declaration order, each
with a name and an integer key extractor. `OrderBy`/`OrderByDescending` is a
stable insertion sort by that key, proved to give a sorted permutation of the
rows.

Modules, one per source file or component:

| module | file | source |
|---|---|---|
| `Wrappers` | wrappers.dfy | nullable values |
| `Text` | text.dfy | `string.IsNullOrWhiteSpace`, ordinal case folding |
| `PaginationOptions` | pagination_options.dfy | PaginationOptions.cs |
| `Meta` | page_meta.dfy | PageMeta.cs |
| `Requests` | paged_request.dfy | PagedRequest.cs |
| `Results` | paginated_result.dfy | PaginatedResult.cs |
| `Sorting` | sorting.dfy | `Queryable.OrderBy` / `OrderByDescending` |
| `Ordering` | ordering.dfy | IQueryableOrderingExtensions.cs |
| `Paging` | paging.dfy | IQueryablePagingExtensions.cs |

`Normalize` and the two main `ToPaginatedResult` overloads are methods,
because the source reassigns parameters and locals step by step.
`ToPaginatedResult` and `ToPaginatedResultProjected` are proved against the
specification function `Paging.ExpectedPage`, which is defined from the
reference page slice `Paging.PageSlice` and the ordering chain
`Paging.OrderedQuery`. Both strategies are proved to give the same rows: the
COUNT plus Skip/Take path, and the over-fetch path that trims its extra row.
The int-argument overload builds a `PagedRequest` from its arguments and
delegates. Its defaults (no sort column, ascending, exact count, no
whitelist, no default column) are Dafny default parameter values.

## Model

| member | source | states |
|---|---|---|
| `PaginationOptions.Normalize` | CleanArchitecture.Domain/Shared/Pagination/PaginationOptions.cs:36-49 | The page number comes out ≥ 1 and unchanged when it was ≥ 1, else 1. The page size comes out in [1,100]: below 1 becomes 1, above 100 becomes 100, and in range it is unchanged. Each output is the clamp of its own input only. |
| `PaginationOptions.NormalizeIdempotent` | CleanArchitecture.Domain/Shared/Pagination/PaginationOptions.cs:36-49 | Clamping an already clamped page number or page size changes nothing. |
| `PaginationOptions.NormalizeFixedPoints` | CleanArchitecture.Domain/Shared/Pagination/PaginationOptions.cs:39-45 | A value is left unchanged exactly when it is in range: page number ≥ 1, page size in [1,100]. |
| `Meta.CeilDiv` | CleanArchitecture.Domain/Shared/Pagination/PageMeta.cs:36-41 | For a positive divisor, q is the ceiling of a/b: (q−1)·b < a ≤ q·b. |
| `Meta.TotalPages` | CleanArchitecture.Domain/Shared/Pagination/PageMeta.cs:39-41 | None exactly when the total is unknown. Otherwise the page count p satisfies (p−1)·PageSize < TotalCount ≤ p·PageSize, i.e. ⌈TotalCount/PageSize⌉. |
| `Meta.HasNext` | CleanArchitecture.Domain/Shared/Pagination/PageMeta.cs:55-57 | None exactly when the total is unknown. Otherwise true exactly when PageNumber·PageSize < TotalCount, i.e. rows remain after this page. |
| `Meta.TotalPagesOfNonNegativeCount` | CleanArchitecture.Domain/Shared/Pagination/PageMeta.cs:39-41 | A non-negative total gives a non-negative page count, which is 0 exactly when the total is 0. |
| `Meta.EmptyTotalHasNoNext` | CleanArchitecture.Domain/Shared/Pagination/PageMeta.cs:39-57 | A total of 0 gives 0 pages and no next page for every non-negative page number. |
| `Meta.NoNextFromLastPage` | CleanArchitecture.Domain/Shared/Pagination/PageMeta.cs:55-57 | On the last page and beyond, HasNext is false. |
| `Meta.HasPrevious` | CleanArchitecture.Domain/Shared/Pagination/PageMeta.cs:46 | True exactly when PageNumber − 1 is itself a valid page number (≥ 1). |
| `Meta.HasPreviousIgnoresTotal` | CleanArchitecture.Domain/Shared/Pagination/PageMeta.cs:46 | HasPrevious is PageNumber > 1 whether or not the total is known. |
| `Meta.TwentyThreeRowsMakeThreePages` | CleanArchitecture.Domain/Shared/Pagination/PageMeta.cs:36-41 | 23 rows with page size 10 give 3 pages. |
| `Requests.DefaultRequest` | CleanArchitecture.Domain/Shared/Pagination/PagedRequest.cs:14-61 | A default request has page 1, size 10, no sort column, ascending order and exact count. |
| `Text.FoldIdempotent` | CleanArchitecture.Application/Common/Pagination/IQueryableOrderingExtensions.cs:40-42 | Case folding is idempotent: an upper-cased name equals its original ignoring case. |
| `Sorting.OrderByKey` | CleanArchitecture.Application/Common/Pagination/IQueryableOrderingExtensions.cs:73-89 | The result is sorted by the key (non-decreasing ascending, non-increasing descending) and is a permutation of the rows. |
| `Sorting.SortedPermutationUnique` | CleanArchitecture.Application/Common/Pagination/IQueryablePagingExtensions.cs:31-38 | When the key tells rows apart, two sorted arrangements of the same rows are equal. This is why ordering gives reproducible page boundaries. |
| `Ordering.FindByName` | CleanArchitecture.Application/Common/Pagination/IQueryableOrderingExtensions.cs:50-53 | Finds a member exactly when some member's name equals the requested name ignoring case. The key found is that member's key. |
| `Ordering.FindMember` | CleanArchitecture.Application/Common/Pagination/IQueryableOrderingExtensions.cs:50-56 | Finds a member exactly when a property or a field matches ignoring case. A matching property wins over any field of the same name. |
| `Ordering.OrderBySafe` | CleanArchitecture.Application/Common/Pagination/IQueryableOrderingExtensions.cs:25-90 | Always returns the same rows. If the name is blank, not whitelisted or not a member, the source comes back unchanged. Otherwise the rows are sorted by the member's key in the requested direction. |
| `Ordering.WhitelistContains` | CleanArchitecture.Application/Common/Pagination/IQueryableOrderingExtensions.cs:37-44 | A plain list of names is copied into a case-insensitive set, so a name passes exactly when its folded spelling is among the entries' folded spellings. A HashSet keeps its own comparer: an ordinal set admits exactly its elements, and an ignore-case set admits by folded spelling. |
| `Ordering.UpperCasedEntryIsWhitelisted` | CleanArchitecture.Application/Common/Pagination/IQueryableOrderingExtensions.cs:40-44 | Every entry of a plain whitelist admits both its own spelling and its upper-cased spelling. |
| `Ordering.WhitelistPresence` | CleanArchitecture.Application/Common/Pagination/IQueryableOrderingExtensions.cs:37-45 | An empty whitelist rejects every column. No whitelist skips the check, leaving only the blank and member tests. |
| `Ordering.NamesWhitelistIgnoresCase` | CleanArchitecture.Application/Common/Pagination/IQueryableOrderingExtensions.cs:40-44 | A whitelist that is not a HashSet gives the same answer for names that differ only in case. |
| `Ordering.CaseDifferentSpelling` | CleanArchitecture.Application/Common/Pagination/IQueryableOrderingExtensions.cs:40-44 | "name" matches "Name" in a plain whitelist. A HashSet with the ordinal comparer rejects it, because it keeps its own case-sensitive comparer. |
| `Ordering.OrderBySafeDeterministic` | CleanArchitecture.Application/Common/Pagination/IQueryableOrderingExtensions.cs:73-89 | For an accepted column whose key tells rows apart, the result does not depend on the order the rows arrived in. |
| `Paging.PageOffset` | CleanArchitecture.Application/Common/Pagination/IQueryablePagingExtensions.cs:46 | The number of rows skipped, (p−1)·s, is never negative for p, s ≥ 1. |
| `Paging.PageSlice` | CleanArchitecture.Application/Common/Pagination/IQueryablePagingExtensions.cs:46-47 | A page holds at most s rows. It is empty exactly when the offset reaches the end, so a page past the end is empty, not an error. |
| `Paging.OrderedQuery` | CleanArchitecture.Application/Common/Pagination/IQueryablePagingExtensions.cs:31-38 | Keeps exactly the rows of the query, so COUNT over the ordered query is the row count. The column is chosen by priority: the requested one with Desc, else the default with defaultDesc, else "Id" ascending. If that column is accepted, the rows are sorted by its key in that direction. If it is rejected, the rows are returned as they came. |
| `Paging.ExpectedPage` | CleanArchitecture.Application/Common/Pagination/IQueryablePagingExtensions.cs:19-88 | The metadata holds the normalized page number (≥ 1) and size (in [1,100]). The page has at most that many rows. A total is present exactly when it was requested. |
| `Paging.SkipTakeIsPage` | CleanArchitecture.Application/Common/Pagination/IQueryablePagingExtensions.cs:112-117 | Skip((p−1)·s) then Take(s) is exactly the reference page slice. |
| `Paging.OverFetchTrimIsPage` | CleanArchitecture.Application/Common/Pagination/IQueryablePagingExtensions.cs:65-73 | Taking s+1 rows and trimming to s when more than s arrive gives exactly the page. The extra row arrives exactly when rows remain after the page. |
| `Paging.SelectTake` | CleanArchitecture.Application/Common/Pagination/IQueryablePagingExtensions.cs:65-72 | Projecting then trimming equals trimming then projecting, so the projected over-fetch page is the projection of the page. |
| `Paging.ToPaginatedResultProjected` | CleanArchitecture.Application/Common/Pagination/IQueryablePagingExtensions.cs:19-88 | In both strategies the items are the selector mapped over the normalized page of the ordered rows. The metadata is the normalized page number and size, plus the row count when counting (None when over-fetching). |
| `Paging.ToPaginatedResult` | CleanArchitecture.Application/Common/Pagination/IQueryablePagingExtensions.cs:93-152 | In both strategies the result is the normalized page of the ordered rows with the same metadata. |
| `Paging.ToPaginatedResultOfPage` | CleanArchitecture.Application/Common/Pagination/IQueryablePagingExtensions.cs:154-174 | Equals the request overload applied to a request carrying the raw arguments. Called with its defaults (no sort column, ascending, exact count), it pages exactly like a default request with the given page number and size. |
| `Paging.FullPagesBeforeLast` | CleanArchitecture.Application/Common/Pagination/IQueryablePagingExtensions.cs:46-47 | Every page before the last one holds exactly s rows. |
| `Paging.PagesArePrefix` | CleanArchitecture.Application/Common/Pagination/IQueryablePagingExtensions.cs:46-47 | For one fixed ordered sequence, pages 1..k concatenated are its first min(k·s, n) rows, so consecutive pages are adjacent slices. |
| `Paging.AllPagesReproduceRows` | CleanArchitecture.Application/Common/Pagination/IQueryablePagingExtensions.cs:115-116 | For one fixed ordered sequence, concatenating pages 1..TotalPages reproduces it exactly. |
| `Paging.PagesDoNotOverlap` | CleanArchitecture.Application/Common/Pagination/IQueryablePagingExtensions.cs:46-47 | Index arithmetic: an earlier page's clipped end index is at or before a later page's clipped start index. |
| `Paging.PagesShareNoRow` | CleanArchitecture.Application/Common/Pagination/IQueryablePagingExtensions.cs:46-47 | In one fixed sequence without duplicate rows, two different pages share no row. |
| `Paging.ProbeAgreesWithCount` | CleanArchitecture.Application/Common/Pagination/IQueryablePagingExtensions.cs:71-76 | The over-fetch probe, which is computed and then dropped, equals the HasNext that an exact count would give. |
| `Paging.ExpectedPageShape` | CleanArchitecture.Application/Common/Pagination/IQueryablePagingExtensions.cs:40-86 | Metadata holds Normalize's output, not the raw request. Items are empty exactly past the end. Counting puts the row count in TotalCount. Over-fetching leaves TotalCount, TotalPages and HasNext None. For one fixed store order, both strategies give the same items. |
| `Paging.SortPriority` | CleanArchitecture.Application/Common/Pagination/IQueryablePagingExtensions.cs:32-38 | The column handed to OrderBySafe is never blank: when neither a requested nor a default column is given, "Id" stands in. |
| `Paging.RejectedSortHasNoFallback` | CleanArchitecture.Application/Common/Pagination/IQueryablePagingExtensions.cs:32-33 | A non-blank requested column that is rejected leaves the rows unordered. There is no fallback to the default or to "Id". |
| `Paging.RejectedDefaultHasNoFallback` | CleanArchitecture.Application/Common/Pagination/IQueryablePagingExtensions.cs:34-35 | With a blank requested column and a non-blank default that is rejected, the rows stay unordered: "Id" is not tried. |
| `Paging.IdFallbackIsWhitelisted` | CleanArchitecture.Application/Common/Pagination/IQueryablePagingExtensions.cs:36-38 | With neither column given, a whitelist that lacks "Id" leaves the rows unordered. |
| `Paging.IdFallbackOrdersById` | CleanArchitecture.Application/Common/Pagination/IQueryablePagingExtensions.cs:36-38 | With neither a requested nor a default column, an accepted "Id" sorts the rows by identity, ascending. |
| `Paging.SameRowsSamePage` | CleanArchitecture.Application/Common/Pagination/IQueryablePagingExtensions.cs:31-38 | With an accepted column whose key tells rows apart, the page and metadata do not depend on the order the store returns rows in. |
| `Paging.SuccessivePagesShareNoRow` | CleanArchitecture.Application/Common/Pagination/IQueryablePagingExtensions.cs:31-47 | Two requests that differ only in a later page number share no row, even if the store returns the rows in a different order the second time. This holds when the chosen column is accepted, its key tells rows apart, and no row is duplicated. |
| `Paging.TwentyThreeRowsInPagesOfTen` | CleanArchitecture.Application/Common/Pagination/IQueryablePagingExtensions.cs:40-86 | For 23 rows in pages of 10, pages hold 10, 10 and 3 rows and there are 3 pages. HasNext is true on pages 1–2 and HasPrevious is false only on page 1. Over-fetching gives the same sizes with no totals, and the probe sees an extra row on pages 1–2 only. |

## Left out

- Reflection and expression trees (`GetProperty`/`GetField`, `Expression.Lambda`, `MakeGenericMethod`, `Invoke`) are replaced by the `TypeMembers` table of named key extractors.
- `Ordering.FindByName`: when two members' names differ only in case, .NET throws `AmbiguousMatchException`. The model takes the first match in declaration order instead. This is a runtime behaviour of reflection.
- Member values of every type (string, date, number) are modelled as `int` keys, compared with the integer order. A database collation's ordering of strings is not modelled.
- `Sorting.OrderByKey` is a stable sort. SQL `ORDER BY` does not promise any order among rows with equal keys. The determinism lemmas therefore assume a key that tells rows apart.
- The order in which the store returns rows is modelled as one fixed sequence, the `query` argument. When no column is accepted, the source applies Skip/Take with no ORDER BY. This happens when the requested column is blank or rejected, the default is blank or rejected, or "Id" is missing from the type or the whitelist. SQL then gives no defined order, so separate requests can repeat or skip rows, and the two strategies can return different items. `Paging.PagesArePrefix`, `Paging.AllPagesReproduceRows`, `Paging.PagesShareNoRow` and `Paging.ExpectedPageShape` describe one fixed order only. Only `Paging.SameRowsSamePage` and `Paging.SuccessivePagesShareNoRow` hold across calls whose store order differs, and only under an accepted column whose key tells rows apart.
- `Text.Fold` upper-cases ASCII letters only. The non-ASCII simple case mapping of `OrdinalIgnoreCase` is not modelled.
- A whitelist HashSet is modelled with either the ordinal or the ordinal-ignore-case comparer. Custom comparers and null entries are not modelled.
- Async execution is not modelled: EF Core translation, `CountAsync`/`ToListAsync`, `CancellationToken` and data-source failures. Each round trip is a pure operation on the sequence of rows.
- `Meta.TotalPages`: `Math.Ceiling` on `double` is modelled as integer ceiling division, which gives the same value for 32-bit operands. A known total with a page size ≤ 0 is outside the model. With size 0 the source divides by zero (±∞ or NaN, then an unspecified int cast). With a negative size it yields a non-positive page count (23 rows, size −10 give −2 pages). Neither arises, since Normalize raises the size to at least 1 before any `PageMeta` with a total is built.
- The model uses unbounded integers. C# unchecked 32-bit overflow of `(pageNumber - 1) * pageSize` for very large page numbers is not modelled.
- Immutability of `PagedRequest`, `PageMeta` and `PaginatedResult` (init-only properties) holds by construction: they are Dafny datatypes, which are values.
- The car service, authentication, validators, dependency-injection wiring, middleware, e-mail settings and the MediatR query handler are not part of this model. They are persistence, identity, configuration or library wiring with no paging logic.
