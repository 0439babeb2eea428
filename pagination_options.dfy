/** System-wide paging bounds and the clamping of raw paging parameters. */
module PaginationOptions {

  /** The smallest page number: pages are numbered from 1. */
  const MinPageNumber: int := 1
  /** The smallest page size. */
  const MinPageSize: int := 1
  /** The largest page size, so that a page never fetches an unbounded number of rows. */
  const MaxPageSize: int := 100

  function Max(a: int, b: int): int { if a < b then b else a }
  function Min(a: int, b: int): int { if a < b then a else b }

  /** Reference definition of the normalized page number: max(pageNumber, 1). */
  function ClampPageNumber(pageNumber: int): int {
    Max(pageNumber, MinPageNumber)
  }

  /** Reference definition of the normalized page size: clamp(pageSize, 1, 100). */
  function ClampPageSize(pageSize: int): int {
    Min(Max(pageSize, MinPageSize), MaxPageSize)
  }

  /**
   * Normalize: raises a page number below the minimum to the minimum and pulls
   * a page size into [MinPageSize, MaxPageSize], one `if` at a time.
   */
  method Normalize(pageNumber: int, pageSize: int) returns (normalizedPageNumber: int, normalizedPageSize: int)
    ensures normalizedPageNumber >= MinPageNumber
    ensures pageNumber >= MinPageNumber ==> normalizedPageNumber == pageNumber
    ensures pageNumber < MinPageNumber ==> normalizedPageNumber == MinPageNumber
    ensures MinPageSize <= normalizedPageSize <= MaxPageSize
    ensures MinPageSize <= pageSize <= MaxPageSize ==> normalizedPageSize == pageSize
    ensures pageSize < MinPageSize ==> normalizedPageSize == MinPageSize
    ensures pageSize > MaxPageSize ==> normalizedPageSize == MaxPageSize
    ensures normalizedPageNumber == ClampPageNumber(pageNumber)
    ensures normalizedPageSize == ClampPageSize(pageSize)
  {
    normalizedPageNumber, normalizedPageSize := pageNumber, pageSize;
    if normalizedPageNumber < MinPageNumber {
      normalizedPageNumber := MinPageNumber;
    }
    if normalizedPageSize < MinPageSize {
      normalizedPageSize := MinPageSize;
    }
    if normalizedPageSize > MaxPageSize {
      normalizedPageSize := MaxPageSize;
    }
  }

  /** A clamped pair is left as it is by a second clamping. */
  lemma NormalizeIdempotent(pageNumber: int, pageSize: int)
    ensures ClampPageNumber(ClampPageNumber(pageNumber)) == ClampPageNumber(pageNumber)
    ensures ClampPageSize(ClampPageSize(pageSize)) == ClampPageSize(pageSize)
  {
  }

  /** The normalized values are exactly the in-range ones: a pair is a fixed point iff it is in range. */
  lemma NormalizeFixedPoints(pageNumber: int, pageSize: int)
    ensures ClampPageNumber(pageNumber) == pageNumber <==> pageNumber >= MinPageNumber
    ensures ClampPageSize(pageSize) == pageSize <==> MinPageSize <= pageSize <= MaxPageSize
  {
  }
}
