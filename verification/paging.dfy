/** `Skip` / `Take` paging as the repositories run it, and the page
    metadata the controllers return (`totalPages`, `hasPrevious`,
    `hasNext`). Every paged query runs in SQLite through EF Core, which
    turns `Skip(n)` into `OFFSET n` (a negative offset counts as 0) and
    `Take(n)` into `LIMIT n` (a negative limit means no limit).
    `Math.Ceiling` over doubles is replaced by integer ceiling division. */
module Paging {

  /** `Enumerable.Skip(n)`: a negative count skips nothing, a count past the
      end leaves nothing. */
  function Skip<T>(xs: seq<T>, n: int): (r: seq<T>)
    ensures |r| == if n <= 0 then |xs| else if n >= |xs| then 0 else |xs| - n
    ensures r == xs[|xs| - |r|..]
  {
    if n <= 0 then xs else if n >= |xs| then [] else xs[n..]
  }

  /** `Enumerable.Take(n)`: a non-positive count takes nothing. */
  function Take<T>(xs: seq<T>, n: int): (r: seq<T>)
    ensures |r| == if n <= 0 then 0 else if n >= |xs| then |xs| else n
    ensures r == xs[..|r|]
  {
    if n <= 0 then [] else if n >= |xs| then xs else xs[..n]
  }

  /** `LIMIT n`: a negative limit keeps everything; otherwise as `Take`. */
  function Limit<T>(xs: seq<T>, n: int): (r: seq<T>)
    ensures n < 0 ==> r == xs
    ensures n >= 0 ==> r == Take(xs, n)
  {
    if n < 0 then xs else Take(xs, n)
  }

  /** Number of items before page `page` (pages are numbered from 1). */
  function Offset(page: int, pageSize: int): int {
    (page - 1) * pageSize
  }

  /** `Skip((page - 1) * pageSize).Take(pageSize)` with unbounded
      arithmetic. */
  function Page<T>(xs: seq<T>, page: int, pageSize: int): seq<T> {
    Limit(Skip(xs, Offset(page, pageSize)), pageSize)
  }

  /** `(int)Math.Ceiling((double)count / pageSize)`: the least number of
      pages of `pageSize` items that hold `count` items. */
  function TotalPages(count: nat, pageSize: int): (r: nat)
    requires pageSize > 0
    ensures r * pageSize >= count
    ensures r == 0 || (r - 1) * pageSize < count
  {
    (count + pageSize - 1) / pageSize
  }

  predicate HasPrevious(page: int) {
    page > 1
  }

  predicate HasNext(page: int, totalPages: int) {
    page < totalPages
  }

  /** The pagination block of a search reply. */
  datatype PageInfo = PageInfo(page: int, pageSize: int, totalCount: nat, totalPages: nat,
                               hasPrevious: bool, hasNext: bool)

  /** The block for page `page` of a result of `count` items. */
  function Info(page: int, pageSize: int, count: nat): PageInfo
    requires pageSize > 0
  {
    var pages := TotalPages(count, pageSize);
    PageInfo(page, pageSize, count, pages, HasPrevious(page), HasNext(page, pages))
  }

  /** A page is the contiguous slice of the list that starts at the page's
      offset, holding at most `pageSize` items. */
  lemma PageIsSlice<T>(xs: seq<T>, page: int, pageSize: int)
    requires page >= 1 && pageSize > 0
    ensures var lo := if Offset(page, pageSize) < |xs| then Offset(page, pageSize) else |xs|;
      var hi := if lo + pageSize < |xs| then lo + pageSize else |xs|;
      Page(xs, page, pageSize) == xs[lo..hi]
    ensures |Page(xs, page, pageSize)| <= pageSize
  {
    MulMono(0, page - 1, pageSize);
  }

  /** Multiplying by a non-negative number keeps the order. */
  lemma MulMono(a: int, b: int, c: int)
    requires a <= b && c >= 0
    ensures a * c <= b * c
  {
    assert b * c - a * c == (b - a) * c;
  }

  /** There is a page exactly when there is an item. */
  lemma SomePagesIffItems(count: nat, pageSize: int)
    requires pageSize > 0
    ensures TotalPages(count, pageSize) > 0 <==> count > 0
  {
    var n := TotalPages(count, pageSize);
    if n > 0 {
      MulMono(0, n - 1, pageSize);
    }
  }

  /** A page past the last one is empty, and every page up to the last one
      holds something. */
  lemma PageNonEmptyIff<T>(xs: seq<T>, page: int, pageSize: int)
    requires page >= 1 && pageSize > 0
    ensures Page(xs, page, pageSize) != [] <==> page <= TotalPages(|xs|, pageSize)
  {
    var off := Offset(page, pageSize);
    var n := TotalPages(|xs|, pageSize);
    MulMono(0, page - 1, pageSize);
    if page <= n {
      MulMono(page - 1, n - 1, pageSize);
      assert off < |xs|;
    } else {
      MulMono(n, page - 1, pageSize);
      assert off >= |xs|;
    }
  }

  /** A page holds at most `pageSize` items unless the size is negative,
      when it runs to the end of the list. */
  lemma PageSize<T>(xs: seq<T>, page: int, pageSize: int)
    ensures pageSize >= 0 ==> |Page(xs, page, pageSize)| <= pageSize
    ensures pageSize < 0 && page == 1 ==> Page(xs, page, pageSize) == xs
  {
  }

  /** The first page is the first `pageSize` items. */
  lemma FirstPageIsTake<T>(xs: seq<T>, pageSize: int)
    requires pageSize >= 0
    ensures Page(xs, 1, pageSize) == Take(xs, pageSize)
  {
    assert Offset(1, pageSize) == 0;
  }

  /** `hasNext` is true exactly when items remain after the current page. */
  lemma HasNextIffMoreItems(count: nat, page: int, pageSize: int)
    requires page >= 1 && pageSize > 0
    ensures HasNext(page, TotalPages(count, pageSize)) <==> count > page * pageSize
  {
    var n := TotalPages(count, pageSize);
    if page < n {
      MulMono(page, n - 1, pageSize);
    } else {
      MulMono(n, page, pageSize);
    }
  }

  /** Item `i` of the list is item `i % pageSize` of page `i / pageSize + 1`,
      so paging through all pages visits every item. */
  lemma ItemOnItsPage<T>(xs: seq<T>, i: int, pageSize: int)
    requires 0 <= i < |xs| && pageSize > 0
    ensures var p := Page(xs, i / pageSize + 1, pageSize);
      i % pageSize < |p| && p[i % pageSize] == xs[i]
  {
    var q := i / pageSize;
    var m := i % pageSize;
    assert q * pageSize + m == i;
    MulMono(0, q, pageSize);
    assert Offset(q + 1, pageSize) == q * pageSize;
    var skipped := Skip(xs, q * pageSize);
    assert skipped == xs[q * pageSize..];
    assert skipped[m] == xs[i];
  }

  // ---------------------------------------------------------------------
  // The same computation in 32-bit `int` arithmetic
  // ---------------------------------------------------------------------

  const Int32Min: int := -0x8000_0000
  const Int32Max: int := 0x7FFF_FFFF

  /** Two's-complement wrap-around of unchecked C# `int` arithmetic. */
  function Wrap32(x: int): (r: int)
    ensures Int32Min <= r <= Int32Max
    ensures (r - x) % 0x1_0000_0000 == 0
    ensures Int32Min <= x <= Int32Max ==> r == x
  {
    (x - Int32Min) % 0x1_0000_0000 + Int32Min
  }

  /** `(page - 1) * pageSize` evaluated in `int`. */
  function OffsetAsWritten(page: int, pageSize: int): int {
    Wrap32(Wrap32(page - 1) * pageSize)
  }

  /** `Skip((page - 1) * pageSize).Take(pageSize)` as the repositories write
      it, with the multiplication in `int`. */
  function PageAsWritten<T>(xs: seq<T>, page: int, pageSize: int): seq<T> {
    Limit(Skip(xs, OffsetAsWritten(page, pageSize)), pageSize)
  }

  /** While the offset fits in an `int` the two agree. */
  lemma AsWrittenAgreesWithoutOverflow<T>(xs: seq<T>, page: int, pageSize: int)
    requires 1 <= page <= Int32Max && 0 < pageSize
    requires Offset(page, pageSize) <= Int32Max
    ensures PageAsWritten(xs, page, pageSize) == Page(xs, page, pageSize)
  {
    assert 0 <= page - 1 <= Int32Max;
    assert (page - 1) * pageSize >= 0;
  }

  /** Page 21474838 of 100 items a page passes every controller check
      (page >= 1, pageSize in 1..100), but its offset 2147483700 wraps to
      -2147483596, so the repositories return the FIRST page where the
      list holds nothing past that offset. */
  lemma OffsetOverflowReturnsFirstPage<T>(x: T)
    ensures OffsetAsWritten(21474838, 100) == -2147483596
    ensures PageAsWritten([x], 21474838, 100) == [x]
    ensures Page([x], 21474838, 100) == []
  {
  }
}
