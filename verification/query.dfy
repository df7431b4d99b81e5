/** The LINQ operators the repositories chain together before a query runs:
    `Where` filters, `OrderBy` sorts (see `Ordering`), `Skip`/`Take` page
    (see `Paging`), `Count` and `Any` aggregate. A table is a sequence of
    rows in storage order. */
module Query {
  import opened Common
  import opened Ordering
  import Paging

  /** `Where(p)`: the rows satisfying `p`, in their original order. */
  function Where<T(!new)>(xs: seq<T>, p: T -> bool): (r: seq<T>)
    ensures |r| <= |xs|
    ensures forall i :: 0 <= i < |r| ==> p(r[i])
    ensures forall x :: x in r <==> x in xs && p(x)
  {
    if xs == [] then []
    else if p(xs[0]) then [xs[0]] + Where(xs[1..], p)
    else Where(xs[1..], p)
  }

  /** `Any(p)`: some row satisfies `p`. */
  predicate Any<T>(xs: seq<T>, p: T -> bool) {
    exists i :: 0 <= i < |xs| && p(xs[i])
  }

  /** `FirstOrDefault(p)` on an unordered query: the first stored row that
      satisfies `p`, if any. */
  function FirstWhere<T>(xs: seq<T>, p: T -> bool): (r: Option<T>)
    ensures r.Some? ==> r.value in xs && p(r.value)
    ensures r.None? <==> !Any(xs, p)
  {
    if xs == [] then None
    else if p(xs[0]) then Some(xs[0])
    else
      var r := FirstWhere(xs[1..], p);
      assert Any(xs, p) ==> Any(xs[1..], p) by {
        if Any(xs, p) {
          var i :| 0 <= i < |xs| && p(xs[i]);
          assert i > 0 && p(xs[1..][i - 1]);
        }
      }
      r
  }

  /** An update of the rows satisfying `p`: each becomes `y`, every other
      row stays where it was. */
  function ReplaceWhere<T(!new)>(xs: seq<T>, p: T -> bool, y: T): (r: seq<T>)
    ensures |r| == |xs|
    ensures forall x :: x in r <==> (x == y && Any(xs, p)) || (x in xs && !p(x))
  {
    var r := seq(|xs|, i requires 0 <= i < |xs| => if p(xs[i]) then y else xs[i]);
    assert forall x :: x in r <==> (x == y && Any(xs, p)) || (x in xs && !p(x)) by {
      forall x ensures x in r <==> (x == y && Any(xs, p)) || (x in xs && !p(x)) {
        if x in xs && !p(x) {
          var i :| 0 <= i < |xs| && xs[i] == x;
          assert r[i] == x;
        }
        if x == y && Any(xs, p) {
          var i :| 0 <= i < |xs| && p(xs[i]);
          assert r[i] == y;
        }
      }
    }
    r
  }

  /** A search term as the repositories prepare it in .NET before the query
      is sent: `Trim().ToLower()`. */
  function Term(s: string): string {
    Lower(Trim(s))
  }

  /** The same term prepared the other way round: `ToLower().Trim()`. */
  function TermLowerFirst(s: string): string {
    Trim(Lower(s))
  }

  // ---------------------------------------------------------------------
  // Properties
  // ---------------------------------------------------------------------

  /** Two filters in a row keep what their conjunction keeps. */
  lemma {:induction false} WhereWhere<T(!new)>(xs: seq<T>, p: T -> bool, q: T -> bool)
    ensures Where(Where(xs, p), q) == Where(xs, x => p(x) && q(x))
  {
    if xs != [] {
      WhereWhere(xs[1..], p, q);
      if p(xs[0]) {
        assert Where(xs, p) == [xs[0]] + Where(xs[1..], p);
        assert ([xs[0]] + Where(xs[1..], p))[1..] == Where(xs[1..], p);
      }
    }
  }

  /** A row is counted exactly when some row satisfies the filter: the count
      is positive iff `Any` holds. */
  lemma {:induction false} CountPositiveIffAny<T(!new)>(xs: seq<T>, p: T -> bool)
    ensures |Where(xs, p)| > 0 <==> Any(xs, p)
  {
    if xs != [] {
      CountPositiveIffAny(xs[1..], p);
      if Any(xs[1..], p) {
        var i :| 0 <= i < |xs[1..]| && p(xs[1..][i]);
        assert p(xs[i + 1]);
      }
      if Any(xs, p) && !p(xs[0]) {
        var i :| 0 <= i < |xs| && p(xs[i]);
        assert p(xs[1..][i - 1]);
      }
    }
  }

  /** Any contiguous slice of a sorted list is sorted. */
  lemma SliceOfSorted<T>(xs: seq<T>, key: T -> Key, lo: int, hi: int)
    requires SortedBy(xs, key) && 0 <= lo <= hi <= |xs|
    ensures SortedBy(xs[lo..hi], key)
  {
    forall i, j | 0 <= i < j < hi - lo
      ensures Le(key(xs[lo..hi][i]), key(xs[lo..hi][j]))
    {
      assert xs[lo..hi][i] == xs[lo + i] && xs[lo..hi][j] == xs[lo + j];
    }
  }

  /** A page of a sorted, filtered list is sorted, and every row on it is a
      row of the table that passes the filter. */
  lemma PageOfSortedQuery<T(!new)>(xs: seq<T>, p: T -> bool, key: T -> Key, page: int, pageSize: int)
    ensures var sorted := SortBy(Where(xs, p), key);
      var r := Paging.Page(sorted, page, pageSize);
      && SortedBy(r, key)
      && (forall x :: x in r ==> x in xs && p(x))
      && (pageSize >= 0 ==> |r| <= pageSize)
  {
    var sorted := SortBy(Where(xs, p), key);
    var skipped := Paging.Skip(sorted, Paging.Offset(page, pageSize));
    var r := Paging.Page(sorted, page, pageSize);
    SliceOfSorted(sorted, key, |sorted| - |skipped|, |sorted|);
    assert r == skipped[..|r|];
    SliceOfSorted(skipped, key, 0, |r|);
    forall x | x in r ensures x in xs && p(x) {
      assert x in skipped;
      assert x in sorted;
      SortKeepsElements(Where(xs, p), key, x);
    }
    Paging.PageSize(sorted, page, pageSize);
  }

  /** A search as the repositories run it: filter, sort, then one page.
      Every row on the page is a stored row that passes the filter, the page
      is in key order, and it is no longer than the page size. */
  function Search<T(!new)>(xs: seq<T>, p: T -> bool, key: T -> Key, page: int, pageSize: int): (r: seq<T>)
    ensures forall i :: 0 <= i < |r| ==> r[i] in xs && p(r[i])
    ensures SortedBy(r, key)
    ensures pageSize >= 0 ==> |r| <= pageSize
  {
    var r := Paging.Page(SortBy(Where(xs, p), key), page, pageSize);
    PageOfSortedQuery(xs, p, key, page, pageSize);
    assert forall i :: 0 <= i < |r| ==> r[i] in r;
    r
  }

  /** The search with the offset `(page - 1) * pageSize` computed in 32-bit
      `int`, as the repositories write it. */
  function SearchAsWritten<T(!new)>(xs: seq<T>, p: T -> bool, key: T -> Key, page: int, pageSize: int): seq<T> {
    Paging.PageAsWritten(SortBy(Where(xs, p), key), page, pageSize)
  }

  /** Nothing that matches is lost: every stored row that passes the filter
      has a place `i` among the sorted matches, and it is row `i % pageSize`
      of page `i / pageSize + 1` of the search. */
  lemma SearchFindsEveryMatch<T(!new)>(xs: seq<T>, p: T -> bool, key: T -> Key, x: T, pageSize: int)
    returns (i: int)
    requires x in xs && p(x) && pageSize > 0
    ensures 0 <= i < |Where(xs, p)| && SortBy(Where(xs, p), key)[i] == x
    ensures var r := Search(xs, p, key, i / pageSize + 1, pageSize);
      i % pageSize < |r| && r[i % pageSize] == x
  {
    var sorted := SortBy(Where(xs, p), key);
    SortKeepsElements(Where(xs, p), key, x);
    i :| 0 <= i < |sorted| && sorted[i] == x;
    Paging.ItemOnItsPage(sorted, i, pageSize);
  }

  /** A page whose 32-bit offset wraps to zero or below is, as written, the
      first page again. */
  lemma WrappedSearchShowsFirstPage<T(!new)>(xs: seq<T>, p: T -> bool, key: T -> Key, page: int, pageSize: int)
    requires Paging.OffsetAsWritten(page, pageSize) <= 0
    ensures SearchAsWritten(xs, p, key, page, pageSize) == Search(xs, p, key, 1, pageSize)
  {
  }

  /** A term with no white space at either end is only lower-cased, in
      either order of preparation, and is not blank. */
  lemma TrimmedTerm(s: string)
    requires s != [] && !IsWhiteSpace(s[0]) && !IsWhiteSpace(s[|s| - 1])
    ensures Term(s) == Lower(s) && TermLowerFirst(s) == Lower(s)
    ensures !IsNullOrWhiteSpace(Some(s))
  {
    TrimStartKeeps(s);
    TrimEndKeeps(s);
    TermOrderIrrelevant(s);
    assert !AllWhiteSpace(s) by {
      assert !IsWhiteSpace(s[0]);
    }
  }

  lemma TrimStartKeeps(s: string)
    requires s != [] && !IsWhiteSpace(s[0])
    ensures TrimStart(s) == s
  {
  }

  lemma TrimEndKeeps(s: string)
    requires s != [] && !IsWhiteSpace(s[|s| - 1])
    ensures TrimEnd(s) == s
  {
  }

  /** Lower-casing never creates or removes white space. */
  lemma LowerKeepsWhiteSpace(c: char)
    ensures IsWhiteSpace(LowerChar(c)) <==> IsWhiteSpace(c)
  {
  }

  lemma {:induction false} TrimStartLower(s: string)
    ensures TrimStart(Lower(s)) == Lower(TrimStart(s))
    decreases |s|
  {
    if |s| > 0 {
      LowerKeepsWhiteSpace(s[0]);
      if IsWhiteSpace(s[0]) {
        assert Lower(s)[1..] == Lower(s[1..]);
        TrimStartLower(s[1..]);
      }
    }
  }

  lemma {:induction false} TrimEndLower(s: string)
    ensures TrimEnd(Lower(s)) == Lower(TrimEnd(s))
    decreases |s|
  {
    if |s| > 0 {
      LowerKeepsWhiteSpace(s[|s| - 1]);
      if IsWhiteSpace(s[|s| - 1]) {
        assert Lower(s)[..|s| - 1] == Lower(s[..|s| - 1]);
        TrimEndLower(s[..|s| - 1]);
      }
    }
  }

  /** Trimming and lower-casing commute, so the two orders the repositories
      use prepare the same term. */
  lemma TermOrderIrrelevant(s: string)
    ensures TermLowerFirst(s) == Term(s)
  {
    TrimStartLower(s);
    TrimEndLower(TrimStart(s));
  }
}
