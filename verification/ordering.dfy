/** Sort keys and the `OrderBy` / `OrderByDescending` / `ThenBy` chains the
    repositories and controllers build. A sort is described by a function
    from an entity to a `Key`; keys are compared by a total order, and a
    sorted result is a permutation of its input whose keys never decrease. */
module Ordering {
  import opened Common

  /** A sort key. `Null` is a missing nullable value (sorted first, as the
      database does for ascending order), `Pair` is an `OrderBy(..).ThenBy(..)`
      chain and `Desc` reverses the order of the key it wraps. */
  datatype Key = Null | Num(n: int) | Str(s: string) | Pair(fst: Key, snd: Key) | Desc(k: Key)

  /** Requested direction of a sort. */
  datatype Direction = Ascending | Descending

  /** Applies a direction to a key. */
  function Directed(k: Key, d: Direction): Key {
    if d == Descending then Desc(k) else k
  }

  function Rank(k: Key): int {
    match k
    case Null => 0
    case Num(_) => 1
    case Str(_) => 2
    case Pair(_, _) => 3
    case Desc(_) => 4
  }

  function Size(k: Key): nat {
    match k
    case Pair(a, b) => 1 + Size(a) + Size(b)
    case Desc(a) => 1 + Size(a)
    case _ => 1
  }

  function Sign(x: int): int {
    if x < 0 then -1 else if x > 0 then 1 else 0
  }

  /** Ordinal (code-point) comparison of two strings: -1, 0 or 1. */
  function StrCmp(a: string, b: string): int {
    if a == [] && b == [] then 0
    else if a == [] then -1
    else if b == [] then 1
    else if a[0] < b[0] then -1
    else if a[0] > b[0] then 1
    else StrCmp(a[1..], b[1..])
  }

  /** Three-way comparison of keys. */
  function Cmp(a: Key, b: Key): int {
    match (a, b)
    case (Null, Null) => 0
    case (Num(x), Num(y)) => Sign(x - y)
    case (Str(x), Str(y)) => StrCmp(x, y)
    case (Pair(a1, a2), Pair(b1, b2)) =>
      var c := Cmp(a1, b1);
      if c != 0 then c else Cmp(a2, b2)
    case (Desc(x), Desc(y)) => -Cmp(x, y)
    case _ => Sign(Rank(a) - Rank(b))
  }

  /** `a` may come before `b`. */
  predicate Le(a: Key, b: Key) {
    Cmp(a, b) <= 0
  }

  // ---------------------------------------------------------------------
  // Cmp is a total order
  // ---------------------------------------------------------------------

  lemma {:induction false} StrCmpFacts(a: string, b: string)
    ensures -1 <= StrCmp(a, b) <= 1
    ensures StrCmp(a, b) == -StrCmp(b, a)
    ensures StrCmp(a, b) == 0 <==> a == b
    decreases |a|
  {
    if a != [] && b != [] && a[0] == b[0] {
      StrCmpFacts(a[1..], b[1..]);
      if a[1..] == b[1..] {
        assert a == [a[0]] + a[1..] && b == [b[0]] + b[1..];
      }
    }
  }

  lemma {:induction false} StrCmpTrans(a: string, b: string, c: string)
    requires StrCmp(a, b) <= 0 && StrCmp(b, c) <= 0
    ensures StrCmp(a, c) <= 0
    decreases |a|
  {
    if a != [] && b != [] && c != [] && a[0] == b[0] && b[0] == c[0] {
      StrCmpTrans(a[1..], b[1..], c[1..]);
    }
  }

  /** Comparison is anti-symmetric, and only equal keys compare as equal. */
  lemma {:induction false} CmpFacts(a: Key, b: Key)
    ensures -1 <= Cmp(a, b) <= 1
    ensures Cmp(a, b) == -Cmp(b, a)
    ensures Cmp(a, b) == 0 <==> a == b
    decreases a
  {
    match (a, b)
    case (Str(x), Str(y)) => StrCmpFacts(x, y);
    case (Pair(a1, a2), Pair(b1, b2)) =>
      CmpFacts(a1, b1);
      CmpFacts(a2, b2);
    case (Desc(x), Desc(y)) => CmpFacts(x, y);
    case _ =>
  }

  /** `Le` is transitive. */
  lemma {:induction false} CmpTrans(a: Key, b: Key, c: Key)
    requires Le(a, b) && Le(b, c)
    ensures Le(a, c)
    decreases Size(a) + Size(b) + Size(c)
  {
    match (a, b, c)
    case (Str(x), Str(y), Str(z)) => StrCmpTrans(x, y, z);
    case (Pair(a1, a2), Pair(b1, b2), Pair(c1, c2)) =>
      CmpFacts(a1, b1);
      CmpFacts(b1, c1);
      CmpFacts(a1, c1);
      if Cmp(a1, b1) == 0 && Cmp(b1, c1) == 0 {
        CmpTrans(a2, b2, c2);
      } else {
        CmpTrans(a1, b1, c1);
      }
    case (Desc(x), Desc(y), Desc(z)) =>
      CmpFacts(x, y);
      CmpFacts(y, z);
      CmpFacts(x, z);
      CmpTrans(z, y, x);
    case _ =>
  }

  /** `Le` is total: any two keys are ordered one way or the other. */
  lemma LeTotal(a: Key, b: Key)
    ensures Le(a, b) || Le(b, a)
  {
    CmpFacts(a, b);
  }

  // ---------------------------------------------------------------------
  // Sorting
  // ---------------------------------------------------------------------

  /** The keys of `xs` never decrease. */
  predicate SortedBy<T>(xs: seq<T>, key: T -> Key) {
    forall i, j :: 0 <= i < j < |xs| ==> Le(key(xs[i]), key(xs[j]))
  }

  /** Inserts `x` before the first element whose key is greater. */
  function Insert<T>(x: T, xs: seq<T>, key: T -> Key): (r: seq<T>)
    requires SortedBy(xs, key)
    ensures SortedBy(r, key)
    ensures multiset(r) == multiset(xs) + multiset{x}
    ensures |r| == |xs| + 1
  {
    if xs == [] then [x]
    else if Le(key(x), key(xs[0])) then
      PrependSorted(x, xs, key);
      [x] + xs
    else
      var rest := Insert(x, xs[1..], key);
      assert multiset(xs) == multiset{xs[0]} + multiset(xs[1..]) by {
        assert xs == [xs[0]] + xs[1..];
      }
      HeadBeforeRest(x, xs, key, rest);
      [xs[0]] + rest
  }

  /** An element no greater than the head of a sorted list can go first. */
  lemma PrependSorted<T>(x: T, xs: seq<T>, key: T -> Key)
    requires SortedBy(xs, key) && xs != [] && Le(key(x), key(xs[0]))
    ensures SortedBy([x] + xs, key)
  {
    forall j | 0 < j < |xs| + 1 ensures Le(key(x), key(([x] + xs)[j])) {
      if j > 1 {
        CmpTrans(key(x), key(xs[0]), key(xs[j - 1]));
      }
    }
  }

  /** When `x` goes after the head, the head stays no greater than anything
      in the rest with `x` inserted. */
  lemma HeadBeforeRest<T>(x: T, xs: seq<T>, key: T -> Key, rest: seq<T>)
    requires SortedBy(xs, key) && xs != [] && !Le(key(x), key(xs[0]))
    requires multiset(rest) == multiset(xs[1..]) + multiset{x}
    ensures forall k :: 0 <= k < |rest| ==> Le(key(xs[0]), key(rest[k]))
  {
    LeTotal(key(x), key(xs[0]));
    forall k | 0 <= k < |rest| ensures Le(key(xs[0]), key(rest[k])) {
      assert rest[k] in multiset(rest);
      assert rest[k] == x || rest[k] in multiset(xs[1..]);
      if rest[k] != x {
        var m :| 1 <= m < |xs| && xs[m] == rest[k];
      }
    }
  }

  /** `OrderBy(key)`: a permutation of `xs` in non-decreasing key order. */
  function SortBy<T>(xs: seq<T>, key: T -> Key): (r: seq<T>)
    ensures SortedBy(r, key)
    ensures multiset(r) == multiset(xs)
    ensures |r| == |xs|
  {
    if xs == [] then []
    else
      assert xs == [xs[0]] + xs[1..];
      Insert(xs[0], SortBy(xs[1..], key), key)
  }

  /** Sorting keeps exactly the elements it was given. */
  lemma SortKeepsElements<T>(xs: seq<T>, key: T -> Key, x: T)
    ensures x in SortBy(xs, key) <==> x in xs
  {
    var r := SortBy(xs, key);
    assert x in r <==> x in multiset(r);
    assert x in xs <==> x in multiset(xs);
  }

  /** `sortOrder?.ToLower() == "desc"` selects descending order; anything
      else, a missing value included, is ascending. */
  function ParseDirection(sortOrder: Option<string>): (d: Direction)
    ensures d == Descending <==> sortOrder.Some? && Lower(sortOrder.value) == "desc"
  {
    if sortOrder.Some? && Lower(sortOrder.value) == "desc" then Descending else Ascending
  }

  /** "desc" is recognised in any letter case, and nothing else is. */
  lemma DescInAnyCase()
    ensures ParseDirection(Some("DESC")) == Descending
    ensures ParseDirection(Some("Desc")) == Descending
    ensures ParseDirection(Some("descending")) == Ascending
    ensures ParseDirection(None) == Ascending
  {
    assert Lower("DESC") == "desc";
    assert Lower("Desc") == "desc";
    assert |Lower("descending")| == 10;
  }
}
