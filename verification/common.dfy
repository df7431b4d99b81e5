/** Shared vocabulary of the model: optional values (C# `null` and
    `Nullable<T>`), the clock, and the handful of .NET string operations the
    services lean on (`Trim`, `ToLower`, `Contains`, `IsNullOrWhiteSpace`,
    ordinal case-insensitive equality). */
module Common {

  /** A value that may be absent. */
  datatype Option<+T> = None | Some(value: T) {

    /** The `??` operator. */
    function GetOr(default: T): T {
      match this
      case Some(v) => v
      case None => default
    }
  }

  // ---------------------------------------------------------------------
  // Clock. A `DateTime` is a whole number of seconds counted from
  // 0001-01-01T00:00:00, as `DateTime.Ticks` counts ten-millionths; `now`
  // is always an explicit parameter.
  // ---------------------------------------------------------------------

  const SecondsPerHour: int := 3600
  const SecondsPerDay: int := 86400

  /** The last second `DateTime` can hold: 9999-12-31T23:59:59, which is
      3652059 days after its first instant, less one second. */
  const MaxDateTime: int := 3652059 * SecondsPerDay - 1

  /** The instants `DateTime` can hold; the `Add…` methods throw
      `ArgumentOutOfRangeException` for a result outside them. */
  predicate InDateRange(t: int) {
    0 <= t <= MaxDateTime
  }

  /** `DateTime.AddHours` */
  function AddHours(t: int, hours: int): int {
    t + hours * SecondsPerHour
  }

  /** `DateTime.AddDays` */
  function AddDays(t: int, days: int): int {
    t + days * SecondsPerDay
  }

  /** Decimal text of a number, as string interpolation writes it. */
  function NatToString(n: nat): (r: string)
    ensures |r| >= 1 && forall i :: 0 <= i < |r| ==> '0' <= r[i] <= '9'
  {
    var d := [('0' as int + n % 10) as char];
    if n < 10 then d else NatToString(n / 10) + d
  }

  function IntToString(i: int): string {
    if i < 0 then "-" + NatToString(-i) else NatToString(i)
  }

  // ---------------------------------------------------------------------
  // Text
  // ---------------------------------------------------------------------

  /** The characters `char.IsWhiteSpace` accepts: U+0009..U+000D, U+0020,
      U+0085, U+00A0 and the Unicode space, line and paragraph separators. */
  const WhiteSpaceChars: set<char> := {
    '\U{0009}', '\U{000A}', '\U{000B}', '\U{000C}', '\U{000D}', ' ',
    '\U{0085}', '\U{00A0}', '\U{1680}',
    '\U{2000}', '\U{2001}', '\U{2002}', '\U{2003}', '\U{2004}', '\U{2005}',
    '\U{2006}', '\U{2007}', '\U{2008}', '\U{2009}', '\U{200A}',
    '\U{2028}', '\U{2029}', '\U{202F}', '\U{205F}', '\U{3000}'
  }

  /** `char.IsWhiteSpace` */
  predicate IsWhiteSpace(c: char) {
    c in WhiteSpaceChars
  }

  /** Every character of `s` is white space (true of the empty string). */
  predicate AllWhiteSpace(s: string) {
    forall i :: 0 <= i < |s| ==> IsWhiteSpace(s[i])
  }

  /** `string.IsNullOrWhiteSpace` */
  predicate IsNullOrWhiteSpace(s: Option<string>) {
    s.None? || AllWhiteSpace(s.value)
  }

  /** `string.IsNullOrEmpty` */
  predicate IsNullOrEmpty(s: Option<string>) {
    s.None? || s.value == []
  }

  /** `string.TrimStart()`: drops the leading white space and nothing else. */
  function TrimStart(s: string): (r: string)
    ensures |r| <= |s| && r == s[|s| - |r|..]
    ensures r == [] || !IsWhiteSpace(r[0])
    ensures forall i :: 0 <= i < |s| - |r| ==> IsWhiteSpace(s[i])
    decreases |s|
  {
    if |s| > 0 && IsWhiteSpace(s[0]) then TrimStart(s[1..]) else s
  }

  /** `string.TrimEnd()`: drops the trailing white space and nothing else. */
  function TrimEnd(s: string): (r: string)
    ensures |r| <= |s| && r == s[..|r|]
    ensures r == [] || !IsWhiteSpace(r[|r| - 1])
    ensures forall i :: |r| <= i < |s| ==> IsWhiteSpace(s[i])
    decreases |s|
  {
    if |s| > 0 && IsWhiteSpace(s[|s| - 1]) then TrimEnd(s[..|s| - 1]) else s
  }

  /** `string.Trim()` */
  function Trim(s: string): string {
    TrimEnd(TrimStart(s))
  }

  /** Neither end of a trimmed string is white space. */
  lemma TrimEndsNotWhite(s: string)
    ensures var r := Trim(s); r == [] || (!IsWhiteSpace(r[0]) && !IsWhiteSpace(r[|r| - 1]))
  {
    var a := TrimStart(s);
    var r := TrimEnd(a);
    if r != [] {
      assert r[0] == a[0];
    }
  }

  /** A trimmed string is the contiguous piece `s[k..k + |Trim(s)|]` of the
      original, and everything cut away on either side was white space. */
  lemma TrimCutsOnlyWhiteSpace(s: string) returns (k: int)
    ensures var r := Trim(s);
      && 0 <= k && k + |r| <= |s| && s[k..k + |r|] == r
      && AllWhiteSpace(s[..k]) && AllWhiteSpace(s[k + |r|..])
  {
    var a := TrimStart(s);
    var r := TrimEnd(a);
    k := |s| - |a|;
    assert a == s[k..] && r == a[..|r|];
    TrimPieces(s, a, r, k);
  }

  /** The piece `r` of the suffix `a` of `s`, with only white space around. */
  lemma TrimPieces(s: string, a: string, r: string, k: int)
    requires 0 <= k <= |s| && a == s[k..] && |r| <= |a| && r == a[..|r|]
    requires forall i :: 0 <= i < k ==> IsWhiteSpace(s[i])
    requires forall i :: |r| <= i < |a| ==> IsWhiteSpace(a[i])
    ensures k + |r| <= |s| && s[k..k + |r|] == r
    ensures AllWhiteSpace(s[..k]) && AllWhiteSpace(s[k + |r|..])
  {
    assert s[k..k + |r|] == a[..|r|];
    WhiteBefore(s, k);
    assert s[k + |r|..] == a[|r|..];
    WhiteAfter(a, |r|);
  }

  lemma WhiteBefore(s: string, k: int)
    requires 0 <= k <= |s| && forall i :: 0 <= i < k ==> IsWhiteSpace(s[i])
    ensures AllWhiteSpace(s[..k])
  {
    forall i | 0 <= i < k ensures IsWhiteSpace(s[..k][i]) {
      assert s[..k][i] == s[i];
    }
  }

  lemma WhiteAfter(s: string, k: int)
    requires 0 <= k <= |s| && forall i :: k <= i < |s| ==> IsWhiteSpace(s[i])
    ensures AllWhiteSpace(s[k..])
  {
    forall i | 0 <= i < |s| - k ensures IsWhiteSpace(s[k..][i]) {
      assert s[k..][i] == s[k + i];
    }
  }

  /** A string trims to nothing exactly when it is all white space, so
      `IsNullOrWhiteSpace` and "trims to empty" are the same test. */
  lemma {:induction false} BlankIffTrimsToEmpty(s: string)
    ensures AllWhiteSpace(s) <==> Trim(s) == []
  {
    if AllWhiteSpace(s) {
      TrimStartOfBlank(s);
    } else {
      var i :| 0 <= i < |s| && !IsWhiteSpace(s[i]);
      var a := TrimStart(s);
      assert |s| - |a| <= i;
      assert a[i - (|s| - |a|)] == s[i];
    }
  }

  lemma {:induction false} TrimStartOfBlank(s: string)
    requires AllWhiteSpace(s)
    ensures TrimStart(s) == []
    decreases |s|
  {
    if |s| > 0 {
      TrimStartOfBlank(s[1..]);
    }
  }

  /** `char.ToLowerInvariant` on ASCII and Latin-1 letters; every other
      character is left as it is. */
  function LowerChar(c: char): char {
    if 'A' <= c <= 'Z' then (c as int + 32) as char
    else if '\U{00C0}' <= c <= '\U{00DE}' && c != '\U{00D7}' then (c as int + 32) as char
    else c
  }

  /** `string.ToLower()` */
  function Lower(s: string): (r: string)
    ensures |r| == |s|
    ensures forall i :: 0 <= i < |s| ==> r[i] == LowerChar(s[i])
  {
    seq(|s|, i requires 0 <= i < |s| => LowerChar(s[i]))
  }

  /** `string.Contains(t)`: `t` occurs in `s` as a contiguous substring. */
  predicate Contains(s: string, t: string) {
    exists i :: 0 <= i <= |s| - |t| && OccursAt(s, t, i)
  }

  /** SQLite's built-in `lower()`, which EF Core emits for `ToLower()` inside
      a query: only the ASCII letters A-Z are folded. */
  function DbLowerChar(c: char): char {
    if 'A' <= c <= 'Z' then (c as int + 32) as char else c
  }

  /** `lower(s)` evaluated by the database. */
  function DbLower(s: string): (r: string)
    ensures |r| == |s|
    ensures forall i :: 0 <= i < |s| ==> r[i] == DbLowerChar(s[i])
  {
    seq(|s|, i requires 0 <= i < |s| => DbLowerChar(s[i]))
  }

  /** On ASCII text the database folds exactly as .NET does. */
  lemma DbLowerAgreesOnAscii(s: string)
    requires forall i :: 0 <= i < |s| ==> s[i] < '\U{0080}'
    ensures DbLower(s) == Lower(s)
  {
  }

  /** A string in which the first character of `t` never appears does not
      contain `t`. */
  lemma MissingCharNotContained(s: string, t: string)
    requires |t| > 0 && forall i :: 0 <= i < |s| ==> s[i] != t[0]
    ensures !Contains(s, t)
  {
    forall i | 0 <= i <= |s| - |t| ensures !OccursAt(s, t, i) {
      assert s[i..i + |t|][0] == s[i];
    }
  }

  /** SQLite's `lower()` never produces a non-ASCII character that was not
      already there: a term starting with one is not found in the folded
      column unless the column held that very character. */
  lemma DbLowerMisses(s: string, t: string)
    requires |t| > 0 && t[0] >= '\U{0080}'
    requires forall i :: 0 <= i < |s| ==> s[i] != t[0]
    ensures !Contains(DbLower(s), t)
  {
    MissingCharNotContained(DbLower(s), t);
  }

  /** `t` occurs in `s` starting at index `i`. */
  predicate OccursAt(s: string, t: string, i: int) {
    0 <= i && i + |t| <= |s| && s[i..i + |t|] == t
  }

  /** Case-insensitive substring test: `s.ToLower().Contains(term)`. */
  predicate ContainsFolded(s: string, term: string) {
    Contains(Lower(s), term)
  }

  /** Case folding used by `StringComparison.OrdinalIgnoreCase`: upper-case
      ASCII and Latin-1 letters. */
  function UpperChar(c: char): char {
    if 'a' <= c <= 'z' then (c as int - 32) as char
    else if '\U{00E0}' <= c <= '\U{00FE}' && c != '\U{00F7}' then (c as int - 32) as char
    else c
  }

  /** `a.Equals(b, StringComparison.OrdinalIgnoreCase)` */
  predicate EqualsIgnoreCase(a: string, b: string) {
    |a| == |b| && forall i :: 0 <= i < |a| ==> UpperChar(a[i]) == UpperChar(b[i])
  }

  /** `s.StartsWith(prefix, StringComparison.OrdinalIgnoreCase)` */
  predicate StartsWithIgnoreCase(s: string, prefix: string) {
    |prefix| <= |s| && EqualsIgnoreCase(s[..|prefix|], prefix)
  }
}
