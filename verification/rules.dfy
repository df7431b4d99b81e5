/** The FluentValidation building blocks the validators use. A validator
    runs every rule and collects one failure per broken check, in rule
    order; an object is valid when nothing was collected. A property may be
    null (`None`). The regular expressions, the e-mail check and the URI
    check are oracles: functions the caller supplies. The few
    DataAnnotations attributes the request types carry are here too. */
module Rules {
  import opened Common

  /** A collected failure: the property and the custom message, or `None`
      when the rule keeps FluentValidation's default message. */
  datatype Failure = Failure(property: string, message: Option<string>)

  /** One check: a failure unless `ok`. */
  function Check(ok: bool, property: string, message: Option<string>): (r: seq<Failure>)
    ensures r == [] <==> ok
    ensures |r| <= 1
  {
    if ok then [] else [Failure(property, message)]
  }

  /** `NotEmpty()` on a string: not null, not empty, not only white space. */
  predicate NotEmpty(s: Option<string>) {
    !IsNullOrWhiteSpace(s)
  }

  /** `Length(min, max)`: null passes. */
  predicate LengthBetween(s: Option<string>, min: int, max: int) {
    s.None? || min <= |s.value| <= max
  }

  /** `MaximumLength(max)`: null passes. */
  predicate MaxLength(s: Option<string>, max: int) {
    s.None? || |s.value| <= max
  }

  /** `MinimumLength(min)`: null passes. */
  predicate MinLength(s: Option<string>, min: int) {
    s.None? || |s.value| >= min
  }

  /** `Matches(pattern)`, `EmailAddress()`: null passes; otherwise the
      oracle decides. */
  predicate Matches(s: Option<string>, pattern: string -> bool) {
    s.None? || pattern(s.value)
  }

  // ---------------------------------------------------------------------
  // DataAnnotations. With `[ApiController]` ASP.NET checks them on the
  // request body before the action runs. `[Required]` rejects what
  // `NotEmpty()` rejects, unless it allows empty strings; `[StringLength]`
  // is `LengthBetween`; `[EmailAddress]` is the check FluentValidation's
  // `EmailAddress()` copies.
  // ---------------------------------------------------------------------

  /** `[Required]`. The attribute MVC adds by itself to a non-nullable
      `string` property allows empty strings, so it rejects only null. */
  predicate Required(s: Option<string>, allowEmptyStrings: bool) {
    if allowEmptyStrings then s.Some? else NotEmpty(s)
  }

  /** `[Url]`: null passes; otherwise the text must begin with `http://`,
      `https://` or `ftp://`, case ignored. */
  predicate UrlAttribute(s: Option<string>) {
    s.None? || StartsWithIgnoreCase(s.value, "http://") || StartsWithIgnoreCase(s.value, "https://")
    || StartsWithIgnoreCase(s.value, "ftp://")
  }

  /** A concatenation of checks is empty exactly when each part is. */
  lemma EmptyConcat(a: seq<Failure>, b: seq<Failure>)
    ensures a + b == [] <==> a == [] && b == []
  {
    if a != [] {
      assert (a + b)[0] == a[0];
    }
  }

  /** A property's failures. */
  function On(fs: seq<Failure>, property: string): (r: seq<Failure>)
    ensures |r| <= |fs|
    ensures forall i :: 0 <= i < |r| ==> r[i].property == property && r[i] in fs
  {
    if fs == [] then []
    else (if fs[0].property == property then [fs[0]] else []) + On(fs[1..], property)
  }

  /** Restricting to a property distributes over concatenation. */
  lemma {:induction false} OnConcat(a: seq<Failure>, b: seq<Failure>, property: string)
    ensures On(a + b, property) == On(a, property) + On(b, property)
  {
    if a == [] {
      assert a + b == b;
    } else {
      var head := if a[0].property == property then [a[0]] else [];
      var ab, rest := a + b, a[1..];
      ConsOfConcat(a, b);
      OnConcat(rest, b, property);
      calc {
        On(ab, property);
        head + On(rest + b, property);
        head + (On(rest, property) + On(b, property));
        (head + On(rest, property)) + On(b, property);
        On(a, property) + On(b, property);
      }
    }
  }

  lemma ConsOfConcat<T>(a: seq<T>, b: seq<T>)
    requires a != []
    ensures (a + b)[0] == a[0] && (a + b)[1..] == a[1..] + b
  {
  }

  /** Failures of one property keep all of theirs and none of another's. */
  lemma {:induction false} OnSingleProperty(fs: seq<Failure>, property: string, other: string)
    requires forall i :: 0 <= i < |fs| ==> fs[i].property == property
    ensures On(fs, property) == fs
    ensures other != property ==> On(fs, other) == []
  {
    if fs != [] {
      var rest := fs[1..];
      assert forall i :: 0 <= i < |rest| ==> rest[i].property == property by {
        forall i | 0 <= i < |rest| ensures rest[i].property == property {
          assert rest[i] == fs[i + 1];
        }
      }
      OnSingleProperty(rest, property, other);
      assert On(fs, property) == [fs[0]] + rest;
      assert [fs[0]] + rest == fs;
    }
  }
}
