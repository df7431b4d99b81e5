/** AuthorService's `AuthorRepository`: the author search (name, country,
    activity and birth-date filters), its five sort orders and paging, and
    the lookups by id and e-mail. The text columns of the `Authors` table
    are NOT NULL, so a missing value of the entity reads as "" here; the
    birth date is the one nullable column the queries touch. The term is
    lower-cased in .NET, a column by SQLite's `lower()`, which folds ASCII
    letters only: the filter is stated for a column fold given as a
    parameter, and both the query as written and the intended one (column
    and term folded alike) are instances. */
module AuthorRepository {
  import opened Common
  import opened Ordering
  import opened Query
  import opened Dates
  import opened Authors
  import Paging

  /** The optional arguments of `SearchAuthorsAsync` / `GetSearchCountAsync`. */
  datatype Filter = Filter(
    name: Option<string>,
    country: Option<string>,
    isActive: Option<bool>,
    bornAfter: Option<Date>,
    bornBefore: Option<Date>)

  const NoFilter: Filter := Filter(None, None, None, None, None)

  function First(a: Author): string { a.profile.firstName.GetOr("") }
  function Last(a: Author): string { a.profile.lastName.GetOr("") }

  /** The name filter: the term occurs in the folded first name, last name,
      "first last", or non-null biography. */
  predicate NameMatchesUnder(fold: string -> string, a: Author, term: string) {
    || Contains(fold(First(a)), term)
    || Contains(fold(Last(a)), term)
    || Contains(fold(First(a) + " " + Last(a)), term)
    || (a.profile.biography.Some? && Contains(fold(a.profile.biography.value), term))
  }

  /** The name filter with columns and term folded alike. */
  predicate NameMatches(a: Author, term: string) {
    NameMatchesUnder(Lower, a, term)
  }

  /** `BuildSearchQuery`, with the column fold as a parameter. The
      birth-date bounds are inclusive, and an author without a birth date
      fails either bound (a comparison with NULL is false). */
  predicate MatchesUnder(fold: string -> string, f: Filter, a: Author) {
    && (IsNullOrWhiteSpace(f.name) || NameMatchesUnder(fold, a, Term(f.name.value)))
    && (IsNullOrWhiteSpace(f.country) || Contains(fold(a.profile.country.GetOr("")), Term(f.country.value)))
    && (f.isActive.None? || a.isActive == f.isActive.value)
    && (f.bornAfter.None? || (a.profile.dateOfBirth.Some? && NotAfter(f.bornAfter.value, a.profile.dateOfBirth.value)))
    && (f.bornBefore.None? || (a.profile.dateOfBirth.Some? && NotAfter(a.profile.dateOfBirth.value, f.bornBefore.value)))
  }

  /** The query as it runs: columns folded by SQLite's ASCII-only `lower()`. */
  predicate MatchesAsWritten(f: Filter, a: Author) {
    MatchesUnder(DbLower, f, a)
  }

  /** The query as evidently intended: columns and term folded alike. */
  predicate Matches(f: Filter, a: Author) {
    MatchesUnder(Lower, f, a)
  }

  function Filtered(f: Filter): Author -> bool {
    (a: Author) => Matches(f, a)
  }

  /** A nullable date as a key, in calendar order; NULL sorts first. */
  function DateKey(d: Option<Date>): Key {
    if d.Some? then Pair(Num(d.value.year), Pair(Num(d.value.month), Num(d.value.day))) else Null
  }

  /** `OrderBy(LastName).ThenBy(FirstName)` */
  const ByName: Author -> Key := (a: Author) => Pair(Str(Last(a)), Str(First(a)))

  /** `ApplySorting`. "name" applies the direction to both names; "country"
      applies it to the country only and breaks ties by last name
      ascending; "birthdate" and "created" sort by one column; anything
      else sorts by name ascending. */
  function SortKey(sortBy: Option<string>, sortOrder: Option<string>): Author -> Key {
    var d := ParseDirection(sortOrder);
    var s := if sortBy.Some? then Lower(sortBy.value) else "";
    if s == "name" then (a: Author) => Pair(Directed(Str(Last(a)), d), Directed(Str(First(a)), d))
    else if s == "country" then (a: Author) => Pair(Directed(Str(a.profile.country.GetOr("")), d), Str(Last(a)))
    else if s == "birthdate" then (a: Author) => Directed(DateKey(a.profile.dateOfBirth), d)
    else if s == "created" then (a: Author) => Directed(Num(a.createdDate), d)
    else ByName
  }

  /** `SearchAuthorsAsync`: filter, sort, then one page. */
  function SearchAuthors(authors: seq<Author>, f: Filter, sortBy: Option<string>, sortOrder: Option<string>,
                         page: int, pageSize: int): (r: seq<Author>)
    ensures forall i :: 0 <= i < |r| ==> r[i] in authors && Matches(f, r[i])
    ensures SortedBy(r, SortKey(sortBy, sortOrder))
    ensures pageSize >= 0 ==> |r| <= pageSize
  {
    Search(authors, Filtered(f), SortKey(sortBy, sortOrder), page, pageSize)
  }

  /** `GetSearchCountAsync` */
  function SearchCount(authors: seq<Author>, f: Filter): nat {
    |Where(authors, Filtered(f))|
  }

  /** `GetAuthorsWithBooksCountAsync`: every author, by last then first
      name. */
  function AllByName(authors: seq<Author>): (r: seq<Author>)
    ensures SortedBy(r, ByName)
    ensures multiset(r) == multiset(authors)
  {
    SortBy(authors, ByName)
  }

  /** `AuthorExistsAsync` */
  function AuthorExists(authors: seq<Author>, id: int): (r: bool)
    ensures r <==> FindById(authors, id).Some?
  {
    Any(authors, (a: Author) => a.authorId == id)
  }

  /** `GetByIdWithDetailsAsync`: the author with this id, if any. */
  function FindById(authors: seq<Author>, id: int): (r: Option<Author>)
    ensures r.Some? ==> r.value in authors && r.value.authorId == id
    ensures r.None? <==> forall i :: 0 <= i < |authors| ==> authors[i].authorId != id
  {
    FirstWhere(authors, (a: Author) => a.authorId == id)
  }

  /** `GetByEmailAsync`: an author with exactly this e-mail, if any. */
  function FindByEmail(authors: seq<Author>, email: string): (r: Option<Author>)
    ensures r.Some? ==> r.value in authors && r.value.profile.email == Some(email)
    ensures r.None? <==> forall i :: 0 <= i < |authors| ==> authors[i].profile.email != Some(email)
  {
    FirstWhere(authors, (a: Author) => a.profile.email == Some(email))
  }

  // ---------------------------------------------------------------------
  // Properties
  // ---------------------------------------------------------------------

  /** The count agrees with the pages of the search. */
  lemma CountAgreesWithPages(authors: seq<Author>, f: Filter, sortBy: Option<string>, sortOrder: Option<string>,
                             page: int, pageSize: int)
    requires page >= 1 && pageSize > 0
    ensures SearchAuthors(authors, f, sortBy, sortOrder, page, pageSize) != []
        <==> page <= Paging.TotalPages(SearchCount(authors, f), pageSize)
  {
    Paging.PageNonEmptyIff(SortBy(Where(authors, Filtered(f)), SortKey(sortBy, sortOrder)), page, pageSize);
  }

  /** Searching for an author's full name, as "first last", finds the
      author even though neither name holds the whole term. */
  lemma FullNameFindsAuthor(a: Author, name: string)
    requires name == First(a) + " " + Last(a) && Trim(name) == name
    ensures Matches(NoFilter.(name := Some(name)), a)
  {
    BlankIffTrimsToEmpty(name);
    assert OccursAt(Lower(name), Term(name), 0);
  }

  /** Every search term also finds each author whose folded biography holds
      it, whatever the names are and whichever fold the columns get. */
  lemma BiographyHit(fold: string -> string, a: Author, term: string, bio: string)
    requires a.profile.biography == Some(bio) && Contains(fold(bio), term)
    ensures NameMatchesUnder(fold, a, term)
  {
  }

  /** A birth-date bound leaves out every author without a birth date. */
  lemma UndatedAuthorsFailDateBounds(f: Filter, a: Author)
    requires f.bornAfter.Some? || f.bornBefore.Some?
    requires a.profile.dateOfBirth.None?
    ensures !Matches(f, a)
  {
  }

  /** Descending by country, ties keep last names ascending: the direction
      applies to the first key only. */
  lemma CountryTiesAscendByLastName(r: seq<Author>, sortBy: string, i: int, j: int)
    requires Lower(sortBy) == "country"
    requires SortedBy(r, SortKey(Some(sortBy), Some("desc")))
    requires 0 <= i < j < |r| && r[i].profile.country.GetOr("") == r[j].profile.country.GetOr("")
    ensures StrCmp(Last(r[i]), Last(r[j])) <= 0
  {
    assert Lower("desc") == "desc";
    var key := SortKey(Some(sortBy), Some("desc"));
    var ci := Desc(Str(r[i].profile.country.GetOr("")));
    assert key(r[i]) == Pair(ci, Str(Last(r[i])));
    assert key(r[j]) == Pair(ci, Str(Last(r[j])));
    assert Le(key(r[i]), key(r[j]));
    CmpFacts(ci, ci);
    assert Cmp(Str(Last(r[i])), Str(Last(r[j]))) <= 0;
  }

  /** Descending by name reverses both names: last names never increase,
      and among equal last names first names never increase. */
  lemma NameDescendingReversesBoth(r: seq<Author>, sortBy: string, i: int, j: int)
    requires Lower(sortBy) == "name"
    requires SortedBy(r, SortKey(Some(sortBy), Some("desc")))
    requires 0 <= i < j < |r|
    ensures StrCmp(Last(r[j]), Last(r[i])) <= 0
    ensures Last(r[i]) == Last(r[j]) ==> StrCmp(First(r[j]), First(r[i])) <= 0
  {
    assert Lower("desc") == "desc";
    var key := SortKey(Some(sortBy), Some("desc"));
    assert key(r[i]) == Pair(Desc(Str(Last(r[i]))), Desc(Str(First(r[i]))));
    assert key(r[j]) == Pair(Desc(Str(Last(r[j]))), Desc(Str(First(r[j]))));
    assert Le(key(r[i]), key(r[j]));
    StrCmpFacts(Last(r[i]), Last(r[j]));
    StrCmpFacts(First(r[i]), First(r[j]));
    CmpFacts(Desc(Str(Last(r[i]))), Desc(Str(Last(r[j]))));
    if Last(r[i]) == Last(r[j]) {
      assert Cmp(Desc(Str(First(r[i]))), Desc(Str(First(r[j])))) <= 0;
      assert Cmp(Str(First(r[i])), Str(First(r[j]))) >= 0;
    }
  }

  /** The birth-date key orders dates as the calendar does. */
  lemma DateKeyOrder(a: Date, b: Date)
    ensures Le(DateKey(Some(a)), DateKey(Some(b))) <==> NotAfter(a, b)
  {
    assert Cmp(Num(a.month), Num(b.month)) == Sign(a.month - b.month);
    assert Cmp(Num(a.day), Num(b.day)) == Sign(a.day - b.day);
    assert Cmp(Num(a.year), Num(b.year)) == Sign(a.year - b.year);
    var md := Cmp(Pair(Num(a.month), Num(a.day)), Pair(Num(b.month), Num(b.day)));
    assert md == if a.month != b.month then Sign(a.month - b.month) else Sign(a.day - b.day);
    assert Cmp(DateKey(Some(a)), DateKey(Some(b))) == if a.year != b.year then Sign(a.year - b.year) else md;
  }

  /** Every stored author that passes the filter is found: it sits at its
      place `i` among the sorted matches, which is row `i % pageSize` of page
      `i / pageSize + 1` of the search, and `i` is below the search count. */
  lemma MatchFoundOnItsPage(authors: seq<Author>, f: Filter, sortBy: Option<string>, sortOrder: Option<string>,
                            a: Author, pageSize: int) returns (i: int)
    requires a in authors && Matches(f, a) && pageSize > 0
    ensures 0 <= i < SearchCount(authors, f)
    ensures var r := SearchAuthors(authors, f, sortBy, sortOrder, i / pageSize + 1, pageSize);
      i % pageSize < |r| && r[i % pageSize] == a
  {
    i := SearchFindsEveryMatch(authors, Filtered(f), SortKey(sortBy, sortOrder), a, pageSize);
  }

  /** Page 21474838 of 100 authors passes the controller's checks, but its
      offset 2147483700 wraps to -2147483596 in `int`: the query as written
      lists the first page again, where the page that far out holds
      nothing. */
  lemma OverflowingPageRepeatsFirst(authors: seq<Author>, f: Filter, sortBy: Option<string>,
                                    sortOrder: Option<string>)
    requires |authors| <= 2147483700
    ensures SearchAsWritten(authors, Filtered(f), SortKey(sortBy, sortOrder), 21474838, 100)
         == SearchAuthors(authors, f, sortBy, sortOrder, 1, 100)
    ensures SearchAuthors(authors, f, sortBy, sortOrder, 21474838, 100) == []
  {
    WrappedSearchShowsFirstPage(authors, Filtered(f), SortKey(sortBy, sortOrder), 21474838, 100);
  }

  /** On ASCII names, biography and country the query as written and the
      intended query select the same authors. */
  lemma AsciiSearchUnaffected(f: Filter, a: Author)
    requires forall i :: 0 <= i < |First(a)| ==> First(a)[i] < '\U{0080}'
    requires forall i :: 0 <= i < |Last(a)| ==> Last(a)[i] < '\U{0080}'
    requires a.profile.biography.Some? ==>
      forall i :: 0 <= i < |a.profile.biography.value| ==> a.profile.biography.value[i] < '\U{0080}'
    requires var c := a.profile.country.GetOr(""); forall i :: 0 <= i < |c| ==> c[i] < '\U{0080}'
    ensures MatchesAsWritten(f, a) <==> Matches(f, a)
  {
    var full := First(a) + " " + Last(a);
    assert forall i :: 0 <= i < |full| ==> full[i] < '\U{0080}' by {
      forall i | 0 <= i < |full| ensures full[i] < '\U{0080}' {
        if i < |First(a)| {
          assert full[i] == First(a)[i];
        } else if i > |First(a)| {
          assert full[i] == Last(a)[i - |First(a)| - 1];
        }
      }
    }
    DbLowerAgreesOnAscii(First(a));
    DbLowerAgreesOnAscii(Last(a));
    DbLowerAgreesOnAscii(full);
    DbLowerAgreesOnAscii(a.profile.country.GetOr(""));
    if a.profile.biography.Some? {
      DbLowerAgreesOnAscii(a.profile.biography.value);
    }
  }

  /** The query as written misses "Anna Érdi" searched for by her last name
      exactly as it is spelled: the term becomes "érdi" in .NET, while
      SQLite leaves every column's "É" as it is. The intended query finds
      her. */
  lemma AccentedNameMissed(a: Author)
    requires First(a) == "Anna" && Last(a) == "Érdi" && a.profile.biography.None?
    ensures !MatchesAsWritten(NoFilter.(name := Some("Érdi")), a)
    ensures Matches(NoFilter.(name := Some("Érdi")), a)
  {
    ErdiTerm();
    ErdiMissedInColumns();
    assert OccursAt(Lower("Érdi"), "érdi", 0);
  }

  lemma ErdiTerm()
    ensures Term("Érdi") == "érdi" && !IsNullOrWhiteSpace(Some("Érdi"))
  {
    ErdiLowered();
    ErdiEnds();
    TrimmedTerm("Érdi");
  }

  lemma ErdiLowered()
    ensures Lower("Érdi") == "érdi"
  {
    assert LowerChar('É') == 'é';
  }

  lemma ErdiEnds()
    ensures !IsWhiteSpace("Érdi"[0]) && !IsWhiteSpace("Érdi"[3])
  {
  }

  lemma ErdiMissedInColumns()
    ensures !Contains(DbLower("Anna"), "érdi")
    ensures !Contains(DbLower("Érdi"), "érdi")
    ensures !Contains(DbLower("Anna" + " " + "Érdi"), "érdi")
  {
    DbLowerMisses("Anna", "érdi");
    DbLowerMisses("Érdi", "érdi");
    var full := "Anna" + " " + "Érdi";
    assert full == "Anna Érdi";
    DbLowerMisses(full, "érdi");
  }
}
