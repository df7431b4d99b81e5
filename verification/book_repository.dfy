/** BooksService's `BookRepository`: the book search with its filters,
    sorting and paging, the ISBN uniqueness test and the per-author,
    per-category, available and recently-added listings. Every query runs in
    SQLite, so `ToLower()` on a column is the database's `lower()`, which
    folds ASCII letters only, while `ToLower()` on a search term runs in .NET
    before the query is sent. */
module BookRepository {
  import opened Common
  import opened Ordering
  import opened Query
  import Paging

  /** A row of the `Books` table. `addedToLibrary` is the one nullable
      column (seconds). */
  datatype Book = Book(
    id: int,
    title: string,
    author: string,
    publisher: string,
    year: int,
    isbn: string,
    pages: int,
    category: string,
    categoryId: int,
    authorId: int,
    language: string,
    description: string,
    photoPath: string,
    isAvailable: bool,
    addedToLibrary: Option<int>)

  /** The optional arguments of `SearchBooksAsync` / `GetSearchCountAsync`. */
  datatype Filter = Filter(
    title: Option<string>,
    author: Option<string>,
    categoryId: Option<int>,
    yearFrom: Option<int>,
    yearTo: Option<int>,
    isAvailable: Option<bool>,
    language: Option<string>)

  /** No filter at all. */
  const NoFilter: Filter := Filter(None, None, None, None, None, None, None)

  /** `BuildSearchQuery`, with the case fold applied to the columns as a
      parameter: blank text filters and missing values impose nothing; title
      and author are substring tests, language is an equality, the year
      bounds are inclusive. */
  predicate MatchesUnder(fold: string -> string, f: Filter, b: Book) {
    && (IsNullOrWhiteSpace(f.title) || Contains(fold(b.title), Term(f.title.value)))
    && (IsNullOrWhiteSpace(f.author) || Contains(fold(b.author), Term(f.author.value)))
    && (f.categoryId.None? || b.categoryId == f.categoryId.value)
    && (f.yearFrom.None? || b.year >= f.yearFrom.value)
    && (f.yearTo.None? || b.year <= f.yearTo.value)
    && (f.isAvailable.None? || b.isAvailable == f.isAvailable.value)
    && (IsNullOrWhiteSpace(f.language) || fold(b.language) == Term(f.language.value))
  }

  /** The query as it runs: columns folded by SQLite's ASCII-only `lower()`. */
  predicate MatchesAsWritten(f: Filter, b: Book) {
    MatchesUnder(DbLower, f, b)
  }

  /** The query as evidently intended: column and term folded alike. */
  predicate Matches(f: Filter, b: Book) {
    MatchesUnder(Lower, f, b)
  }

  function Filtered(f: Filter): Book -> bool {
    (b: Book) => Matches(f, b)
  }

  /** The optional value as a sort key: a NULL sorts first. */
  function OptKey(v: Option<int>): Key {
    if v.Some? then Num(v.value) else Null
  }

  /** `ApplySorting`: `sortBy` (any letter case) picks title, author, year,
      added or pages in the requested direction; anything else, a missing
      value included, sorts by title ascending whatever `sortOrder` says. */
  function SortKey(sortBy: Option<string>, sortOrder: Option<string>): Book -> Key {
    var d := ParseDirection(sortOrder);
    var s := if sortBy.Some? then Lower(sortBy.value) else "";
    if s == "title" then (b: Book) => Directed(Str(b.title), d)
    else if s == "author" then (b: Book) => Directed(Str(b.author), d)
    else if s == "year" then (b: Book) => Directed(Num(b.year), d)
    else if s == "added" then (b: Book) => Directed(OptKey(b.addedToLibrary), d)
    else if s == "pages" then (b: Book) => Directed(Num(b.pages), d)
    else (b: Book) => Str(b.title)
  }

  const ByTitle: Book -> Key := (b: Book) => Str(b.title)

  /** `SearchBooksAsync`: filter, sort, then one page. */
  function SearchBooks(books: seq<Book>, f: Filter, sortBy: Option<string>, sortOrder: Option<string>,
                       page: int, pageSize: int): (r: seq<Book>)
    ensures forall i :: 0 <= i < |r| ==> r[i] in books && Matches(f, r[i])
    ensures SortedBy(r, SortKey(sortBy, sortOrder))
    ensures pageSize >= 0 ==> |r| <= pageSize
  {
    Search(books, Filtered(f), SortKey(sortBy, sortOrder), page, pageSize)
  }

  /** `GetSearchCountAsync`: the number of matching rows. */
  function SearchCount(books: seq<Book>, f: Filter): nat {
    |Where(books, Filtered(f))|
  }

  /** `IsbnExistsAsync`: some other book (any book when no id is excluded)
      already carries this ISBN; the comparison is exact. */
  function IsbnExists(books: seq<Book>, isbn: string, excludeId: Option<int>): (r: bool)
    ensures r ==> exists i :: 0 <= i < |books| && books[i].isbn == isbn
    ensures r && excludeId.Some? ==> exists i :: 0 <= i < |books| && books[i].isbn == isbn && books[i].id != excludeId.value
  {
    Any(books, (b: Book) => b.isbn == isbn && (excludeId.None? || b.id != excludeId.value))
  }

  /** `GetBooksByAuthorAsync`: the author's books by title. */
  function ByAuthor(books: seq<Book>, authorId: int): (r: seq<Book>)
    ensures SortedBy(r, ByTitle)
    ensures forall b :: b in r <==> b in books && b.authorId == authorId
    ensures |r| == CountByAuthor(books, authorId)
  {
    var kept := Where(books, (b: Book) => b.authorId == authorId);
    SortKeepsAll(kept, ByTitle);
    SortBy(kept, ByTitle)
  }

  /** `GetBooksCountByAuthorAsync` */
  function CountByAuthor(books: seq<Book>, authorId: int): nat {
    |Where(books, (b: Book) => b.authorId == authorId)|
  }

  /** `GetBooksByCategoryAsync`: the category's books by title. */
  function ByCategory(books: seq<Book>, categoryId: int): (r: seq<Book>)
    ensures SortedBy(r, ByTitle)
    ensures forall b :: b in r <==> b in books && b.categoryId == categoryId
  {
    var kept := Where(books, (b: Book) => b.categoryId == categoryId);
    SortKeepsAll(kept, ByTitle);
    SortBy(kept, ByTitle)
  }

  /** `GetAvailableBooksAsync`: the available books by title. */
  function Available(books: seq<Book>): (r: seq<Book>)
    ensures SortedBy(r, ByTitle)
    ensures forall b :: b in r <==> b in books && b.isAvailable
  {
    var kept := Where(books, (b: Book) => b.isAvailable);
    SortKeepsAll(kept, ByTitle);
    SortBy(kept, ByTitle)
  }

  const NewestFirst: Book -> Key := (b: Book) => Desc(OptKey(b.addedToLibrary))

  /** `GetBooksAddedAfterDateAsync`: books added strictly after `date`,
      newest first. A NULL date never compares greater, so such books are
      left out. */
  function AddedAfter(books: seq<Book>, date: int): (r: seq<Book>)
    ensures SortedBy(r, NewestFirst)
    ensures forall b :: b in r <==> b in books && b.addedToLibrary.Some? && b.addedToLibrary.value > date
  {
    var kept := Where(books, (b: Book) => b.addedToLibrary.Some? && b.addedToLibrary.value > date);
    SortKeepsAll(kept, NewestFirst);
    SortBy(kept, NewestFirst)
  }

  /** `GetBookWithDetailsAsync`: the book with this id, if any. */
  function FindById(books: seq<Book>, id: int): (r: Option<Book>)
    ensures r.Some? ==> r.value in books && r.value.id == id
    ensures r.None? <==> forall i :: 0 <= i < |books| ==> books[i].id != id
  {
    FirstWhere(books, (b: Book) => b.id == id)
  }

  lemma SortKeepsAll(xs: seq<Book>, key: Book -> Key)
    ensures forall b :: b in SortBy(xs, key) <==> b in xs
  {
    forall b ensures b in SortBy(xs, key) <==> b in xs {
      SortKeepsElements(xs, key, b);
    }
  }

  // ---------------------------------------------------------------------
  // Properties
  // ---------------------------------------------------------------------

  /** The count agrees with the pages: with a positive page size, page
      `page` of the search holds something exactly when `page` is at most
      the page count derived from `SearchCount`. */
  lemma CountAgreesWithPages(books: seq<Book>, f: Filter, sortBy: Option<string>, sortOrder: Option<string>,
                             page: int, pageSize: int)
    requires page >= 1 && pageSize > 0
    ensures SearchBooks(books, f, sortBy, sortOrder, page, pageSize) != []
        <==> page <= Paging.TotalPages(SearchCount(books, f), pageSize)
  {
    Paging.PageNonEmptyIff(SortBy(Where(books, Filtered(f)), SortKey(sortBy, sortOrder)), page, pageSize);
  }

  /** Every stored book that passes the filter is found: it sits at its
      place `i` among the sorted matches, which is row `i % pageSize` of page
      `i / pageSize + 1` of the search, and `i` is below the search count. */
  lemma MatchFoundOnItsPage(books: seq<Book>, f: Filter, sortBy: Option<string>, sortOrder: Option<string>,
                            b: Book, pageSize: int) returns (i: int)
    requires b in books && Matches(f, b) && pageSize > 0
    ensures 0 <= i < SearchCount(books, f)
    ensures var r := SearchBooks(books, f, sortBy, sortOrder, i / pageSize + 1, pageSize);
      i % pageSize < |r| && r[i % pageSize] == b
  {
    i := SearchFindsEveryMatch(books, Filtered(f), SortKey(sortBy, sortOrder), b, pageSize);
  }

  /** With no filter, a single page of unlimited size (LIMIT -1 in SQLite)
      lists every book. Only a direct call of the repository can ask for
      that size: `SearchBooks` of the controller refuses a page size below
      1 with 400. */
  lemma UnfilteredListsEverything(books: seq<Book>, sortBy: Option<string>, sortOrder: Option<string>, b: Book)
    requires b in books
    ensures b in SearchBooks(books, NoFilter, sortBy, sortOrder, 1, -1)
  {
    assert Matches(NoFilter, b);
    SortKeepsElements(Where(books, Filtered(NoFilter)), SortKey(sortBy, sortOrder), b);
  }

  /** A descending title sort lists titles in non-increasing ordinal
      order. */
  lemma TitleDescendingOrder(r: seq<Book>, sortBy: string, i: int, j: int)
    requires Lower(sortBy) == "title"
    requires SortedBy(r, SortKey(Some(sortBy), Some("desc")))
    requires 0 <= i < j < |r|
    ensures StrCmp(r[j].title, r[i].title) <= 0
  {
    assert Lower("desc") == "desc";
    var key := SortKey(Some(sortBy), Some("desc"));
    assert key(r[i]) == Desc(Str(r[i].title)) && key(r[j]) == Desc(Str(r[j].title));
    assert Le(key(r[i]), key(r[j]));
    assert Cmp(Str(r[i].title), Str(r[j].title)) >= 0;
    StrCmpFacts(r[i].title, r[j].title);
  }

  /** An unrecognised sort column falls back to title ascending and ignores
      the direction. */
  lemma UnknownSortColumnIgnoresOrder(sortBy: Option<string>, sortOrder: Option<string>, b: Book)
    requires sortBy.None? || Lower(sortBy.value) !in {"title", "author", "year", "added", "pages"}
    ensures SortKey(sortBy, sortOrder)(b) == Str(b.title)
  {
  }

  /** `added` in descending order puts books without a date last. */
  lemma UndatedBooksLastWhenNewestFirst(r: seq<Book>, i: int, j: int)
    requires SortedBy(r, SortKey(Some("added"), Some("desc")))
    requires 0 <= i < j < |r| && r[i].addedToLibrary.None?
    ensures r[j].addedToLibrary.None?
  {
    assert Lower("added") == "added";
    assert Lower("desc") == "desc";
    var key := SortKey(Some("added"), Some("desc"));
    assert key(r[i]) == Desc(OptKey(r[i].addedToLibrary)) && key(r[j]) == Desc(OptKey(r[j].addedToLibrary));
    assert Le(key(r[i]), key(r[j]));
    assert Cmp(OptKey(r[i].addedToLibrary), OptKey(r[j].addedToLibrary)) >= 0;
  }

  /** Books newer than `date` come out newest first. */
  lemma AddedAfterNewestFirst(books: seq<Book>, date: int, i: int, j: int)
    requires 0 <= i < j < |AddedAfter(books, date)|
    ensures var r := AddedAfter(books, date);
      r[i].addedToLibrary.value >= r[j].addedToLibrary.value > date
  {
    var r := AddedAfter(books, date);
    assert r[i] in r && r[j] in r;
    assert Le(NewestFirst(r[i]), NewestFirst(r[j]));
    assert Cmp(OptKey(r[i].addedToLibrary), OptKey(r[j].addedToLibrary)) >= 0;
  }

  /** Excluding the book being updated: its own ISBN does not count as a
      clash, but any other book with the same ISBN does; without an
      exclusion any holder counts. */
  lemma IsbnClashExcludesSelf(books: seq<Book>, isbn: string, self: int)
    ensures IsbnExists(books, isbn, Some(self))
        <==> exists i :: 0 <= i < |books| && books[i].isbn == isbn && books[i].id != self
    ensures IsbnExists(books, isbn, None) <==> exists i :: 0 <= i < |books| && books[i].isbn == isbn
    ensures IsbnExists(books, isbn, Some(self)) ==> IsbnExists(books, isbn, None)
  {
  }

  /** On plain ASCII data the query as written and the intended query
      select the same books. */
  lemma AsciiSearchUnaffected(f: Filter, b: Book)
    requires forall i :: 0 <= i < |b.title| ==> b.title[i] < '\U{0080}'
    requires forall i :: 0 <= i < |b.author| ==> b.author[i] < '\U{0080}'
    requires forall i :: 0 <= i < |b.language| ==> b.language[i] < '\U{0080}'
    ensures MatchesAsWritten(f, b) <==> Matches(f, b)
  {
    DbLowerAgreesOnAscii(b.title);
    DbLowerAgreesOnAscii(b.author);
    DbLowerAgreesOnAscii(b.language);
  }

  /** The query as written misses an accented title searched for exactly as
      it is spelled: the term is lowered to "élan" in .NET, but SQLite
      leaves the stored "Élan" as it is. The intended query finds it. */
  lemma AccentedTitleMissed()
    ensures var b := Book(1, "Élan", "", "", 2000, "", 1, "", 1, 1, "", "", "", true, None);
      var f := NoFilter.(title := Some("Élan"));
      !MatchesAsWritten(f, b) && Matches(f, b)
  {
    var b := Book(1, "Élan", "", "", 2000, "", 1, "", 1, 1, "", "", "", true, None);
    TitleOnlyFilter(DbLower, "Élan", b);
    TitleOnlyFilter(Lower, "Élan", b);
    ElanTerm();
    ElanNotBlank();
    ElanNotInDbLower();
    ElanInLower();
  }

  /** With only a title filter, a book matches when the term is blank or its
      folded title contains the term. */
  lemma TitleOnlyFilter(fold: string -> string, title: string, b: Book)
    ensures MatchesUnder(fold, NoFilter.(title := Some(title)), b)
        <==> IsNullOrWhiteSpace(Some(title)) || Contains(fold(b.title), Term(title))
  {
  }

  /** Searching for a book's own title, spelled as stored and without
      surrounding white space, finds it whatever letters the title uses. */
  lemma OwnTitleFindsBook(b: Book, title: string)
    requires title == b.title && title != []
    requires !IsWhiteSpace(title[0]) && !IsWhiteSpace(title[|title| - 1])
    ensures Matches(NoFilter.(title := Some(title)), b)
  {
    TrimmedTerm(title);
    assert OccursAt(Lower(title), Lower(title), 0);
  }

  lemma ElanNotBlank()
    ensures !IsNullOrWhiteSpace(Some("Élan"))
  {
    assert !IsWhiteSpace("Élan"[0]);
  }

  lemma ElanInLower()
    ensures Contains(Lower("Élan"), "élan")
  {
    ElanLowered();
    assert OccursAt(Lower("Élan"), "élan", 0);
  }

  lemma ElanTerm()
    ensures Term("Élan") == "élan"
  {
    ElanTrimmed();
    ElanLowered();
  }

  lemma ElanTrimmed()
    ensures Trim("Élan") == "Élan"
  {
    assert !IsWhiteSpace("Élan"[0]);
    assert TrimStart("Élan") == "Élan";
    assert !IsWhiteSpace("Élan"[3]);
    assert TrimEnd("Élan") == "Élan";
  }

  lemma ElanLowered()
    ensures Lower("Élan") == "élan"
  {
    assert LowerChar('É') == 'é';
  }

  lemma ElanNotInDbLower()
    ensures !Contains(DbLower("Élan"), "élan")
  {
    var col := DbLower("Élan");
    assert col[0] == 'É';
    forall i | 0 <= i <= |col| - 4 ensures !OccursAt(col, "élan", i) {
      assert i == 0;
      assert col[0..4][0] == 'É';
    }
  }
}
