/** AuthorService's `AuthorsController`: listing, reading, creating,
    updating, deleting and searching authors, and listing an author's books
    through BooksService. Every remote answer reaches the controller as a
    `Remote.Result`; a per-author answer is a function of the author id.
    `DateTime.UtcNow` is `now`, `DateTime.Today` is `today`, the validators'
    patterns are oracles, and whether `SaveChanges` succeeds for reasons
    other than a null in a NOT NULL column is the parameter `saved`. */
module AuthorController {
  import opened Common
  import opened Query
  import opened Rules
  import opened Dates
  import opened Authors
  import opened AuthorRepository
  import Remote
  import Resilience
  import Http
  import Paging

  /** An `AuthorBookDto` as BooksService sends it. */
  datatype AuthorBook = AuthorBook(id: int, title: string, publisher: string, year: int, isbn: string, pages: int,
                                   category: string, categoryId: int, language: string, description: string,
                                   photoPath: string, isAvailable: bool, addedToLibrary: Option<int>)

  /** An `AuthorDto`: the author with the derived fields, and the books
      (empty unless they were asked for) and their count. */
  datatype View = View(author: Author, fullName: string, age: Option<int>, status: string,
                       books: seq<AuthorBook>, booksCount: int)

  datatype Store = Store(authors: seq<Author>, nextId: int)

  /** Holds of the table the operations keep: identity values handed out so
      far, one row per id, and no two authors sharing an e-mail. */
  ghost predicate Inv(s: Store) {
    && s.nextId >= 1
    && (forall a | a in s.authors :: 1 <= a.authorId < s.nextId)
    && (forall a, b | a in s.authors && b in s.authors :: a.authorId == b.authorId ==> a == b)
    && (forall a, b | a in s.authors && b in s.authors :: a.profile.email == b.profile.email ==> a == b)
  }

  datatype Reply =
    | Listed(views: seq<View>)                      // 200 with a list of authors
    | Books(books: seq<AuthorBook>)                 // 200 with a list of books
    | Found(view: View)                             // 200 with one author
    | Paged(data: seq<View>, info: Paging.PageInfo) // 200 with a search page
    | Created(view: View)                           // 201
    | NoContent                                     // 204
    | Invalid(errors: seq<Failure>)                 // 400 with the validator's failures
    | Refused(status: int, message: string)         // any other status with a message
    | Unhandled                                     // an exception escapes the action: 500

  function StatusOf(r: Reply): int {
    match r
    case Listed(_) => Http.Ok
    case Books(_) => Http.Ok
    case Found(_) => Http.Ok
    case Paged(_, _) => Http.Ok
    case Created(_) => Http.Created
    case NoContent => Http.NoContent
    case Invalid(_) => Http.BadRequest
    case Refused(status, _) => status
    case Unhandled => Http.InternalServerError
  }

  datatype Result = Result(reply: Reply, store: Store)

  const MsgAuthorNotFound: string := "Author not found"
  const MsgEmailTaken: string := "An author with this email already exists"
  const MsgEmailTakenByAnother: string := "Another author with this email already exists"
  const MsgIdMismatch: string := "ID in URL does not match ID in body"
  const MsgCreateFailed: string := "Error creating author"
  const MsgUpdateFailed: string := "Error updating author"
  const MsgDeleteFailed: string := "Error deleting author"
  const MsgPageTooSmall: string := "Page must be greater than 0"
  const MsgPageSizeRange: string := "Page size must be between 1 and 100"
  const MsgCircuitOpen: string := "Book service is temporarily unavailable due to high failure rate"
  const MsgRetrieveFailed: string := "Error retrieving books information"

  function MsgHasBooks(n: int): string {
    "Cannot delete author with " + IntToString(n) + " associated books"
  }

  /** `s?.Trim()` */
  function TrimOpt(s: Option<string>): (r: Option<string>)
    ensures r.Some? <==> s.Some?
    ensures r.Some? ==> r.value == Trim(s.value)
  {
    if s.Some? then Some(Trim(s.value)) else None
  }

  /** The e-mail of a request, trimmed; a request without one fails
      validation before it is used. */
  function NewEmail(dto: Profile): string {
    Trim(dto.email.GetOr(""))
  }

  /** The `Authors` table declares every text column NOT NULL, so a row
      with a null name, biography, e-mail, country or website is refused
      by the database. */
  predicate Storable(p: Profile) {
    && p.firstName.Some? && p.lastName.Some? && p.biography.Some?
    && p.email.Some? && p.country.Some? && p.website.Some?
  }

  /** `MapToDto` */
  function Dto(a: Author, today: Date): (v: View)
    ensures v.author == a && v.books == [] && v.booksCount == 0
    ensures v.fullName == FullName(a.profile) && v.age == Age(a.profile, today) && v.status == Status(a.profile)
  {
    View(a, FullName(a.profile), Age(a.profile, today), Status(a.profile), [], 0)
  }

  // ---------------------------------------------------------------------
  // Loading the books of an author
  // ---------------------------------------------------------------------

  /** One step of `LoadBooksForAuthorsAsync`: the books on success, none
      on any failure; the count is the number of books kept. */
  function WithBooks(v: View, r: Remote.Result<seq<AuthorBook>>): (w: View)
    ensures w.author == v.author && w.booksCount == |w.books|
    ensures r.Ok? ==> w.books == r.value
    ensures !r.Ok? ==> w.books == []
  {
    if r.Ok? then v.(books := r.value, booksCount := |r.value|) else v.(books := [], booksCount := 0)
  }

  /** `LoadBooksCountFor*`: the count on success, 0 on any failure. */
  function WithCount(v: View, r: Remote.Result<int>): (w: View)
    ensures w.author == v.author && w.books == v.books
    ensures r.Ok? ==> w.booksCount == r.value
    ensures !r.Ok? ==> w.booksCount == 0
  {
    v.(booksCount := if r.Ok? then r.value else 0)
  }

  /** `w` shows the books of a successful list answer, or none after a
      failure, and counts what it shows. */
  predicate ShowsBooks(w: View, r: Remote.Result<seq<AuthorBook>>) {
    w.books == (if r.Ok? then r.value else []) && w.booksCount == |w.books|
  }

  /** `w` shows no books and the count of a successful count answer, or 0
      after a failure. */
  predicate ShowsCount(w: View, r: Remote.Result<int>) {
    w.books == [] && w.booksCount == (if r.Ok? then r.value else 0)
  }

  /** The bulk loaders: every author in turn, no failure escaping. */
  function LoadAll(authors: seq<Author>, today: Date, includeBooks: bool,
                   lists: int -> Remote.Result<seq<AuthorBook>>, counts: int -> Remote.Result<int>): (r: seq<View>)
    ensures |r| == |authors|
    ensures forall i :: 0 <= i < |r| ==> r[i].author == authors[i]
    ensures includeBooks ==> forall i :: 0 <= i < |r| ==> ShowsBooks(r[i], lists(authors[i].authorId))
    ensures !includeBooks ==> forall i :: 0 <= i < |r| ==> ShowsCount(r[i], counts(authors[i].authorId))
  {
    var r := seq(|authors|, i requires 0 <= i < |authors| =>
      var v := Dto(authors[i], today);
      if includeBooks then WithBooks(v, lists(authors[i].authorId)) else WithCount(v, counts(authors[i].authorId)));
    assert forall i :: 0 <= i < |r| ==> r[i].author == authors[i]
                                         && (includeBooks ==> ShowsBooks(r[i], lists(authors[i].authorId)))
                                         && (!includeBooks ==> ShowsCount(r[i], counts(authors[i].authorId))) by {
      forall i | 0 <= i < |r|
        ensures r[i].author == authors[i] && (includeBooks ==> ShowsBooks(r[i], lists(authors[i].authorId)))
             && (!includeBooks ==> ShowsCount(r[i], counts(authors[i].authorId)))
      {
        var v := Dto(authors[i], today);
        if includeBooks {
          assert r[i] == WithBooks(v, lists(authors[i].authorId));
        } else {
          assert r[i] == WithCount(v, counts(authors[i].authorId));
        }
      }
    }
    r
  }

  function AuthorsOf(vs: seq<View>): (r: seq<Author>)
    ensures |r| == |vs| && forall i :: 0 <= i < |r| ==> r[i] == vs[i].author
  {
    seq(|vs|, i requires 0 <= i < |vs| => vs[i].author)
  }

  // ---------------------------------------------------------------------
  // Actions
  // ---------------------------------------------------------------------

  /** `GetAuthors`: every author in store order, never failing. */
  function GetAuthors(s: Store, today: Date, includeBooks: bool, lists: int -> Remote.Result<seq<AuthorBook>>,
                      counts: int -> Remote.Result<int>): (r: Reply)
    ensures r.Listed? && AuthorsOf(r.views) == s.authors
    ensures includeBooks ==> forall i :: 0 <= i < |r.views| ==> ShowsBooks(r.views[i], lists(s.authors[i].authorId))
    ensures !includeBooks ==> forall i :: 0 <= i < |r.views| ==> ShowsCount(r.views[i], counts(s.authors[i].authorId))
  {
    var views := LoadAll(s.authors, today, includeBooks, lists, counts);
    assert AuthorsOf(views) == s.authors;
    Listed(views)
  }

  /** `GetAuthor`. With books asked for, only an open circuit is rethrown
      by `LoadBooksForAuthorAsync` and escapes the action; a timeout or any
      other failure leaves the author without books. */
  function GetAuthor(s: Store, id: int, today: Date, includeBooks: bool, list: Remote.Result<seq<AuthorBook>>,
                     count: Remote.Result<int>): (r: Reply)
    ensures FindById(s.authors, id).None? ==> r == Refused(Http.NotFound, MsgAuthorNotFound)
    ensures r.Found? <==> FindById(s.authors, id).Some? && !(includeBooks && list.BrokenCircuit?)
    ensures r.Found? ==> r.view.author == FindById(s.authors, id).value
    ensures r.Found? && includeBooks ==> ShowsBooks(r.view, list)
    ensures r.Found? && !includeBooks ==> ShowsCount(r.view, count)
    ensures r == Unhandled <==> FindById(s.authors, id).Some? && includeBooks && list.BrokenCircuit?
  {
    match FindById(s.authors, id)
    case None => Refused(Http.NotFound, MsgAuthorNotFound)
    case Some(a) =>
      if !includeBooks then Found(WithCount(Dto(a, today), count))
      else if list.BrokenCircuit? then Unhandled
      else Found(WithBooks(Dto(a, today), list))
  }

  /** The row `CreateAuthor` inserts, as written: names, e-mail and country
      trimmed, both dates, active; biography and website are not copied. */
  function CreatedProfileAsWritten(dto: Profile): Profile {
    Profile(TrimOpt(dto.firstName), TrimOpt(dto.lastName), None, TrimOpt(dto.email), dto.dateOfBirth,
            dto.dateOfDeath, TrimOpt(dto.country), None)
  }

  /** The row as evidently intended: biography and website copied and
      trimmed as `UpdateAuthor` copies them. */
  function CreatedProfile(dto: Profile): Profile {
    Profile(TrimOpt(dto.firstName), TrimOpt(dto.lastName), TrimOpt(dto.biography), TrimOpt(dto.email),
            dto.dateOfBirth, dto.dateOfDeath, TrimOpt(dto.country), TrimOpt(dto.website))
  }

  /** `CreateAuthor` up to the row it builds: validation (the request's
      annotations, then its validator), the e-mail must be new (trimmed,
      exactly), then the insert. */
  function Insert(s: Store, dto: Profile, row: Profile, today: Date, re: Patterns, now: int, saved: bool)
    : (r: Result)
    ensures RequestFailures(dto, today, re) != [] ==> r == Result(Invalid(RequestFailures(dto, today, re)), s)
    ensures r.reply.Created? <==>
      && RequestFailures(dto, today, re) == []
      && FindByEmail(s.authors, NewEmail(dto)).None?
      && saved && Storable(row)
    ensures RequestFailures(dto, today, re) == [] && FindByEmail(s.authors, NewEmail(dto)).Some? ==>
      r.reply == Refused(Http.Conflict, MsgEmailTaken)
    ensures r.reply.Created? ==>
      && r.reply.view == Dto(Author(s.nextId, row, true, now, now), today)
      && r.store == Store(s.authors + [r.reply.view.author], s.nextId + 1)
    ensures !r.reply.Created? ==> r.store == s
  {
    var errors := RequestFailures(dto, today, re);
    if errors != [] then Result(Invalid(errors), s)
    else
      if FindByEmail(s.authors, NewEmail(dto)).Some? then Result(Refused(Http.Conflict, MsgEmailTaken), s)
      else if !saved || !Storable(row) then Result(Refused(Http.InternalServerError, MsgCreateFailed), s)
      else
        var a := Author(s.nextId, row, true, now, now);
        Result(Created(Dto(a, today)), Store(s.authors + [a], s.nextId + 1))
  }

  /** `CreateAuthor` as written. */
  function CreateAuthorAsWritten(s: Store, dto: Profile, today: Date, re: Patterns, now: int, saved: bool): Result {
    Insert(s, dto, CreatedProfileAsWritten(dto), today, re, now, saved)
  }

  /** `CreateAuthor` with the row as evidently intended. */
  function CreateAuthor(s: Store, dto: Profile, today: Date, re: Patterns, now: int, saved: bool): (r: Result)
    ensures r.reply.Created? ==> r.reply.view.author.profile == CreatedProfile(dto)
    ensures r.reply.Created? ==> r.reply.view.author.isActive && r.reply.view.author.authorId == s.nextId
  {
    Insert(s, dto, CreatedProfile(dto), today, re, now, saved)
  }

  function HasId(id: int): Author -> bool {
    (a: Author) => a.authorId == id
  }

  /** The update's e-mail check: only a changed e-mail is looked up, and
      the author being updated is no clash. */
  predicate EmailTakenByAnother(authors: seq<Author>, prior: Author, email: string) {
    && prior.profile.email != Some(email)
    && FindByEmail(authors, email).Some?
    && FindByEmail(authors, email).value.authorId != prior.authorId
  }

  /** The row after `UpdateAuthor`: every field from the request, text
      trimmed, activity as sent, created date kept, modified now. */
  function UpdatedAuthor(prior: Author, dto: Profile, isActive: bool, now: int): Author {
    Author(prior.authorId, CreatedProfile(dto), isActive, prior.createdDate, now)
  }

  /** `UpdateAuthor`: validation (annotations, then the validator), then
      the URL id must match the body's,
      then existence, then the e-mail check (only when the trimmed e-mail
      changes), then the update. */
  function UpdateAuthor(s: Store, id: int, bodyId: int, dto: Profile, isActive: bool, today: Date, re: Patterns,
                        now: int, saved: bool): (r: Result)
    ensures UpdateRequestFailures(bodyId, dto, today, re) != [] ==>
      r == Result(Invalid(UpdateRequestFailures(bodyId, dto, today, re)), s)
    ensures UpdateRequestFailures(bodyId, dto, today, re) == [] && id != bodyId ==>
      r == Result(Refused(Http.BadRequest, MsgIdMismatch), s)
    ensures UpdateRequestFailures(bodyId, dto, today, re) == [] && id == bodyId && FindById(s.authors, id).None? ==>
      r == Result(Refused(Http.NotFound, MsgAuthorNotFound), s)
    ensures UpdateRequestFailures(bodyId, dto, today, re) == [] && id == bodyId && FindById(s.authors, id).Some?
            && EmailTakenByAnother(s.authors, FindById(s.authors, id).value, NewEmail(dto)) ==>
      r == Result(Refused(Http.Conflict, MsgEmailTakenByAnother), s)
    ensures r.reply == NoContent <==>
      && UpdateRequestFailures(bodyId, dto, today, re) == [] && id == bodyId && FindById(s.authors, id).Some?
      && !EmailTakenByAnother(s.authors, FindById(s.authors, id).value, NewEmail(dto))
      && saved && Storable(CreatedProfile(dto))
    ensures r.reply == NoContent ==>
      var prior := FindById(s.authors, id).value;
      r.store == Store(ReplaceWhere(s.authors, HasId(id), UpdatedAuthor(prior, dto, isActive, now)), s.nextId)
    ensures r.reply != NoContent ==> r.store == s
  {
    var errors := UpdateRequestFailures(bodyId, dto, today, re);
    if errors != [] then Result(Invalid(errors), s)
    else if id != bodyId then Result(Refused(Http.BadRequest, MsgIdMismatch), s)
    else
      match FindById(s.authors, id)
      case None => Result(Refused(Http.NotFound, MsgAuthorNotFound), s)
      case Some(prior) =>
        if EmailTakenByAnother(s.authors, prior, NewEmail(dto)) then
          Result(Refused(Http.Conflict, MsgEmailTakenByAnother), s)
        else if !saved || !Storable(CreatedProfile(dto)) then Result(Refused(Http.InternalServerError, MsgUpdateFailed), s)
        else
          var next := ReplaceWhere(s.authors, HasId(id), UpdatedAuthor(prior, dto, isActive, now));
          Result(NoContent, Store(next, s.nextId))
  }

  /** `DeleteAuthor`: an author with books is kept, but any failure to
      count them lets the deletion go ahead. */
  function DeleteAuthor(s: Store, id: int, booksCount: Remote.Result<int>, saved: bool): (r: Result)
    ensures FindById(s.authors, id).None? ==> r == Result(Refused(Http.NotFound, MsgAuthorNotFound), s)
    ensures FindById(s.authors, id).Some? && booksCount.Ok? && booksCount.value > 0 ==>
      r == Result(Refused(Http.BadRequest, MsgHasBooks(booksCount.value)), s)
    ensures r.reply == NoContent <==>
      FindById(s.authors, id).Some? && saved && !(booksCount.Ok? && booksCount.value > 0)
    ensures r.reply == NoContent ==> forall a :: a in r.store.authors <==> a in s.authors && a.authorId != id
    ensures r.reply != NoContent ==> r.store == s
    ensures r.store.nextId == s.nextId
  {
    if FindById(s.authors, id).None? then Result(Refused(Http.NotFound, MsgAuthorNotFound), s)
    else if booksCount.Ok? && booksCount.value > 0 then
      Result(Refused(Http.BadRequest, MsgHasBooks(booksCount.value)), s)
    else if !saved then Result(Refused(Http.InternalServerError, MsgDeleteFailed), s)
    else Result(NoContent, Store(Where(s.authors, (a: Author) => a.authorId != id), s.nextId))
  }

  /** `SearchAuthors`: the page must be at least 1 and the size between 1
      and 100; the reply carries the page, with books or counts, and its
      metadata. */
  function SearchAuthors(s: Store, f: Filter, sortBy: Option<string>, sortOrder: Option<string>, page: int,
                         pageSize: int, today: Date, includeBooks: bool,
                         lists: int -> Remote.Result<seq<AuthorBook>>, counts: int -> Remote.Result<int>)
    : (r: Reply)
    ensures page < 1 ==> r == Refused(Http.BadRequest, MsgPageTooSmall)
    ensures page >= 1 && !(1 <= pageSize <= 100) ==> r == Refused(Http.BadRequest, MsgPageSizeRange)
    ensures r.Paged? <==> page >= 1 && 1 <= pageSize <= 100
    ensures r.Paged? ==>
      && AuthorsOf(r.data) == AuthorRepository.SearchAuthors(s.authors, f, sortBy, sortOrder, page, pageSize)
      && |r.data| <= pageSize
      && (forall i :: 0 <= i < |r.data| ==> r.data[i].author in s.authors && AuthorRepository.Matches(f, r.data[i].author))
      && r.info.totalCount == SearchCount(s.authors, f)
      && r.info.page == page && r.info.pageSize == pageSize
  {
    if page < 1 then Refused(Http.BadRequest, MsgPageTooSmall)
    else if pageSize < 1 || pageSize > 100 then Refused(Http.BadRequest, MsgPageSizeRange)
    else
      var found := AuthorRepository.SearchAuthors(s.authors, f, sortBy, sortOrder, page, pageSize);
      var views := LoadAll(found, today, includeBooks, lists, counts);
      assert AuthorsOf(views) == found;
      Paged(views, Paging.Info(page, pageSize, SearchCount(s.authors, f)))
  }

  /** `GetAuthorBooks`: 404 for a missing author; an open circuit is 503,
      any other failure 500. */
  function GetAuthorBooks(s: Store, id: int, books: Remote.Result<seq<AuthorBook>>): (r: Reply)
    ensures !AuthorExists(s.authors, id) ==> r == Refused(Http.NotFound, MsgAuthorNotFound)
    ensures r.Books? <==> AuthorExists(s.authors, id) && books.Ok?
    ensures r.Books? ==> r.books == books.value
    ensures AuthorExists(s.authors, id) && books.BrokenCircuit? ==> r == Refused(Http.ServiceUnavailable, MsgCircuitOpen)
    ensures AuthorExists(s.authors, id) && (books.TimeoutRejected? || books.Faulted?) ==>
      r == Refused(Http.InternalServerError, MsgRetrieveFailed)
  {
    if !AuthorExists(s.authors, id) then Refused(Http.NotFound, MsgAuthorNotFound)
    else match books
      case Ok(b) => Books(b)
      case BrokenCircuit => Refused(Http.ServiceUnavailable, MsgCircuitOpen)
      case _ => Refused(Http.InternalServerError, MsgRetrieveFailed)
  }

  // ---------------------------------------------------------------------
  // Properties
  // ---------------------------------------------------------------------

  lemma EmptyInv()
    ensures Inv(Store([], 1))
  {
  }

  /** Appending an author with the next id and an e-mail no other author
      has keeps the invariant. */
  lemma AppendKeepsInv(s: Store, a: Author)
    requires Inv(s) && a.authorId == s.nextId
    requires forall i :: 0 <= i < |s.authors| ==> s.authors[i].profile.email != a.profile.email
    ensures Inv(Store(s.authors + [a], s.nextId + 1))
  {
    forall x | x in s.authors ensures x.profile.email != a.profile.email {
      var i :| 0 <= i < |s.authors| && s.authors[i] == x;
    }
  }

  /** Replacing an author by one with the same id and an e-mail no other
      author has keeps the invariant. */
  lemma ReplaceKeepsInv(s: Store, prior: Author, a: Author)
    requires Inv(s) && prior in s.authors && a.authorId == prior.authorId
    requires forall x | x in s.authors && x.authorId != a.authorId :: x.profile.email != a.profile.email
    ensures Inv(Store(ReplaceWhere(s.authors, HasId(a.authorId), a), s.nextId))
  {
  }

  /** A created author gets a new id and an e-mail no other author has. */
  lemma CreateInv(s: Store, dto: Profile, today: Date, re: Patterns, now: int, saved: bool)
    requires Inv(s)
    ensures Inv(CreateAuthor(s, dto, today, re, now, saved).store)
  {
    var r := CreateAuthor(s, dto, today, re, now, saved);
    if r.reply.Created? {
      var a := r.reply.view.author;
      assert Storable(CreatedProfile(dto));
      assert a.profile.email == Some(NewEmail(dto));
      AppendKeepsInv(s, a);
    }
  }

  /** An update keeps the id and either keeps the e-mail or takes one no
      other author has. */
  lemma UpdateInv(s: Store, id: int, bodyId: int, dto: Profile, isActive: bool, today: Date, re: Patterns,
                  now: int, saved: bool)
    requires Inv(s)
    ensures Inv(UpdateAuthor(s, id, bodyId, dto, isActive, today, re, now, saved).store)
  {
    var r := UpdateAuthor(s, id, bodyId, dto, isActive, today, re, now, saved);
    if r.reply == NoContent {
      var prior := FindById(s.authors, id).value;
      var a := UpdatedAuthor(prior, dto, isActive, now);
      var email := NewEmail(dto);
      assert Storable(CreatedProfile(dto));
      assert a.profile.email == Some(email);
      var other := FindByEmail(s.authors, email);
      forall x | x in s.authors && x.authorId != id ensures x.profile.email != Some(email) {
        if prior.profile.email == Some(email) {
          assert x != prior;
        } else if other.Some? {
          assert false;
        } else {
          var i :| 0 <= i < |s.authors| && s.authors[i] == x;
        }
      }
      ReplaceKeepsInv(s, prior, a);
    }
  }

  lemma DeleteInv(s: Store, id: int, booksCount: Remote.Result<int>, saved: bool)
    requires Inv(s)
    ensures Inv(DeleteAuthor(s, id, booksCount, saved).store)
  {
  }

  /** As written, `CreateAuthor` never creates anything: the row it builds
      has a null biography and website, which the table refuses, so every
      request that passes validation and the e-mail check is a 500. */
  lemma CreateAsWrittenNeverSucceeds(s: Store, dto: Profile, today: Date, re: Patterns, now: int, saved: bool)
    ensures !CreateAuthorAsWritten(s, dto, today, re, now, saved).reply.Created?
    ensures RequestFailures(dto, today, re) == [] && FindByEmail(s.authors, NewEmail(dto)).None? ==>
      CreateAuthorAsWritten(s, dto, today, re, now, saved).reply == Refused(Http.InternalServerError, MsgCreateFailed)
  {
  }

  /** The author appended with the next id is the one found under it. */
  lemma AppendedIsFound(s: Store, a: Author)
    requires Inv(s) && a.authorId == s.nextId
    ensures FindById(s.authors + [a], s.nextId) == Some(a)
  {
    var found := FindById(s.authors + [a], s.nextId);
    assert found.Some? by {
      assert (s.authors + [a])[|s.authors|] == a;
    }
    assert found.value !in s.authors;
    assert found.value in s.authors + [a];
  }

  /** A request that passes validation gives a row every NOT NULL column
      accepts: the annotations insist on a biography and a website. */
  lemma ValidRequestStorable(dto: Profile, today: Date, re: Patterns)
    requires RequestFailures(dto, today, re) == []
    ensures Storable(CreatedProfile(dto))
  {
    RequestValidIff(dto, today, re);
  }

  /** With the row as intended, a valid request with a new e-mail and a
      working database creates the author, and reading it back gives every
      field of the request, trimmed. */
  lemma CreatedAuthorReadsBack(s: Store, dto: Profile, today: Date, re: Patterns, now: int)
    requires Inv(s)
    requires RequestFailures(dto, today, re) == [] && FindByEmail(s.authors, NewEmail(dto)).None?
    ensures var r := CreateAuthor(s, dto, today, re, now, true);
      && r.reply.Created?
      && var got := GetAuthor(r.store, s.nextId, today, false, Remote.Ok([]), Remote.Ok(0));
      && got.Found?
      && got.view.author.profile == CreatedProfile(dto)
      && Storable(got.view.author.profile)
      && got.view.author.profile.biography == Some(Trim(dto.biography.value))
      && got.view.author.profile.website == Some(Trim(dto.website.value))
  {
    ValidRequestStorable(dto, today, re);
    RequestValidIff(dto, today, re);
    var r := CreateAuthor(s, dto, today, re, now, true);
    assert r.reply.Created?;
    AppendedIsFound(s, r.reply.view.author);
  }

  /** A website without a scheme is a 400 on create and on update, and
      nothing is stored, however the validator's own pattern judges it. */
  lemma SchemelessWebsiteRefused(s: Store, p: Profile, id: int, isActive: bool, today: Date, re: Patterns,
                                 now: int, saved: bool)
    ensures var dto := p.(website := Some("example.com"));
      && CreateAuthor(s, dto, today, re, now, saved).reply.Invalid?
      && CreateAuthor(s, dto, today, re, now, saved).store == s
      && UpdateAuthor(s, id, id, dto, isActive, today, re, now, saved).reply.Invalid?
      && UpdateAuthor(s, id, id, dto, isActive, today, re, now, saved).store == s
  {
    var dto := p.(website := Some("example.com"));
    WebsiteNeedsScheme(p, today, re);
    UpdateRequestValidIff(id, dto, today, re);
  }

  /** A deleted author is gone. */
  lemma DeletedAuthorNotFound(s: Store, id: int, booksCount: Remote.Result<int>, saved: bool, today: Date,
                              list: Remote.Result<seq<AuthorBook>>, count: Remote.Result<int>)
    requires DeleteAuthor(s, id, booksCount, saved).reply == NoContent
    ensures GetAuthor(DeleteAuthor(s, id, booksCount, saved).store, id, today, false, list, count)
      == Refused(Http.NotFound, MsgAuthorNotFound)
  {
    var r := DeleteAuthor(s, id, booksCount, saved);
    forall i | 0 <= i < |r.store.authors| ensures r.store.authors[i].authorId != id {
      assert r.store.authors[i] in r.store.authors;
    }
  }

  /** Unlike the category service, any failure to count the books lets an
      author be deleted, a timeout and an open circuit included. */
  lemma UncountedAuthorDeleted(s: Store, id: int, booksCount: Remote.Result<int>)
    requires FindById(s.authors, id).Some? && !booksCount.Ok?
    ensures DeleteAuthor(s, id, booksCount, true).reply == NoContent
  {
  }

  /** The id check comes after validation: a request that fails validation
      is a 400 with the failures even when the ids differ. */
  lemma IdCheckedAfterValidation(s: Store, id: int, bodyId: int, dto: Profile, isActive: bool, today: Date,
                                 re: Patterns, now: int, saved: bool)
    requires id != bodyId && UpdateRequestFailures(bodyId, dto, today, re) != []
    ensures UpdateAuthor(s, id, bodyId, dto, isActive, today, re, now, saved).reply
         == Invalid(UpdateRequestFailures(bodyId, dto, today, re))
  {
  }

  /** Re-sending an author's own e-mail, with white space around it, never
      conflicts. */
  lemma OwnEmailNeverConflicts(s: Store, id: int, dto: Profile, isActive: bool, today: Date, re: Patterns,
                               now: int, saved: bool)
    requires FindById(s.authors, id).Some? && dto.email.Some?
    requires FindById(s.authors, id).value.profile.email == Some(NewEmail(dto))
    ensures UpdateAuthor(s, id, id, dto, isActive, today, re, now, saved).reply != Refused(Http.Conflict, MsgEmailTakenByAnother)
  {
  }

  /** The page metadata agrees with the data. */
  lemma SearchMetadataConsistent(s: Store, f: Filter, sortBy: Option<string>, sortOrder: Option<string>, page: int,
                                 pageSize: int, today: Date, includeBooks: bool,
                                 lists: int -> Remote.Result<seq<AuthorBook>>, counts: int -> Remote.Result<int>)
    requires page >= 1 && 1 <= pageSize <= 100
    ensures var r := SearchAuthors(s, f, sortBy, sortOrder, page, pageSize, today, includeBooks, lists, counts);
      && (r.data != [] <==> page <= r.info.totalPages)
      && (r.info.hasNext <==> r.info.totalCount > page * pageSize)
      && (r.info.hasPrevious <==> page > 1)
  {
    var r := SearchAuthors(s, f, sortBy, sortOrder, page, pageSize, today, includeBooks, lists, counts);
    AuthorRepository.CountAgreesWithPages(s.authors, f, sortBy, sortOrder, page, pageSize);
    Paging.HasNextIffMoreItems(SearchCount(s.authors, f), page, pageSize);
    assert |AuthorsOf(r.data)| == |r.data|;
  }

  /** The single-author loader rethrows an open circuit but swallows a
      timeout, while the bulk loader swallows both. */
  lemma SingleLoaderRethrowsOnlyOpenCircuit(s: Store, id: int, today: Date, count: Remote.Result<int>,
                                            counts: int -> Remote.Result<int>)
    requires FindById(s.authors, id).Some?
    ensures GetAuthor(s, id, today, true, Remote.BrokenCircuit, count) == Unhandled
    ensures GetAuthor(s, id, today, true, Remote.TimeoutRejected, count).Found?
    ensures var r := GetAuthors(s, today, true, _ => Remote.BrokenCircuit, counts);
      forall i :: 0 <= i < |r.views| ==> r.views[i].books == [] && r.views[i].booksCount == 0
  {
    var r := GetAuthors(s, today, true, _ => Remote.BrokenCircuit, counts);
    forall i | 0 <= i < |r.views| ensures r.views[i].books == [] && r.views[i].booksCount == 0 {
      assert r.views[i] == WithBooks(Dto(s.authors[i], today), Remote.BrokenCircuit);
    }
  }

  /** Every remote call runs on a policy built for it, whose breaker starts
      closed, so the open-circuit answers are never given: `GetAuthorBooks`
      never replies 503 and `GetAuthor` never lets an exception escape. */
  lemma OpenCircuitUnreachable(s: Store, id: int, today: Date, t: Resilience.TimeoutPolicy,
                               bp: Resilience.BreakerPolicy, rp: Resilience.RetryPolicy, now: real,
                               run: nat -> Resilience.Attempt, books: seq<AuthorBook>, count: Remote.Result<int>)
    ensures var answer := Remote.OfVerdict(Resilience.ExecuteWrapped(t, bp, rp, Resilience.Closed(0), now, run).verdict, books);
      && StatusOf(GetAuthorBooks(s, id, answer)) != Http.ServiceUnavailable
      && GetAuthor(s, id, today, true, answer, count) != Unhandled
  {
    Resilience.FreshPolicyNeverRefuses(t, bp, rp, now, run);
  }
}
