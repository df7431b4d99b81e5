/** BooksService's `BooksController`: listing, reading, creating, updating,
    deleting and searching books. The books table is a sequence of rows with
    an identity counter. Each remote look-up (does the category exist, does
    the author exist) reaches the controller already wrapped by its
    resilience policy, as a `Remote.Result`; the create validator's verdict
    is its list of error messages, and `DateTime.UtcNow` is `now`. A book
    and its `BookDto` carry the same fields, so replies carry books. */
module BookController {
  import opened Common
  import opened Query
  import opened BookRepository
  import Remote
  import Resilience
  import BooksRpc
  import Http
  import Paging

  datatype Store = Store(books: seq<Book>, nextId: int)

  /** Holds of the table the operations keep: identity values handed out so
      far, one row per id, and no two books sharing an ISBN. */
  ghost predicate Inv(s: Store) {
    && s.nextId >= 1
    && (forall b | b in s.books :: 1 <= b.id < s.nextId)
    && (forall a, b | a in s.books && b in s.books :: a.id == b.id ==> a == b)
    && (forall a, b | a in s.books && b in s.books :: a.isbn == b.isbn ==> a == b)
  }

  /** The request body of `CreateBook`. */
  datatype CreateBookDto = CreateBookDto(title: string, authorId: int, publisher: string, year: int, isbn: string,
                                         pages: int, categoryId: int, language: string, description: string,
                                         photoPath: string)

  /** The request body of `UpdateBook`. */
  datatype UpdateBookDto = UpdateBookDto(title: string, authorId: int, publisher: string, year: int, isbn: string,
                                         pages: int, categoryId: int, language: string, description: string,
                                         photoPath: string, isAvailable: bool)

  datatype Reply =
    | Listed(books: seq<Book>)              // 200 with a list
    | Found(book: Book)                     // 200 with one book
    | Paged(data: seq<Book>, info: Paging.PageInfo) // 200 with a search page
    | Created(book: Book)                   // 201
    | NoContent                             // 204
    | Invalid(errors: seq<string>)          // 400 with the validator's messages
    | Refused(status: int, message: string) // any other status with a message

  function StatusOf(r: Reply): int {
    match r
    case Listed(_) => Http.Ok
    case Found(_) => Http.Ok
    case Paged(_, _) => Http.Ok
    case Created(_) => Http.Created
    case NoContent => Http.NoContent
    case Invalid(_) => Http.BadRequest
    case Refused(status, _) => status
  }

  datatype Result = Result(reply: Reply, store: Store)

  const MsgBookNotFound: string := "Book not found"

  function MsgIsbnTaken(isbn: string): string {
    "Book with ISBN " + isbn + " already exists"
  }

  function MsgIsbnTakenByAnother(isbn: string): string {
    "Another book with ISBN " + isbn + " already exists"
  }

  function MsgCategoryMissing(id: int): string {
    "Category with ID " + IntToString(id) + " does not exist"
  }

  function MsgAuthorMissing(id: int): string {
    "Author with ID " + IntToString(id) + " does not exist"
  }
  const MsgTimeout: string := "External service is temporarily unavailable"
  const MsgCircuitOpen: string := "External service is currently unavailable. Please try again later."
  const MsgInternal: string := "Internal server error"
  const MsgPageTooSmall: string := "Page must be greater than 0"
  const MsgPageSizeRange: string := "Page size must be between 1 and 100"
  const MsgRetrieveFailed: string := "Error retrieving books"

  /** The catch clauses of `CreateBook` and `UpdateBook`: a timeout and an
      open circuit are 503, anything else 500. */
  function RemoteFailure<T>(r: Remote.Result<T>): (reply: Reply)
    requires !r.Ok?
    ensures StatusOf(reply) == Http.ServiceUnavailable <==> r.TimeoutRejected? || r.BrokenCircuit?
    ensures StatusOf(reply) == Http.InternalServerError <==> r.Faulted?
  {
    match r
    case TimeoutRejected => Refused(Http.ServiceUnavailable, MsgTimeout)
    case BrokenCircuit => Refused(Http.ServiceUnavailable, MsgCircuitOpen)
    case Faulted(_) => Refused(Http.InternalServerError, MsgInternal)
  }

  /** The remote answer says the entity exists. */
  predicate CategoryConfirmed(c: Remote.Result<BooksRpc.CategoryBody>) {
    c.Ok? && c.value.found
  }

  predicate AuthorConfirmed(a: Remote.Result<BooksRpc.AuthorBody>) {
    a.Ok? && a.value.found
  }

  /** The row `CreateBook` inserts: the request's fields, the names the two
      services returned, available, added now. */
  function NewBook(id: int, dto: CreateBookDto, categoryTitle: string, authorName: string, now: int): Book {
    Book(id, dto.title, authorName, dto.publisher, dto.year, dto.isbn, dto.pages, categoryTitle, dto.categoryId,
         dto.authorId, dto.language, dto.description, dto.photoPath, true, Some(now))
  }

  /** `GetBooks`: every stored book, none added or dropped. */
  function GetBooks(s: Store): (r: Reply)
    ensures r.Listed? && |r.books| == |s.books|
    ensures forall b :: b in r.books <==> b in s.books
  {
    Listed(s.books)
  }

  /** `GetBook` */
  function GetBook(s: Store, id: int): (r: Reply)
    ensures r.Found? <==> FindById(s.books, id).Some?
    ensures r.Found? ==> r.book in s.books && r.book.id == id
    ensures !r.Found? ==> r == Refused(Http.NotFound, MsgBookNotFound)
  {
    match FindById(s.books, id)
    case None => Refused(Http.NotFound, MsgBookNotFound)
    case Some(b) => Found(b)
  }

  /** `GetAvailableBooks` */
  function GetAvailableBooks(s: Store): (r: Reply)
    ensures r.Listed? && forall b :: b in r.books <==> b in s.books && b.isAvailable
  {
    Listed(Available(s.books))
  }

  /** `CreateBook`: validation, then the ISBN check, then the category and
      the author (each asked only when everything before it passed), then
      the insert. */
  function CreateBook(s: Store, dto: CreateBookDto, errors: seq<string>,
                      category: Remote.Result<BooksRpc.CategoryBody>, author: Remote.Result<BooksRpc.AuthorBody>,
                      now: int): (r: Result)
    ensures errors != [] ==> r == Result(Invalid(errors), s)
    ensures r.reply.Created? <==>
      errors == [] && !IsbnExists(s.books, dto.isbn, None) && CategoryConfirmed(category) && AuthorConfirmed(author)
    ensures r.reply.Created? ==>
      && r.reply.book == NewBook(s.nextId, dto, category.value.categoryTitle, author.value.authorName, now)
      && r.store == Store(s.books + [r.reply.book], s.nextId + 1)
    ensures !r.reply.Created? ==> r.store == s
    ensures errors == [] && IsbnExists(s.books, dto.isbn, None) ==> r.reply == Refused(Http.Conflict, MsgIsbnTaken(dto.isbn))
  {
    if errors != [] then Result(Invalid(errors), s)
    else if IsbnExists(s.books, dto.isbn, None) then Result(Refused(Http.Conflict, MsgIsbnTaken(dto.isbn)), s)
    else if !category.Ok? then Result(RemoteFailure(category), s)
    else if !category.value.found then Result(Refused(Http.BadRequest, MsgCategoryMissing(dto.categoryId)), s)
    else if !author.Ok? then Result(RemoteFailure(author), s)
    else if !author.value.found then Result(Refused(Http.BadRequest, MsgAuthorMissing(dto.authorId)), s)
    else
      var b := NewBook(s.nextId, dto, category.value.categoryTitle, author.value.authorName, now);
      Result(Created(b), Store(s.books + [b], s.nextId + 1))
  }

  /** The row after `UpdateBook`: the request's fields, the names of the
      category and author (fresh from the services when the id changed), the
      original id and date added. */
  function UpdatedBook(prior: Book, dto: UpdateBookDto, categoryTitle: string, authorName: string): Book {
    Book(prior.id, dto.title, authorName, dto.publisher, dto.year, dto.isbn, dto.pages, categoryTitle, dto.categoryId,
         dto.authorId, dto.language, dto.description, dto.photoPath, dto.isAvailable, prior.addedToLibrary)
  }

  /** Every row with id `id` replaced by `b`. */
  function Replace(books: seq<Book>, id: int, b: Book): (r: seq<Book>)
    ensures |r| == |books|
    ensures forall x :: x in r <==> (x == b && FindById(books, id).Some?) || (x in books && x.id != id)
  {
    ReplaceWhere(books, (x: Book) => x.id == id, b)
  }

  /** `UpdateBook`: validation, existence, the ISBN check (only when the
      ISBN changes, excluding the book itself), the category and author
      checks (only when their ids change), then the update. */
  function UpdateBook(s: Store, id: int, dto: UpdateBookDto, errors: seq<string>,
                      category: Remote.Result<BooksRpc.CategoryBody>, author: Remote.Result<BooksRpc.AuthorBody>)
    : (r: Result)
    ensures errors != [] ==> r == Result(Invalid(errors), s)
    ensures errors == [] && FindById(s.books, id).None? ==> r == Result(Refused(Http.NotFound, MsgBookNotFound), s)
    ensures r.reply == NoContent <==>
      && errors == [] && FindById(s.books, id).Some?
      && var prior := FindById(s.books, id).value;
      && (prior.isbn == dto.isbn || !IsbnExists(s.books, dto.isbn, Some(id)))
      && (prior.categoryId == dto.categoryId || CategoryConfirmed(category))
      && (prior.authorId == dto.authorId || AuthorConfirmed(author))
    ensures r.reply == NoContent ==>
      var prior := FindById(s.books, id).value;
      var title := if prior.categoryId == dto.categoryId then prior.category else category.value.categoryTitle;
      var name := if prior.authorId == dto.authorId then prior.author else author.value.authorName;
      r.store == Store(Replace(s.books, id, UpdatedBook(prior, dto, title, name)), s.nextId)
    ensures r.reply != NoContent ==> r.store == s
  {
    if errors != [] then Result(Invalid(errors), s)
    else match FindById(s.books, id)
      case None => Result(Refused(Http.NotFound, MsgBookNotFound), s)
      case Some(prior) =>
        if prior.isbn != dto.isbn && IsbnExists(s.books, dto.isbn, Some(id)) then
          Result(Refused(Http.Conflict, MsgIsbnTakenByAnother(dto.isbn)), s)
        else if prior.categoryId != dto.categoryId && !category.Ok? then Result(RemoteFailure(category), s)
        else if prior.categoryId != dto.categoryId && !category.value.found then
          Result(Refused(Http.BadRequest, MsgCategoryMissing(dto.categoryId)), s)
        else if prior.authorId != dto.authorId && !author.Ok? then Result(RemoteFailure(author), s)
        else if prior.authorId != dto.authorId && !author.value.found then
          Result(Refused(Http.BadRequest, MsgAuthorMissing(dto.authorId)), s)
        else
          var title := if prior.categoryId == dto.categoryId then prior.category else category.value.categoryTitle;
          var name := if prior.authorId == dto.authorId then prior.author else author.value.authorName;
          Result(NoContent, Store(Replace(s.books, id, UpdatedBook(prior, dto, title, name)), s.nextId))
  }

  /** `DeleteBook`: 404 for a missing book, otherwise the row goes. */
  function DeleteBook(s: Store, id: int): (r: Result)
    ensures r.reply == NoContent <==> FindById(s.books, id).Some?
    ensures r.reply != NoContent ==> r == Result(Refused(Http.NotFound, MsgBookNotFound), s)
    ensures r.reply == NoContent ==> forall b :: b in r.store.books <==> b in s.books && b.id != id
    ensures r.store.nextId == s.nextId
  {
    if FindById(s.books, id).None? then Result(Refused(Http.NotFound, MsgBookNotFound), s)
    else Result(NoContent, Store(Where(s.books, (b: Book) => b.id != id), s.nextId))
  }

  /** `SearchBooks`: the page must be at least 1 and the size between 1 and
      100; the reply carries the page and its metadata. */
  function SearchBooks(s: Store, f: Filter, sortBy: Option<string>, sortOrder: Option<string>,
                       page: int, pageSize: int): (r: Reply)
    ensures page < 1 ==> r == Refused(Http.BadRequest, MsgPageTooSmall)
    ensures page >= 1 && !(1 <= pageSize <= 100) ==> r == Refused(Http.BadRequest, MsgPageSizeRange)
    ensures r.Paged? <==> page >= 1 && 1 <= pageSize <= 100
    ensures r.Paged? ==>
      && r.data == BookRepository.SearchBooks(s.books, f, sortBy, sortOrder, page, pageSize)
      && |r.data| <= pageSize
      && r.info.totalCount == SearchCount(s.books, f)
      && r.info.page == page && r.info.pageSize == pageSize
  {
    if page < 1 then Refused(Http.BadRequest, MsgPageTooSmall)
    else if pageSize < 1 || pageSize > 100 then Refused(Http.BadRequest, MsgPageSizeRange)
    else
      var data := BookRepository.SearchBooks(s.books, f, sortBy, sortOrder, page, pageSize);
      Paged(data, Paging.Info(page, pageSize, SearchCount(s.books, f)))
  }

  /** `GetBooksByAuthor`: the author must be confirmed, except that an open
      circuit falls back to listing the books anyway; any other failure is
      500. */
  function GetBooksByAuthor(s: Store, authorId: int, author: Remote.Result<BooksRpc.AuthorBody>): (r: Reply)
    ensures r.Listed? <==> AuthorConfirmed(author) || author.BrokenCircuit?
    ensures r.Listed? ==> r.books == ByAuthor(s.books, authorId)
    ensures author.Ok? && !author.value.found ==> r == Refused(Http.NotFound, MsgAuthorMissing(authorId))
    ensures author.TimeoutRejected? || author.Faulted? ==> r == Refused(Http.InternalServerError, MsgRetrieveFailed)
  {
    match author
    case Ok(a) => if a.found then Listed(ByAuthor(s.books, authorId)) else Refused(Http.NotFound, MsgAuthorMissing(authorId))
    case BrokenCircuit => Listed(ByAuthor(s.books, authorId))
    case _ => Refused(Http.InternalServerError, MsgRetrieveFailed)
  }

  // ---------------------------------------------------------------------
  // Properties
  // ---------------------------------------------------------------------

  lemma EmptyInv()
    ensures Inv(Store([], 1))
  {
  }

  /** A created book gets a new id and an ISBN no other book has. */
  lemma CreateInv(s: Store, dto: CreateBookDto, errors: seq<string>,
                  category: Remote.Result<BooksRpc.CategoryBody>, author: Remote.Result<BooksRpc.AuthorBody>, now: int)
    requires Inv(s)
    ensures Inv(CreateBook(s, dto, errors, category, author, now).store)
  {
    var r := CreateBook(s, dto, errors, category, author, now);
    if r.reply.Created? {
      var b := r.reply.book;
      forall x | x in s.books ensures x.isbn != b.isbn {
        var i :| 0 <= i < |s.books| && s.books[i] == x;
      }
    }
  }

  /** An update keeps the id and either keeps the ISBN or takes one no
      other book has. */
  lemma UpdateInv(s: Store, id: int, dto: UpdateBookDto, errors: seq<string>,
                  category: Remote.Result<BooksRpc.CategoryBody>, author: Remote.Result<BooksRpc.AuthorBody>)
    requires Inv(s)
    ensures Inv(UpdateBook(s, id, dto, errors, category, author).store)
  {
    var r := UpdateBook(s, id, dto, errors, category, author);
    if r.reply == NoContent {
      var prior := FindById(s.books, id).value;
      forall x | x in s.books && x.id != id ensures x.isbn != dto.isbn || prior.isbn == dto.isbn {
        if prior.isbn != dto.isbn {
          var i :| 0 <= i < |s.books| && s.books[i] == x;
        }
      }
    }
  }

  lemma DeleteInv(s: Store, id: int)
    requires Inv(s)
    ensures Inv(DeleteBook(s, id).store)
  {
  }

  /** A book is found by the id it was created under, with the ISBN it was
      created with. */
  lemma CreatedBookIsFound(s: Store, dto: CreateBookDto,
                           category: Remote.Result<BooksRpc.CategoryBody>, author: Remote.Result<BooksRpc.AuthorBody>,
                           now: int)
    requires Inv(s)
    requires CreateBook(s, dto, [], category, author, now).reply.Created?
    ensures var r := CreateBook(s, dto, [], category, author, now);
      GetBook(r.store, s.nextId) == Found(r.reply.book) && r.reply.book.isbn == dto.isbn
  {
    var r := CreateBook(s, dto, [], category, author, now);
    var b := r.reply.book;
    assert b in r.store.books;
    var got := FindById(r.store.books, s.nextId);
    assert got.Some?;
    assert got.value in r.store.books;
  }

  /** A deleted book is gone. */
  lemma DeletedBookNotFound(s: Store, id: int)
    ensures GetBook(DeleteBook(s, id).store, id) == Refused(Http.NotFound, MsgBookNotFound)
  {
    var r := DeleteBook(s, id);
    if r.reply == NoContent {
      forall i | 0 <= i < |r.store.books| ensures r.store.books[i].id != id {
        assert r.store.books[i] in r.store.books;
      }
    }
  }

  /** Re-sending a book's own ISBN never conflicts, even if another row
      carried it. */
  lemma OwnIsbnNeverConflicts(s: Store, id: int, dto: UpdateBookDto,
                              category: Remote.Result<BooksRpc.CategoryBody>, author: Remote.Result<BooksRpc.AuthorBody>)
    requires FindById(s.books, id).Some? && FindById(s.books, id).value.isbn == dto.isbn
    ensures UpdateBook(s, id, dto, [], category, author).reply != Refused(Http.Conflict, MsgIsbnTakenByAnother(dto.isbn))
  {
  }

  /** When the category id is unchanged the category service is not asked:
      its answer, even a timeout, makes no difference. */
  lemma UnchangedCategoryNotConsulted(s: Store, id: int, dto: UpdateBookDto, errors: seq<string>,
                                      c1: Remote.Result<BooksRpc.CategoryBody>, c2: Remote.Result<BooksRpc.CategoryBody>,
                                      author: Remote.Result<BooksRpc.AuthorBody>)
    requires FindById(s.books, id).Some? && FindById(s.books, id).value.categoryId == dto.categoryId
    ensures UpdateBook(s, id, dto, errors, c1, author) == UpdateBook(s, id, dto, errors, c2, author)
  {
  }

  /** The author service is asked only after the category is confirmed:
      with an unconfirmed category its answer makes no difference. */
  lemma AuthorAskedAfterCategory(s: Store, dto: CreateBookDto, errors: seq<string>,
                                 category: Remote.Result<BooksRpc.CategoryBody>,
                                 a1: Remote.Result<BooksRpc.AuthorBody>, a2: Remote.Result<BooksRpc.AuthorBody>, now: int)
    requires !CategoryConfirmed(category)
    ensures CreateBook(s, dto, errors, category, a1, now) == CreateBook(s, dto, errors, category, a2, now)
  {
  }

  /** The page metadata agrees with the data: the page holds books exactly
      when it is not past the last page, and `hasNext` says that books
      remain after it. */
  lemma SearchMetadataConsistent(s: Store, f: Filter, sortBy: Option<string>, sortOrder: Option<string>,
                                 page: int, pageSize: int)
    requires page >= 1 && 1 <= pageSize <= 100
    ensures var r := SearchBooks(s, f, sortBy, sortOrder, page, pageSize);
      && (r.data != [] <==> page <= r.info.totalPages)
      && (r.info.hasNext <==> r.info.totalCount > page * pageSize)
      && (r.info.hasPrevious <==> page > 1)
  {
    BookRepository.CountAgreesWithPages(s.books, f, sortBy, sortOrder, page, pageSize);
    Paging.HasNextIffMoreItems(SearchCount(s.books, f), page, pageSize);
  }

  /** With the circuit open the author's books are still listed, but a
      timeout of the same look-up is a 500. The open-circuit answer is one
      `GetBooksByAuthor` never receives: see `OpenCircuitUnreachable`. */
  lemma OpenCircuitDegradesGracefully(s: Store, authorId: int)
    ensures GetBooksByAuthor(s, authorId, Remote.BrokenCircuit) == Listed(ByAuthor(s.books, authorId))
    ensures StatusOf(GetBooksByAuthor(s, authorId, Remote.TimeoutRejected)) == Http.InternalServerError
  {
  }

  /** The controller builds its policy in its constructor and is built
      anew for each request, so the author look-up of `GetBooksByAuthor` is
      the first execution through a closed breaker: it is never refused with
      `BrokenCircuitException`, and the books are listed exactly when the
      author is confirmed. */
  lemma OpenCircuitUnreachable(s: Store, authorId: int, now: real, run: nat -> Resilience.Attempt,
                               body: BooksRpc.AuthorBody)
    ensures var p := Resilience.BookControllerPipeline;
      var author := Remote.OfVerdict(Resilience.ExecuteWrapped(p[0].timeout, p[1].breaker, p[2].retry,
                                                               Resilience.Closed(0), now, run).verdict, body);
      && !author.BrokenCircuit?
      && (GetBooksByAuthor(s, authorId, author).Listed? <==> AuthorConfirmed(author))
  {
    var p := Resilience.BookControllerPipeline;
    Resilience.FreshPolicyNeverRefuses(p[0].timeout, p[1].breaker, p[2].retry, now, run);
  }
}
