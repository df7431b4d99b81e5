/** CategoryService's `CategoryController`: listing, reading, creating,
    updating, deleting, searching and ranking categories, each category
    decorated with the books BooksService reports for it. Every remote
    answer reaches the controller already wrapped by its resilience policy,
    as a `Remote.Result`; a per-category answer is a function of the
    category id. Whether `SaveChanges` succeeds is the parameter `saved`. */
module CategoryController {
  import opened Common
  import opened Ordering
  import opened Query
  import opened Rules
  import opened CategoryValidation
  import opened CategoryRepository
  import Remote
  import Resilience
  import BookListRpc
  import Correlation
  import Http
  import Paging

  /** A book as BooksService sends it in a `GetBooksByCategoryResponse`. */
  datatype RemoteBook = RemoteBook(id: int, title: string, author: string, publisher: string, year: int,
                                   isbn: string, pages: int, language: string, description: string,
                                   photoPath: string, isAvailable: bool, addedToLibrary: Option<int>)

  /** The `Dtos.BookDto` a category carries: five fields of the remote book. */
  datatype BookSummary = BookSummary(id: int, title: string, author: string, year: int, isAvailable: bool)

  function Summary(b: RemoteBook): BookSummary {
    BookSummary(b.id, b.title, b.author, b.year, b.isAvailable)
  }

  /** A `CategoryDto`: the category, its books (empty unless they were
      asked for) and their count. */
  datatype View = View(category: Category, books: seq<BookSummary>, booksCount: int)

  /** The body of `CreateCategory` and `UpdateCategory`. */
  datatype Form = Form(title: Option<string>, description: Option<string>)

  datatype Store = Store(categories: seq<Category>, nextId: int)

  /** Holds of the table the operations keep: identity values handed out so
      far, one row per id, and no two categories sharing a title. */
  ghost predicate Inv(s: Store) {
    && s.nextId >= 1
    && (forall c | c in s.categories :: 1 <= c.id < s.nextId)
    && (forall a, b | a in s.categories && b in s.categories :: a.id == b.id ==> a == b)
    && (forall a, b | a in s.categories && b in s.categories :: TitleOf(a) == TitleOf(b) ==> a == b)
  }

  datatype Reply =
    | Listed(views: seq<View>)                    // 200 with a list
    | Found(view: View)                           // 200 with one category
    | Paged(data: seq<View>, info: Paging.PageInfo) // 200 with a search page
    | Flag(exists_: bool)                         // 200 with a boolean
    | Created(view: View)                         // 201
    | NoContent                                   // 204
    | Invalid(errors: seq<Failure>)               // 400 with the validator's failures
    | Refused(status: int, message: string)       // any other status with a message
    | Unhandled                                   // an exception escapes the action: 500

  function StatusOf(r: Reply): int {
    match r
    case Listed(_) => Http.Ok
    case Found(_) => Http.Ok
    case Paged(_, _) => Http.Ok
    case Flag(_) => Http.Ok
    case Created(_) => Http.Created
    case NoContent => Http.NoContent
    case Invalid(_) => Http.BadRequest
    case Refused(status, _) => status
    case Unhandled => Http.InternalServerError
  }

  datatype Result = Result(reply: Reply, store: Store)

  const MsgCategoryNotFound: string := "Category not found"
  const MsgCreateFailed: string := "Error creating category"
  const MsgUpdateFailed: string := "Error updating category"
  const MsgDeleteFailed: string := "Error deleting category"
  const MsgDeletionPostponed: string := "Cannot verify book service availability. Deletion postponed."
  const MsgBookServiceDown: string := "Book service is unavailable. Please try again later."
  const MsgCountRange: string := "Count must be between 1 and 20"
  const MsgTitleRequired: string := "Title is required"

  function MsgTitleTaken(title: string): string {
    "Category with title '" + title + "' already exists"
  }

  function MsgHasBooks(n: int): string {
    "Cannot delete category with " + IntToString(n) + " associated books"
  }

  // ---------------------------------------------------------------------
  // Loading the books of a category
  // ---------------------------------------------------------------------

  /** `MapToDto`: no books, count 0. */
  function Bare(c: Category): View {
    View(c, [], 0)
  }

  /** One step of `LoadBooksForCategoriesAsync`: the books on success,
      none on any failure; the count is always the number of books kept. */
  function WithBooks(c: Category, r: Remote.Result<seq<RemoteBook>>): (v: View)
    ensures v.category == c && v.booksCount == |v.books|
    ensures r.Ok? ==> |v.books| == |r.value| && forall i :: 0 <= i < |v.books| ==> v.books[i] == Summary(r.value[i])
    ensures !r.Ok? ==> v.books == []
  {
    if r.Ok? then
      var books := seq(|r.value|, i requires 0 <= i < |r.value| => Summary(r.value[i]));
      View(c, books, |books|)
    else Bare(c)
  }

  /** `LoadBooksCountFor*`: the count on success, 0 on any failure. */
  function WithCount(c: Category, r: Remote.Result<int>): (v: View)
    ensures v.category == c && v.books == []
    ensures r.Ok? ==> v.booksCount == r.value
    ensures !r.Ok? ==> v.booksCount == 0
  {
    if r.Ok? then View(c, [], r.value) else Bare(c)
  }

  /** `v` shows the summaries of a successful list answer, one per remote
      book in order, or none after a failure, and counts what it shows. */
  predicate ShowsBooks(v: View, r: Remote.Result<seq<RemoteBook>>) {
    && v.booksCount == |v.books|
    && (r.Ok? ==> |v.books| == |r.value| && forall i :: 0 <= i < |v.books| ==> v.books[i] == Summary(r.value[i]))
    && (!r.Ok? ==> v.books == [])
  }

  /** `v` shows no books and the count of a successful count answer, or 0
      after a failure. */
  predicate ShowsCount(v: View, r: Remote.Result<int>) {
    v.books == [] && v.booksCount == (if r.Ok? then r.value else 0)
  }

  /** The bulk loaders: every category in turn, no failure escaping. */
  function LoadAll(cs: seq<Category>, includeBooks: bool, lists: int -> Remote.Result<seq<RemoteBook>>,
                   counts: int -> Remote.Result<int>): (r: seq<View>)
    ensures |r| == |cs|
    ensures forall i :: 0 <= i < |r| ==> r[i].category == cs[i]
    ensures includeBooks ==> forall i :: 0 <= i < |r| ==> r[i] == WithBooks(cs[i], lists(cs[i].id))
    ensures !includeBooks ==> forall i :: 0 <= i < |r| ==> r[i] == WithCount(cs[i], counts(cs[i].id))
  {
    var r := seq(|cs|, i requires 0 <= i < |cs| =>
      if includeBooks then WithBooks(cs[i], lists(cs[i].id)) else WithCount(cs[i], counts(cs[i].id)));
    assert forall i :: 0 <= i < |r| ==> r[i].category == cs[i] by {
      forall i | 0 <= i < |r| ensures r[i].category == cs[i] {
        if includeBooks {
          assert r[i] == WithBooks(cs[i], lists(cs[i].id));
        } else {
          assert r[i] == WithCount(cs[i], counts(cs[i].id));
        }
      }
    }
    r
  }

  function Categories(vs: seq<View>): (r: seq<Category>)
    ensures |r| == |vs| && forall i :: 0 <= i < |r| ==> r[i] == vs[i].category
  {
    seq(|vs|, i requires 0 <= i < |vs| => vs[i].category)
  }

  // ---------------------------------------------------------------------
  // Actions
  // ---------------------------------------------------------------------

  /** `GetCategories`: every category in store order, never failing. */
  function GetCategories(s: Store, includeBooks: bool, lists: int -> Remote.Result<seq<RemoteBook>>,
                         counts: int -> Remote.Result<int>): (r: Reply)
    ensures r.Listed? && Categories(r.views) == s.categories
    ensures includeBooks ==> forall i :: 0 <= i < |r.views| ==> ShowsBooks(r.views[i], lists(s.categories[i].id))
    ensures !includeBooks ==> forall i :: 0 <= i < |r.views| ==> ShowsCount(r.views[i], counts(s.categories[i].id))
  {
    Listed(LoadAll(s.categories, includeBooks, lists, counts))
  }

  /** `GetCategory`. With books asked for, a timeout or an open circuit is
      rethrown by `LoadBooksForCategoryAsync` and escapes the action; any
      other failure leaves the category without books. */
  function GetCategory(s: Store, id: int, includeBooks: bool, list: Remote.Result<seq<RemoteBook>>,
                       count: Remote.Result<int>): (r: Reply)
    ensures FindById(s.categories, id).None? ==> r == Refused(Http.NotFound, MsgCategoryNotFound)
    ensures r.Found? <==>
      FindById(s.categories, id).Some? && !(includeBooks && (list.TimeoutRejected? || list.BrokenCircuit?))
    ensures r.Found? ==> r.view.category == FindById(s.categories, id).value
    ensures r.Found? && includeBooks ==> ShowsBooks(r.view, list)
    ensures r.Found? && !includeBooks ==> ShowsCount(r.view, count)
    ensures r == Unhandled <==>
      FindById(s.categories, id).Some? && includeBooks && (list.TimeoutRejected? || list.BrokenCircuit?)
  {
    match FindById(s.categories, id)
    case None => Refused(Http.NotFound, MsgCategoryNotFound)
    case Some(c) =>
      if !includeBooks then Found(WithCount(c, count))
      else if list.TimeoutRejected? || list.BrokenCircuit? then Unhandled
      else Found(WithBooks(c, list))
  }

  /** `CreateCategory`: validation, then the title must be new (exactly,
      case included), then the insert. */
  function CreateCategory(s: Store, form: Form, saved: bool): (r: Result)
    ensures DtoFailures(form.title, form.description) != [] ==>
      r == Result(Invalid(DtoFailures(form.title, form.description)), s)
    ensures r.reply.Created? <==>
      DtoFailures(form.title, form.description) == [] && FindByTitle(s.categories, form.title.value).None? && saved
    ensures DtoFailures(form.title, form.description) == [] && FindByTitle(s.categories, form.title.value).Some? ==>
      r.reply == Refused(Http.Conflict, MsgTitleTaken(form.title.value))
    ensures r.reply.Created? ==>
      && r.reply.view == Bare(Category(s.nextId, form.title, form.description))
      && r.store == Store(s.categories + [r.reply.view.category], s.nextId + 1)
    ensures !r.reply.Created? ==> r.store == s
  {
    var errors := DtoFailures(form.title, form.description);
    if errors != [] then Result(Invalid(errors), s)
    else if FindByTitle(s.categories, form.title.value).Some? then
      Result(Refused(Http.Conflict, MsgTitleTaken(form.title.value)), s)
    else if !saved then Result(Refused(Http.InternalServerError, MsgCreateFailed), s)
    else
      var c := Category(s.nextId, form.title, form.description);
      Result(Created(Bare(c)), Store(s.categories + [c], s.nextId + 1))
  }

  /** `UpdateCategory`: validation (the request's annotations, then its
      validator), existence, then the title check (only
      when the title changes, the category itself excluded), then the
      update. */
  function UpdateCategory(s: Store, id: int, form: Form, saved: bool): (r: Result)
    ensures UpdateRequestFailures(form.title, form.description) != [] ==>
      r == Result(Invalid(UpdateRequestFailures(form.title, form.description)), s)
    ensures UpdateRequestFailures(form.title, form.description) == [] && FindById(s.categories, id).None? ==>
      r == Result(Refused(Http.NotFound, MsgCategoryNotFound), s)
    ensures r.reply == NoContent <==>
      && UpdateRequestFailures(form.title, form.description) == [] && FindById(s.categories, id).Some?
      && (TitleOf(FindById(s.categories, id).value) == form.title.value
          || !TitleExists(s.categories, form.title.value, Some(id)))
      && saved
    ensures r.reply == NoContent ==>
      r.store == Store(ReplaceWhere(s.categories, (c: Category) => c.id == id, Category(id, form.title, form.description)),
                       s.nextId)
    ensures r.reply != NoContent ==> r.store == s
  {
    var errors := UpdateRequestFailures(form.title, form.description);
    if errors != [] then Result(Invalid(errors), s)
    else match FindById(s.categories, id)
      case None => Result(Refused(Http.NotFound, MsgCategoryNotFound), s)
      case Some(prior) =>
        var title := form.title.value;
        if TitleOf(prior) != title && TitleExists(s.categories, title, Some(id)) then
          Result(Refused(Http.Conflict, MsgTitleTaken(title)), s)
        else if !saved then Result(Refused(Http.InternalServerError, MsgUpdateFailed), s)
        else
          var next := ReplaceWhere(s.categories, (c: Category) => c.id == id, Category(id, form.title, form.description));
          Result(NoContent, Store(next, s.nextId))
  }

  /** `DeleteCategory`: a category with books is kept; when the count
      cannot be had because of a timeout or an open circuit the deletion is
      postponed, but any other failure lets it go ahead. */
  function DeleteCategory(s: Store, id: int, booksCount: Remote.Result<int>, saved: bool): (r: Result)
    ensures FindById(s.categories, id).None? ==> r == Result(Refused(Http.NotFound, MsgCategoryNotFound), s)
    ensures FindById(s.categories, id).Some? && booksCount.Ok? && booksCount.value > 0 ==>
      r == Result(Refused(Http.BadRequest, MsgHasBooks(booksCount.value)), s)
    ensures FindById(s.categories, id).Some? && booksCount.TimeoutRejected? ==>
      r == Result(Refused(Http.ServiceUnavailable, MsgDeletionPostponed), s)
    ensures FindById(s.categories, id).Some? && booksCount.BrokenCircuit? ==>
      r == Result(Refused(Http.ServiceUnavailable, MsgBookServiceDown), s)
    ensures r.reply == NoContent <==>
      && FindById(s.categories, id).Some? && saved
      && ((booksCount.Ok? && booksCount.value <= 0) || booksCount.Faulted?)
    ensures r.reply == NoContent ==> forall c :: c in r.store.categories <==> c in s.categories && c.id != id
    ensures r.reply != NoContent ==> r.store == s
    ensures r.store.nextId == s.nextId
  {
    if FindById(s.categories, id).None? then Result(Refused(Http.NotFound, MsgCategoryNotFound), s)
    else if booksCount.Ok? && booksCount.value > 0 then
      Result(Refused(Http.BadRequest, MsgHasBooks(booksCount.value)), s)
    else if booksCount.TimeoutRejected? then Result(Refused(Http.ServiceUnavailable, MsgDeletionPostponed), s)
    else if booksCount.BrokenCircuit? then Result(Refused(Http.ServiceUnavailable, MsgBookServiceDown), s)
    else if !saved then Result(Refused(Http.InternalServerError, MsgDeleteFailed), s)
    else Result(NoContent, Store(Where(s.categories, (c: Category) => c.id != id), s.nextId))
  }

  /** The page number `SearchCategories` uses: below 1 becomes 1. */
  function ClampPage(page: int): (p: int)
    ensures p >= 1
    ensures page >= 1 ==> p == page
  {
    if page < 1 then 1 else page
  }

  /** The page size `SearchCategories` uses: outside 1..100 becomes 20. */
  function ClampPageSize(pageSize: int): (n: int)
    ensures 1 <= n <= 100
    ensures 1 <= pageSize <= 100 ==> n == pageSize
  {
    if pageSize < 1 || pageSize > 100 then 20 else pageSize
  }

  /** `SearchCategories`: out-of-range paging is corrected, never refused. */
  function SearchCategories(s: Store, keyword: Option<string>, includeBooks: bool, sortBy: Option<string>,
                            sortOrder: Option<string>, page: int, pageSize: int,
                            lists: int -> Remote.Result<seq<RemoteBook>>, counts: int -> Remote.Result<int>)
    : (r: Reply)
    ensures r.Paged?
    ensures r.info.page == ClampPage(page) && r.info.pageSize == ClampPageSize(pageSize)
    ensures Categories(r.data)
      == CategoryRepository.SearchCategories(s.categories, keyword, r.info.page, r.info.pageSize, sortBy, sortOrder)
    ensures |r.data| <= r.info.pageSize
    ensures forall i :: 0 <= i < |r.data| ==>
      r.data[i].category in s.categories && CategoryRepository.Matches(keyword, r.data[i].category)
    ensures r.info.totalCount == SearchCount(s.categories, keyword)
  {
    var p := ClampPage(page);
    var n := ClampPageSize(pageSize);
    var found := CategoryRepository.SearchCategories(s.categories, keyword, p, n, sortBy, sortOrder);
    var views := LoadAll(found, includeBooks, lists, counts);
    assert Categories(views) == found;
    Paged(views, Paging.Info(p, n, SearchCount(s.categories, keyword)))
  }

  /** Book count descending, ties by title: `OrderByDescending` is stable
      and its input is in title order. */
  const ByBooksCount: View -> Key := (v: View) => Pair(Desc(Num(v.booksCount)), Str(TitleOf(v.category)))

  /** `GetPopularCategories`: the count must be 1..20; the categories are
      the first `count` by title, then ranked by their book count. */
  function GetPopularCategories(s: Store, count: int, counts: int -> Remote.Result<int>): (r: Reply)
    ensures r.Listed? <==> 1 <= count <= 20
    ensures !r.Listed? ==> r == Refused(Http.BadRequest, MsgCountRange)
    ensures r.Listed? ==>
      && SortedBy(r.views, ByBooksCount)
      && |r.views| <= count
      && multiset(r.views) == multiset(LoadAll(Popular(s.categories, count), false, _ => Remote.BrokenCircuit, counts))
  {
    if count < 1 || count > 20 then Refused(Http.BadRequest, MsgCountRange)
    else
      var views := LoadAll(Popular(s.categories, count), false, _ => Remote.BrokenCircuit, counts);
      Listed(SortBy(views, ByBooksCount))
  }

  /** `CategoryExists`: a blank title is refused; otherwise whether a
      category has exactly this title. */
  function CategoryExists(s: Store, title: Option<string>): (r: Reply)
    ensures r.Flag? <==> !IsNullOrWhiteSpace(title)
    ensures !r.Flag? ==> r == Refused(Http.BadRequest, MsgTitleRequired)
    ensures r.Flag? ==> (r.exists_ <==> exists i :: 0 <= i < |s.categories| && TitleOf(s.categories[i]) == title.value)
  {
    if IsNullOrWhiteSpace(title) then Refused(Http.BadRequest, MsgTitleRequired)
    else Flag(FindByTitle(s.categories, title.value).Some?)
  }

  // ---------------------------------------------------------------------
  // Properties
  // ---------------------------------------------------------------------

  lemma EmptyInv()
    ensures Inv(Store([], 1))
  {
  }

  /** A created category gets a new id and a title no other category has. */
  lemma CreateInv(s: Store, form: Form, saved: bool)
    requires Inv(s)
    ensures Inv(CreateCategory(s, form, saved).store)
  {
    var r := CreateCategory(s, form, saved);
    if r.reply.Created? {
      AppendKeepsInv(s, r.reply.view.category);
    }
  }

  /** Appending a category with the next id and a title no other category
      has keeps the invariant. */
  lemma AppendKeepsInv(s: Store, c: Category)
    requires Inv(s) && c.id == s.nextId
    requires forall i :: 0 <= i < |s.categories| ==> TitleOf(s.categories[i]) != TitleOf(c)
    ensures Inv(Store(s.categories + [c], s.nextId + 1))
  {
    forall x | x in s.categories ensures TitleOf(x) != TitleOf(c) {
      var i :| 0 <= i < |s.categories| && s.categories[i] == x;
    }
  }

  /** An update keeps the id and either keeps the title or takes one no
      other category has. */
  lemma UpdateInv(s: Store, id: int, form: Form, saved: bool)
    requires Inv(s)
    ensures Inv(UpdateCategory(s, id, form, saved).store)
  {
    var r := UpdateCategory(s, id, form, saved);
    if r.reply == NoContent {
      var prior := FindById(s.categories, id).value;
      var title := form.title.value;
      forall x | x in s.categories && x.id != id ensures TitleOf(x) != title {
        if TitleOf(prior) == title {
          assert x != prior;
        } else {
          var i :| 0 <= i < |s.categories| && s.categories[i] == x;
        }
      }
    }
  }

  lemma DeleteInv(s: Store, id: int, booksCount: Remote.Result<int>, saved: bool)
    requires Inv(s)
    ensures Inv(DeleteCategory(s, id, booksCount, saved).store)
  {
  }

  /** A created category is found under the id it was created with. */
  lemma CreatedCategoryIsFound(s: Store, form: Form, count: Remote.Result<int>)
    requires Inv(s)
    requires CreateCategory(s, form, true).reply.Created?
    ensures var r := CreateCategory(s, form, true);
      GetCategory(r.store, s.nextId, false, Remote.Ok([]), count).Found?
      && GetCategory(r.store, s.nextId, false, Remote.Ok([]), count).view.category == Category(s.nextId, form.title, form.description)
  {
    var r := CreateCategory(s, form, true);
    var c := r.reply.view.category;
    assert c in r.store.categories;
    var got := FindById(r.store.categories, s.nextId);
    assert got.Some?;
    assert got.value in r.store.categories;
  }

  /** A deleted category is gone. */
  lemma DeletedCategoryNotFound(s: Store, id: int, booksCount: Remote.Result<int>, saved: bool,
                                list: Remote.Result<seq<RemoteBook>>, count: Remote.Result<int>)
    requires DeleteCategory(s, id, booksCount, saved).reply == NoContent
    ensures GetCategory(DeleteCategory(s, id, booksCount, saved).store, id, false, list, count)
      == Refused(Http.NotFound, MsgCategoryNotFound)
  {
    var r := DeleteCategory(s, id, booksCount, saved);
    forall i | 0 <= i < |r.store.categories| ensures r.store.categories[i].id != id {
      assert r.store.categories[i] in r.store.categories;
    }
  }

  /** A category BooksService reports books for is never deleted, whether
      or not the database would accept the deletion. */
  lemma CategoryWithBooksKept(s: Store, id: int, n: int, saved: bool)
    requires n > 0
    ensures DeleteCategory(s, id, Remote.Ok(n), saved).store == s
    ensures StatusOf(DeleteCategory(s, id, Remote.Ok(n), saved).reply) != Http.NoContent
  {
  }

  /** The deletion guard is weaker than it looks: when the count fails in a
      way the controller does not single out, a category is deleted even if
      it has books. */
  lemma UnverifiedCountStillDeletes(s: Store, id: int, f: Remote.Fault)
    requires FindById(s.categories, id).Some?
    ensures DeleteCategory(s, id, Remote.Faulted(f), true).reply == NoContent
    ensures StatusOf(DeleteCategory(s, id, Remote.TimeoutRejected, true).reply) == Http.ServiceUnavailable
  {
  }

  /** Re-sending a category's own title never conflicts. */
  lemma OwnTitleNeverConflicts(s: Store, id: int, form: Form, saved: bool)
    requires FindById(s.categories, id).Some? && form.title.Some?
    requires TitleOf(FindById(s.categories, id).value) == form.title.value
    ensures UpdateCategory(s, id, form, saved).reply != Refused(Http.Conflict, MsgTitleTaken(form.title.value))
  {
  }

  /** Creating accepts a category without a description; updating it
      with the same body is a 400 that changes nothing, because the update
      request requires a description. */
  lemma UpdateWithoutDescriptionRefused(s: Store, id: int, saved: bool)
    ensures UpdateCategory(s, id, Form(Some("Poetry"), None), saved) ==
      Result(Invalid(UpdateRequestFailures(Some("Poetry"), None)), s)
    ensures UpdateRequestFailures(Some("Poetry"), None) != [] && DtoFailures(Some("Poetry"), None) == []
  {
    assert !IsWhiteSpace("Poetry"[0]);
    UpdateRequestValidIff(Some("Poetry"), None);
  }

  /** Titles are compared exactly: "art" can be created next to "Art". */
  lemma TitlesDifferingInCaseCoexist()
    ensures var s := Store([Category(1, Some("Art"), None)], 2);
      CreateCategory(s, Form(Some("art"), None), true).reply.Created?
  {
    var s := Store([Category(1, Some("Art"), None)], 2);
    assert !IsWhiteSpace("art"[0]);
    assert NotEmpty(Some("art"));
    assert DtoFailures(Some("art"), None) == [];
    assert TitleOf(s.categories[0]) != "art";
  }

  /** The search never refuses its paging: any page and size give the
      reply the corrected ones give. */
  lemma SearchParamsCorrected(s: Store, keyword: Option<string>, includeBooks: bool, sortBy: Option<string>,
                              sortOrder: Option<string>, page: int, pageSize: int,
                              lists: int -> Remote.Result<seq<RemoteBook>>, counts: int -> Remote.Result<int>)
    ensures SearchCategories(s, keyword, includeBooks, sortBy, sortOrder, page, pageSize, lists, counts)
         == SearchCategories(s, keyword, includeBooks, sortBy, sortOrder, ClampPage(page), ClampPageSize(pageSize),
                             lists, counts)
    ensures !(1 <= pageSize <= 100) ==>
      SearchCategories(s, keyword, includeBooks, sortBy, sortOrder, page, pageSize, lists, counts).info.pageSize == 20
  {
  }

  /** The page metadata agrees with the data. */
  lemma SearchMetadataConsistent(s: Store, keyword: Option<string>, includeBooks: bool, sortBy: Option<string>,
                                 sortOrder: Option<string>, page: int, pageSize: int,
                                 lists: int -> Remote.Result<seq<RemoteBook>>, counts: int -> Remote.Result<int>)
    ensures var r := SearchCategories(s, keyword, includeBooks, sortBy, sortOrder, page, pageSize, lists, counts);
      && (r.data != [] <==> r.info.page <= r.info.totalPages)
      && (r.info.hasNext <==> r.info.totalCount > r.info.page * r.info.pageSize)
      && (r.info.hasPrevious <==> r.info.page > 1)
  {
    var r := SearchCategories(s, keyword, includeBooks, sortBy, sortOrder, page, pageSize, lists, counts);
    CategoryRepository.CountAgreesWithPages(s.categories, keyword, r.info.page, r.info.pageSize, sortBy, sortOrder);
    Paging.HasNextIffMoreItems(SearchCount(s.categories, keyword), r.info.page, r.info.pageSize);
    assert |Categories(r.data)| == |r.data|;
  }

  /** The bulk loader swallows the timeout and the open circuit that the
      single-category loader rethrows. */
  lemma BulkSwallowsWhatSingleRethrows(s: Store, id: int, count: Remote.Result<int>,
                                       counts: int -> Remote.Result<int>)
    requires FindById(s.categories, id).Some?
    ensures GetCategory(s, id, true, Remote.TimeoutRejected, count) == Unhandled
    ensures var r := GetCategories(s, true, _ => Remote.TimeoutRejected, counts);
      forall i :: 0 <= i < |r.views| ==> r.views[i].books == [] && r.views[i].booksCount == 0
  {
  }

  /** A count the remote list yields is the length of the list the same
      reply yields, so both loaders report the same number of books. */
  lemma LoadersAgree(c: Category, o: Correlation.Outcome<BookListRpc.BooksResponse<RemoteBook>>)
    ensures WithCount(c, BookListRpc.AwaitCount(o)).booksCount == WithBooks(c, BookListRpc.AwaitBooks(o)).booksCount
    ensures WithCount(c, BookListRpc.AwaitCount(o)).booksCount >= 0
  {
    BookListRpc.CountIsLengthOfList(o);
  }

  /** "Popular" is not about books: with one slot, the category first by
      title is chosen even when another has more books. */
  lemma PopularIgnoresBookCounts()
    ensures var art := Category(1, Some("Art"), None);
      var zoo := Category(2, Some("Zoo"), None);
      var counts := (id: int) => if id == 2 then Remote.Ok(9) else Remote.Ok(0);
      GetPopularCategories(Store([zoo, art], 3), 1, counts) == Listed([View(art, [], 0)])
  {
    var art := Category(1, Some("Art"), None);
    var zoo := Category(2, Some("Zoo"), None);
    var counts := (id: int) => if id == 2 then Remote.Ok(9) else Remote.Ok(0);
    assert StrCmp("Art", "Zoo") < 0;
    assert Le(ByTitle(art), ByTitle(zoo));
    assert SortBy([art], ByTitle) == [art];
    assert AllByTitle([zoo, art]) == [art, zoo];
    assert Popular([zoo, art], 1) == [art];
    var views := LoadAll([art], false, _ => Remote.BrokenCircuit, counts);
    assert views == [View(art, [], 0)];
  }

  /** Among the categories chosen, more books come first. */
  lemma PopularRankedByBooks(s: Store, count: int, counts: int -> Remote.Result<int>, i: int, j: int)
    requires GetPopularCategories(s, count, counts).Listed?
    requires var r := GetPopularCategories(s, count, counts); 0 <= i < j < |r.views|
    ensures var r := GetPopularCategories(s, count, counts); r.views[i].booksCount >= r.views[j].booksCount
  {
    var r := GetPopularCategories(s, count, counts);
    var a := r.views[i];
    var b := r.views[j];
    assert Le(ByBooksCount(a), ByBooksCount(b));
    assert ByBooksCount(a) == Pair(Desc(Num(a.booksCount)), Str(TitleOf(a.category)));
    assert ByBooksCount(b) == Pair(Desc(Num(b.booksCount)), Str(TitleOf(b.category)));
    CmpFacts(Desc(Num(a.booksCount)), Desc(Num(b.booksCount)));
    assert Cmp(Num(a.booksCount), Num(b.booksCount)) == Sign(a.booksCount - b.booksCount);
  }

  /** The controller builds its policy in its constructor and is built
      anew for each request, so the single remote call of `GetCategory` and
      of `DeleteCategory` is the first execution through a closed breaker:
      `GetCategory` escapes only on a timeout, and `DeleteCategory` never
      answers that the book service is down. */
  lemma OpenCircuitUnreachable(s: Store, id: int, now: real, run: nat -> Resilience.Attempt,
                               books: seq<RemoteBook>, n: int, count: Remote.Result<int>, saved: bool)
    ensures var p := Resilience.CategoryControllerPipeline;
      var v := Resilience.ExecuteWrapped(p[0].timeout, p[1].breaker, p[2].retry, Resilience.Closed(0), now, run).verdict;
      && (GetCategory(s, id, true, Remote.OfVerdict(v, books), count) == Unhandled <==>
            FindById(s.categories, id).Some? && v.TimeoutRejected?)
      && DeleteCategory(s, id, Remote.OfVerdict(v, n), saved).reply != Refused(Http.ServiceUnavailable, MsgBookServiceDown)
  {
    var p := Resilience.CategoryControllerPipeline;
    Resilience.FreshPolicyNeverRefuses(p[0].timeout, p[1].breaker, p[2].retry, now, run);
  }
}
