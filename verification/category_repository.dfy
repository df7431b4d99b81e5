/** CategoryService's `CategoryRepository`: the keyword search over title
    and description with sorting and paging, the title lookups and the
    title-ordered listings. `Title` is a NOT NULL column, so a missing title
    of the entity reads as "" here; a null description is skipped by the
    search. The keyword is lower-cased in .NET, a column by SQLite's
    ASCII-only `lower()`; the filter takes the column fold as a parameter,
    with the query as written and the intended one as instances. */
module CategoryRepository {
  import opened Common
  import opened Ordering
  import opened Query
  import opened CategoryValidation
  import Paging

  function TitleOf(c: Category): string {
    c.title.GetOr("")
  }

  /** `BuildSearchQuery`: a blank keyword keeps everything; otherwise the
      keyword, lower-cased then trimmed, must occur in the folded title or
      in a non-null folded description. */
  predicate MatchesUnder(fold: string -> string, keyword: Option<string>, c: Category) {
    || IsNullOrWhiteSpace(keyword)
    || Contains(fold(TitleOf(c)), TermLowerFirst(keyword.value))
    || (c.description.Some? && Contains(fold(c.description.value), TermLowerFirst(keyword.value)))
  }

  /** The query as it runs: columns folded by SQLite's ASCII-only `lower()`. */
  predicate MatchesAsWritten(keyword: Option<string>, c: Category) {
    MatchesUnder(DbLower, keyword, c)
  }

  /** The query as evidently intended: columns and keyword folded alike. */
  predicate Matches(keyword: Option<string>, c: Category) {
    MatchesUnder(Lower, keyword, c)
  }

  function Filtered(keyword: Option<string>): Category -> bool {
    (c: Category) => Matches(keyword, c)
  }

  const ByTitle: Category -> Key := (c: Category) => Str(TitleOf(c))

  /** `ApplySorting`: "title" or "id" (any letter case) in the requested
      direction; anything else sorts by title ascending. */
  function SortKey(sortBy: Option<string>, sortOrder: Option<string>): Category -> Key {
    var d := ParseDirection(sortOrder);
    var s := if sortBy.Some? then Lower(sortBy.value) else "";
    if s == "title" then (c: Category) => Directed(Str(TitleOf(c)), d)
    else if s == "id" then (c: Category) => Directed(Num(c.id), d)
    else ByTitle
  }

  /** `SearchCategoriesAsync`: filter, sort, then one page. */
  function SearchCategories(categories: seq<Category>, keyword: Option<string>, page: int, pageSize: int,
                            sortBy: Option<string>, sortOrder: Option<string>): (r: seq<Category>)
    ensures forall i :: 0 <= i < |r| ==> r[i] in categories && Matches(keyword, r[i])
    ensures SortedBy(r, SortKey(sortBy, sortOrder))
    ensures pageSize >= 0 ==> |r| <= pageSize
  {
    Search(categories, Filtered(keyword), SortKey(sortBy, sortOrder), page, pageSize)
  }

  /** `GetSearchCountAsync` */
  function SearchCount(categories: seq<Category>, keyword: Option<string>): nat {
    |Where(categories, Filtered(keyword))|
  }

  /** `GetCategoryWithDetailsAsync`: the category with this id, if any. */
  function FindById(categories: seq<Category>, id: int): (r: Option<Category>)
    ensures r.Some? ==> r.value in categories && r.value.id == id
    ensures r.None? <==> forall i :: 0 <= i < |categories| ==> categories[i].id != id
  {
    FirstWhere(categories, (c: Category) => c.id == id)
  }

  /** `GetByTitleAsync`: a category with exactly this title (case matters). */
  function FindByTitle(categories: seq<Category>, title: string): (r: Option<Category>)
    ensures r.Some? ==> r.value in categories && TitleOf(r.value) == title
    ensures r.None? <==> forall i :: 0 <= i < |categories| ==> TitleOf(categories[i]) != title
  {
    FirstWhere(categories, (c: Category) => TitleOf(c) == title)
  }

  /** `TitleExistsAsync`: another category (any category when no id is
      excluded) already has exactly this title. */
  function TitleExists(categories: seq<Category>, title: string, excludeId: Option<int>): (r: bool)
    ensures r ==> FindByTitle(categories, title).Some?
  {
    Any(categories, (c: Category) => TitleOf(c) == title && (excludeId.None? || c.id != excludeId.value))
  }

  /** `GetCategoriesWithBooksCountAsync`: every category by title. */
  function AllByTitle(categories: seq<Category>): (r: seq<Category>)
    ensures SortedBy(r, ByTitle)
    ensures multiset(r) == multiset(categories)
  {
    SortBy(categories, ByTitle)
  }

  /** `GetPopularCategoriesAsync`: the first `count` categories by title
      (`LIMIT count`; the "popularity" is not computed). */
  function Popular(categories: seq<Category>, count: int): (r: seq<Category>)
    ensures SortedBy(r, ByTitle)
    ensures count >= 0 ==> |r| <= count
  {
    var all := AllByTitle(categories);
    var r := Paging.Limit(all, count);
    Query.SliceOfSorted(all, ByTitle, 0, |r|);
    r
  }

  // ---------------------------------------------------------------------
  // Properties
  // ---------------------------------------------------------------------

  /** The count agrees with the pages of the search. */
  lemma CountAgreesWithPages(categories: seq<Category>, keyword: Option<string>, page: int, pageSize: int,
                             sortBy: Option<string>, sortOrder: Option<string>)
    requires page >= 1 && pageSize > 0
    ensures SearchCategories(categories, keyword, page, pageSize, sortBy, sortOrder) != []
        <==> page <= Paging.TotalPages(SearchCount(categories, keyword), pageSize)
  {
    Paging.PageNonEmptyIff(SortBy(Where(categories, Filtered(keyword)), SortKey(sortBy, sortOrder)), page, pageSize);
  }

  /** The keyword is lower-cased before it is trimmed, unlike the other
      searches, but the term is the same. */
  lemma KeywordTermAsElsewhere(keyword: string)
    ensures TermLowerFirst(keyword) == Term(keyword)
  {
    TermOrderIrrelevant(keyword);
  }

  /** The popular categories are the head of the full title-ordered list,
      and with a count of at least the number of categories, all of it. */
  lemma PopularIsHeadOfAll(categories: seq<Category>, count: int)
    requires count >= 0
    ensures var all := AllByTitle(categories);
      Popular(categories, count) == all[..if count < |all| then count else |all|]
    ensures count >= |categories| ==> Popular(categories, count) == AllByTitle(categories)
  {
  }

  /** A category whose description is null is found only through its
      title, whichever fold the column gets. */
  lemma NullDescriptionSearchesTitleOnly(fold: string -> string, c: Category, keyword: string)
    requires c.description.None? && !AllWhiteSpace(keyword)
    ensures MatchesUnder(fold, Some(keyword), c) <==> Contains(fold(TitleOf(c)), Term(keyword))
  {
    TermOrderIrrelevant(keyword);
  }

  /** Excluding the category being updated: its own title is no clash,
      another category's identical title is; the test is case-sensitive. */
  lemma TitleClashExcludesSelf(categories: seq<Category>, title: string, self: int)
    ensures TitleExists(categories, title, Some(self))
        <==> exists i :: 0 <= i < |categories| && TitleOf(categories[i]) == title && categories[i].id != self
    ensures TitleExists(categories, title, None) <==> FindByTitle(categories, title).Some?
  {
  }

  /** Every stored category that passes the filter is found: it sits at its
      place `i` among the sorted matches, which is row `i % pageSize` of page
      `i / pageSize + 1` of the search, and `i` is below the search count. */
  lemma MatchFoundOnItsPage(categories: seq<Category>, keyword: Option<string>, sortBy: Option<string>,
                            sortOrder: Option<string>, c: Category, pageSize: int) returns (i: int)
    requires c in categories && Matches(keyword, c) && pageSize > 0
    ensures 0 <= i < SearchCount(categories, keyword)
    ensures var r := SearchCategories(categories, keyword, i / pageSize + 1, pageSize, sortBy, sortOrder);
      i % pageSize < |r| && r[i % pageSize] == c
  {
    i := SearchFindsEveryMatch(categories, Filtered(keyword), SortKey(sortBy, sortOrder), c, pageSize);
  }

  /** Page 21474838 of 100 survives the controller's clamping, but its
      offset wraps in `int`: the query as written lists the first page
      again, where the page that far out holds nothing. */
  lemma OverflowingPageRepeatsFirst(categories: seq<Category>, keyword: Option<string>, sortBy: Option<string>,
                                    sortOrder: Option<string>)
    requires |categories| <= 2147483700
    ensures SearchAsWritten(categories, Filtered(keyword), SortKey(sortBy, sortOrder), 21474838, 100)
         == SearchCategories(categories, keyword, 1, 100, sortBy, sortOrder)
    ensures SearchCategories(categories, keyword, 21474838, 100, sortBy, sortOrder) == []
  {
    WrappedSearchShowsFirstPage(categories, Filtered(keyword), SortKey(sortBy, sortOrder), 21474838, 100);
  }

  /** Searching for a category's own title, spelled as stored and without
      surrounding white space, finds it whatever letters the title uses. */
  lemma OwnTitleFindsCategory(c: Category, keyword: string)
    requires keyword == TitleOf(c) && keyword != []
    requires !IsWhiteSpace(keyword[0]) && !IsWhiteSpace(keyword[|keyword| - 1])
    ensures Matches(Some(keyword), c)
  {
    TrimmedTerm(keyword);
    assert OccursAt(Lower(keyword), Lower(keyword), 0);
  }

  /** On an ASCII title and description the query as written and the
      intended query select the same categories. */
  lemma AsciiSearchUnaffected(keyword: Option<string>, c: Category)
    requires forall i :: 0 <= i < |TitleOf(c)| ==> TitleOf(c)[i] < '\U{0080}'
    requires c.description.Some? ==>
      forall i :: 0 <= i < |c.description.value| ==> c.description.value[i] < '\U{0080}'
    ensures MatchesAsWritten(keyword, c) <==> Matches(keyword, c)
  {
    DbLowerAgreesOnAscii(TitleOf(c));
    if c.description.Some? {
      DbLowerAgreesOnAscii(c.description.value);
    }
  }

  /** The query as written misses the category "Élan" searched for exactly
      as it is titled; the intended query finds it. */
  lemma AccentedTitleMissed(c: Category)
    requires TitleOf(c) == "Élan" && c.description.None?
    ensures !MatchesAsWritten(Some("Élan"), c)
    ensures Matches(Some("Élan"), c)
  {
    ElanKeyword();
    OwnTitleFindsCategory(c, "Élan");
    DbLowerMisses("Élan", "élan");
  }

  lemma ElanKeyword()
    ensures TermLowerFirst("Élan") == "élan" && !IsNullOrWhiteSpace(Some("Élan"))
    ensures !IsWhiteSpace("Élan"[0]) && !IsWhiteSpace("Élan"[3])
  {
    ElanLowered();
    ElanEnds();
    TrimmedTerm("Élan");
  }

  lemma ElanLowered()
    ensures Lower("Élan") == "élan"
  {
    assert LowerChar('É') == 'é';
  }

  lemma ElanEnds()
    ensures !IsWhiteSpace("Élan"[0]) && !IsWhiteSpace("Élan"[3])
  {
  }
}
