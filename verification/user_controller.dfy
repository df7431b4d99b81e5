/** IdentityService's `UsersController`: the paged user search and the
    search suggestions. Both match the term with SQLite `LIKE '%term%'`
    against the lower-cased e-mail, full name and user name, and order by
    e-mail. The term is lower-cased in .NET, a column by SQLite's `lower()`,
    which folds ASCII letters only, and `LIKE` itself ignores the case of
    ASCII letters only. The match is stated for a column fold given as a
    parameter: the actions use the intended fold (column and term folded
    alike), and the query as written is the instance with SQLite's fold. A
    null column never matches (`LIKE` on NULL is not true). The roles a
    user holds are part of the user here; `GetUsersInRoleAsync` finds a
    role by its normalised, case-insensitive name. */
module UserController {
  import opened Common
  import opened Ordering
  import opened Query
  import Paging
  import Http

  datatype User = User(id: string, email: Option<string>, fullName: Option<string>, userName: Option<string>,
                       roles: seq<string>)

  /** A `UserResponseDto` */
  datatype UserView = UserView(id: string, email: Option<string>, fullName: Option<string>, roles: seq<string>)

  /** A `UserSuggestionDto` */
  datatype Suggestion = Suggestion(id: string, email: Option<string>, fullName: Option<string>,
                                   userName: Option<string>)

  datatype Reply =
    | Users(users: seq<UserView>, pagination: Paging.PageInfo) // 200 with a search page
    | Suggested(suggestions: seq<Suggestion>)                  // 200 with suggestions
    | Refused(status: int, message: string)

  const MsgTermTooShort: string := "Search term must be at least 2 characters long"
  /** The entry of the automatic 400's `errors` for a missing `term`. */
  const MsgTermRequired: string := "The term field is required."
  const DefaultPageSize: int := 20
  const DefaultLimit: int := 10

  // ---------------------------------------------------------------------
  // LIKE
  // ---------------------------------------------------------------------

  /** SQLite `s LIKE p` without an escape character: `%` matches any run of
      characters, `_` any one character, and every other character itself. */
  predicate Like(s: string, p: string)
    decreases |s| + |p|
  {
    if p == [] then s == []
    else if p[0] == '%' then Like(s, p[1..]) || (s != [] && Like(s[1..], p))
    else s != [] && (p[0] == '_' || p[0] == s[0]) && Like(s[1..], p[1..])
  }

  /** A term with no `LIKE` wildcard in it. */
  predicate Literal(t: string) {
    forall i :: 0 <= i < |t| ==> t[i] != '%' && t[i] != '_'
  }

  /** `'%' || term || '%'` */
  function Pattern(term: string): string {
    "%" + term + "%"
  }

  /** A field holds the term: `field.ToLower() LIKE '%term%'`, with the
      column folded by `fold`. */
  predicate HitUnder(fold: string -> string, field: Option<string>, term: string) {
    field.Some? && Like(fold(field.value), Pattern(term))
  }

  /** The search filter of both actions, under a column fold. */
  predicate UserMatchesUnder(fold: string -> string, u: User, term: string) {
    HitUnder(fold, u.email, term) || HitUnder(fold, u.fullName, term) || HitUnder(fold, u.userName, term)
  }

  /** The filter as it runs: columns folded by SQLite's ASCII-only
      `lower()`. */
  predicate UserMatchesAsWritten(u: User, term: string) {
    UserMatchesUnder(DbLower, u, term)
  }

  /** The filter as evidently intended: columns and term folded alike. */
  predicate UserMatches(u: User, term: string) {
    UserMatchesUnder(Lower, u, term)
  }

  function Matching(term: string): User -> bool {
    (u: User) => UserMatches(u, term)
  }

  // ---------------------------------------------------------------------
  // Roles, order and views
  // ---------------------------------------------------------------------

  predicate InRole(u: User, role: string) {
    exists i :: 0 <= i < |u.roles| && EqualsIgnoreCase(u.roles[i], role)
  }

  /** The ids `GetUsersInRoleAsync(role)` returns. */
  function Members(users: seq<User>, role: string): (r: seq<string>)
    ensures forall id :: id in r <==> exists u :: u in users && InRole(u, role) && u.id == id
  {
    var inRole := Where(users, (u: User) => InRole(u, role));
    var r := seq(|inRole|, i requires 0 <= i < |inRole| => inRole[i].id);
    assert forall id :: id in r <==> exists u :: u in users && InRole(u, role) && u.id == id by {
      forall id ensures id in r <==> exists u :: u in users && InRole(u, role) && u.id == id {
        if id in r {
          var i :| 0 <= i < |r| && r[i] == id;
          assert inRole[i] in inRole;
        }
        if exists u :: u in users && InRole(u, role) && u.id == id {
          var u :| u in users && InRole(u, role) && u.id == id;
          var i :| 0 <= i < |inRole| && inRole[i] == u;
          assert r[i] == id;
        }
      }
    }
    r
  }

  /** `userIdsInRole.Contains(u.Id)` */
  function InMembers(members: seq<string>): User -> bool {
    (u: User) => u.id in members
  }

  /** `OrderBy(u => u.Email)`: a null e-mail sorts first. */
  const ByEmail: User -> Key := (u: User) => if u.email.Some? then Str(u.email.value) else Null

  function ViewOf(u: User): UserView {
    UserView(u.id, u.email, u.fullName, u.roles)
  }

  function Views(us: seq<User>): (r: seq<UserView>)
    ensures |r| == |us| && forall i :: 0 <= i < |r| ==> r[i] == ViewOf(us[i])
  {
    seq(|us|, i requires 0 <= i < |us| => ViewOf(us[i]))
  }

  function SuggestionOf(u: User): Suggestion {
    Suggestion(u.id, u.email, u.fullName, u.userName)
  }

  function Suggestions(us: seq<User>): (r: seq<Suggestion>)
    ensures |r| == |us| && forall i :: 0 <= i < |r| ==> r[i] == SuggestionOf(us[i])
  {
    seq(|us|, i requires 0 <= i < |us| => SuggestionOf(us[i]))
  }

  /** Every view shows one of the users of `q`. */
  predicate ViewsOf(vs: seq<UserView>, q: seq<User>) {
    forall v :: v in vs ==> exists u :: u in q && v == ViewOf(u)
  }

  function IdsOfViews(vs: seq<UserView>): seq<string> {
    seq(|vs|, i requires 0 <= i < |vs| => vs[i].id)
  }

  function IdsOfSuggestions(ss: seq<Suggestion>): seq<string> {
    seq(|ss|, i requires 0 <= i < |ss| => ss[i].id)
  }

  // ---------------------------------------------------------------------
  // Actions
  // ---------------------------------------------------------------------

  /** The users left after the term filter (skipped for a blank term). */
  function TermFiltered(users: seq<User>, searchTerm: Option<string>): seq<User> {
    if IsNullOrWhiteSpace(searchTerm) then users else Where(users, Matching(TermLowerFirst(searchTerm.value)))
  }

  /** The users left after both filters; a blank role keeps everyone. */
  function Filtered(users: seq<User>, searchTerm: Option<string>, role: Option<string>): seq<User> {
    var q := TermFiltered(users, searchTerm);
    if IsNullOrWhiteSpace(role) then q
    else
      Where(q, InMembers(Members(users, role.value)))
  }

  function ClampPage(page: int): (r: int)
    ensures r >= 1 && (page >= 1 ==> r == page)
  {
    if page < 1 then 1 else page
  }

  function ClampPageSize(pageSize: int): (r: int)
    ensures 1 <= r <= 100
    ensures r == if 1 <= pageSize <= 100 then pageSize else DefaultPageSize
  {
    if pageSize < 1 || pageSize > 100 then DefaultPageSize else pageSize
  }

  /** `SearchUsers`. A role nobody holds ends the search at once with an
      empty page; otherwise the page is moved back to the last one when it
      lies past it, and the users on it come in e-mail order. */
  function SearchUsers(users: seq<User>, searchTerm: Option<string>, role: Option<string>, page: int,
                       pageSize: int): (r: Reply)
    ensures r.Users?
    ensures r.pagination.pageSize == ClampPageSize(pageSize)
    ensures 1 <= r.pagination.page && (page >= 1 ==> r.pagination.page <= page)
    ensures var n, p := |Filtered(users, searchTerm, role)|, ClampPage(page);
      r.pagination.page == (if n > 0 && p > Paging.TotalPages(n, ClampPageSize(pageSize))
                            then Paging.TotalPages(n, ClampPageSize(pageSize)) else p)
    ensures r.pagination.totalCount == |Filtered(users, searchTerm, role)|
    ensures |r.users| <= r.pagination.pageSize
    ensures ViewsOf(r.users, Filtered(users, searchTerm, role))
    ensures r.pagination.totalCount > 0 ==> r.users != [] && r.pagination.page <= r.pagination.totalPages
    ensures r.pagination.totalCount == 0 ==> r.users == [] && r.pagination.page == ClampPage(page)
    ensures IsNullOrWhiteSpace(role) || Members(users, role.value) != [] ==>
      && r.pagination == Paging.Info(r.pagination.page, r.pagination.pageSize, r.pagination.totalCount)
      && r.users == Views(Paging.Page(SortBy(Filtered(users, searchTerm, role), ByEmail), r.pagination.page,
                                      r.pagination.pageSize))
    ensures !IsNullOrWhiteSpace(role) && Members(users, role.value) == [] ==>
      r == Users([], Paging.PageInfo(ClampPage(page), ClampPageSize(pageSize), 0, 0, false, false))
  {
    var p := ClampPage(page);
    var size := ClampPageSize(pageSize);
    if !IsNullOrWhiteSpace(role) && Members(users, role.value) == [] then
      assert Filtered(users, searchTerm, role) == [] by {
        CountPositiveIffAny(TermFiltered(users, searchTerm), InMembers(Members(users, role.value)));
      }
      Users([], Paging.PageInfo(p, size, 0, 0, false, false))
    else
      var q := Filtered(users, searchTerm, role);
      Listing(q, p, size)
  }

  /** Everything after the filters: count, move the page back to the last
      one when it lies past it, order by e-mail and cut the page. */
  function Listing(q: seq<User>, page: int, size: int): (r: Reply)
    requires page >= 1 && 1 <= size <= 100
    ensures r.Users? && r.pagination.pageSize == size && r.pagination.totalCount == |q|
    ensures 1 <= r.pagination.page <= page
    ensures r.pagination.page ==
      (if |q| > 0 && page > Paging.TotalPages(|q|, size) then Paging.TotalPages(|q|, size) else page)
    ensures |r.users| <= size
    ensures ViewsOf(r.users, q)
    ensures |q| > 0 ==> r.users != [] && r.pagination.page <= r.pagination.totalPages
    ensures |q| == 0 ==> r.pagination.page == page
    ensures r.pagination == Paging.Info(r.pagination.page, size, |q|)
    ensures r.users == Views(Paging.Page(SortBy(q, ByEmail), r.pagination.page, size))
  {
    var pages := Paging.TotalPages(|q|, size);
    var current := if |q| > 0 && page > pages then pages else page;
    var found := Paging.Page(SortBy(q, ByEmail), current, size);
    ListedPage(q, current, size);
    assert |q| > 0 ==> found != [];
    Users(Views(found), Paging.Info(current, size, |q|))
  }

  /** A page of the users in e-mail order holds at most `size` of them,
      all from `q`, and is empty exactly past the last page. */
  lemma ListedPage(q: seq<User>, page: int, size: int)
    requires page >= 1 && size > 0
    ensures var found := Paging.Page(SortBy(q, ByEmail), page, size);
      && |found| <= size && ViewsOf(Views(found), q)
      && (found != [] <==> page <= Paging.TotalPages(|q|, size))
      && (Paging.TotalPages(|q|, size) > 0 <==> |q| > 0)
  {
    var sorted := SortBy(q, ByEmail);
    var found := Paging.Page(sorted, page, size);
    Paging.PageSize(sorted, page, size);
    Paging.PageNonEmptyIff(sorted, page, size);
    PageMembers(q, page, size);
    ViewsOfMembers(found, q);
    Paging.SomePagesIffItems(|q|, size);
  }

  /** `SearchSuggestions`. `term` is the query value as sent (`None` when
      absent). The parameter is a non-nullable `string`, so `[ApiController]`
      gives it an implicit `[Required]`; the binder reads a blank value as
      null, and such a term is refused before the action with the
      automatic 400. A term shorter than two characters before it is
      trimmed is refused by the action; a limit outside 1..50 becomes 10. */
  function SearchSuggestions(users: seq<User>, term: Option<string>, limit: int): (r: Reply)
    ensures IsNullOrWhiteSpace(term) <==> r == Refused(Http.BadRequest, MsgTermRequired)
    ensures !IsNullOrWhiteSpace(term) && |term.value| < 2 <==> r == Refused(Http.BadRequest, MsgTermTooShort)
    ensures r.Suggested? || r.Refused?
    ensures r.Suggested? ==>
      var matches := SortBy(Where(users, Matching(TermLowerFirst(term.value))), ByEmail);
      var n := if 1 <= limit <= 50 then limit else DefaultLimit;
      && |r.suggestions| == (if |matches| < n then |matches| else n)
      && r.suggestions == Suggestions(matches[..|r.suggestions|])
  {
    if IsNullOrWhiteSpace(term) then Refused(Http.BadRequest, MsgTermRequired)
    else if |term.value| < 2 then Refused(Http.BadRequest, MsgTermTooShort)
    else
      var n := if limit < 1 || limit > 50 then DefaultLimit else limit;
      var matches := SortBy(Where(users, Matching(TermLowerFirst(term.value))), ByEmail);
      Suggested(Suggestions(Paging.Take(matches, n)))
  }

  /** The action's own length message is reached only by a single
      character that is not white space: anything blank is refused while
      binding, and anything longer passes the check. */
  lemma TooShortIsOneVisibleCharacter(users: seq<User>, term: Option<string>, limit: int)
    ensures SearchSuggestions(users, term, limit) == Refused(Http.BadRequest, MsgTermTooShort) <==>
      term.Some? && |term.value| == 1 && !IsWhiteSpace(term.value[0])
  {
  }

  // ---------------------------------------------------------------------
  // Helpers of the proofs
  // ---------------------------------------------------------------------

  lemma {:induction false} WhereAll<T(!new)>(xs: seq<T>)
    ensures Where(xs, (x: T) => true) == xs
  {
    if xs != [] {
      WhereAll(xs[1..]);
      assert xs == [xs[0]] + xs[1..];
    }
  }

  /** Every user on a page of the e-mail order of `q` is a user of `q`. */
  lemma PageMembers(q: seq<User>, page: int, size: int)
    requires size > 0
    ensures forall x :: x in Paging.Page(SortBy(q, ByEmail), page, size) ==> x in q
  {
    var sorted := SortBy(q, ByEmail);
    var found := Paging.Page(sorted, page, size);
    var skipped := Paging.Skip(sorted, Paging.Offset(page, size));
    assert found == Paging.Take(skipped, size);
    forall x | x in found ensures x in q {
      var i :| 0 <= i < |found| && found[i] == x;
      assert found[i] == skipped[i] == sorted[|sorted| - |skipped| + i];
      SortKeepsElements(q, ByEmail, x);
    }
  }

  lemma ViewsOfMembers(found: seq<User>, q: seq<User>)
    requires forall x :: x in found ==> x in q
    ensures ViewsOf(Views(found), q)
  {
    var views := Views(found);
    forall v | v in views ensures exists u :: u in q && v == ViewOf(u) {
      var i :| 0 <= i < |views| && views[i] == v;
      assert found[i] in found;
      assert found[i] in q && v == ViewOf(found[i]);
    }
  }

  lemma FilteredFromUsers(users: seq<User>, searchTerm: Option<string>, role: Option<string>)
    ensures forall u :: u in Filtered(users, searchTerm, role) ==> u in users
  {
  }

  // ---------------------------------------------------------------------
  // Properties
  // ---------------------------------------------------------------------

  lemma {:induction false} PercentMatchesAll(s: string)
    ensures Like(s, "%")
    decreases |s|
  {
    if s != [] {
      PercentMatchesAll(s[1..]);
    }
  }

  /** A literal followed by `%` matches exactly the strings it begins. */
  lemma {:induction false} LiteralPrefix(s: string, t: string)
    requires Literal(t)
    ensures Like(s, t + "%") <==> |t| <= |s| && s[..|t|] == t
    decreases |t|
  {
    if t == [] {
      PercentMatchesAll(s);
      assert t + "%" == "%";
    } else {
      assert (t + "%")[0] == t[0] && (t + "%")[1..] == t[1..] + "%";
      assert Literal(t[1..]) by {
        forall i | 0 <= i < |t[1..]| ensures t[1..][i] != '%' && t[1..][i] != '_' {
          assert t[1..][i] == t[i + 1];
        }
      }
      assert t[0] != '%' && t[0] != '_';
      if s != [] {
        LiteralPrefix(s[1..], t[1..]);
        if |t| <= |s| && s[..|t|] == t {
          assert s[1..][..|t| - 1] == t[1..];
        }
        if s[0] == t[0] && |t[1..]| <= |s[1..]| && s[1..][..|t[1..]|] == t[1..] {
          assert s[..|t|] == [s[0]] + s[1..][..|t| - 1];
        }
      }
    }
  }

  /** A leading `%` lets the rest of the pattern match any suffix. */
  lemma {:induction false} LeadingPercent(s: string, q: string)
    ensures Like(s, "%" + q) <==> exists k :: 0 <= k <= |s| && Like(s[k..], q)
    decreases |s|
  {
    var p := "%" + q;
    assert p[0] == '%' && p[1..] == q;
    assert s[0..] == s;
    if s != [] {
      LeadingPercent(s[1..], q);
      if exists k :: 0 <= k <= |s| && Like(s[k..], q) {
        var k :| 0 <= k <= |s| && Like(s[k..], q);
        if k > 0 {
          assert s[1..][k - 1..] == s[k..];
        }
      }
      if exists k :: 0 <= k <= |s[1..]| && Like(s[1..][k..], q) {
        var k :| 0 <= k <= |s[1..]| && Like(s[1..][k..], q);
        assert s[k + 1..] == s[1..][k..];
      }
    }
  }

  /** For a term with no wildcard, `LIKE '%term%'` is the substring test. */
  lemma LikeIsContains(s: string, t: string)
    requires Literal(t)
    ensures Like(s, Pattern(t)) <==> Contains(s, t)
  {
    assert Pattern(t) == "%" + (t + "%");
    LeadingPercent(s, t + "%");
    if Like(s, Pattern(t)) {
      var k :| 0 <= k <= |s| && Like(s[k..], t + "%");
      LiteralPrefix(s[k..], t);
      assert s[k..][..|t|] == s[k..k + |t|];
      assert OccursAt(s, t, k);
    }
    if Contains(s, t) {
      var k :| 0 <= k <= |s| - |t| && OccursAt(s, t, k);
      LiteralPrefix(s[k..], t);
      assert s[k..][..|t|] == s[k..k + |t|];
    }
  }

  /** The term is not escaped: an underscore in it matches any character,
      so "a_b" finds "axb", which does not contain it. */
  lemma UnderscoreIsWildcard()
    ensures Like("axb", Pattern("a_b"))
    ensures !Contains("axb", "a_b")
  {
    assert Pattern("a_b") == "%a_b%";
    assert "%a_b%"[1..] == "a_b%" && "a_b%"[1..] == "_b%" && "_b%"[1..] == "b%" && "b%"[1..] == "%";
    assert "axb"[1..] == "xb" && "xb"[1..] == "b" && "b"[1..] == [];
    assert Like([], "%");
    assert Like("b", "b%");
    assert Like("xb", "_b%");
    assert Like("axb", "a_b%");
    assert !OccursAt("axb", "a_b", 0) by {
      assert "axb"[0..3][1] == 'x';
    }
  }

  /** The page is always in 1..totalPages when anything matches, and the
      metadata agrees with the data: `hasPrevious` iff the page is past the
      first, `hasNext` iff users remain after it. */
  lemma SearchMetadataConsistent(users: seq<User>, searchTerm: Option<string>, role: Option<string>, page: int,
                                 pageSize: int)
    requires IsNullOrWhiteSpace(role) || Members(users, role.value) != []
    ensures var r := SearchUsers(users, searchTerm, role, page, pageSize);
      var info := r.pagination;
      && info.totalPages == Paging.TotalPages(info.totalCount, info.pageSize)
      && (info.hasPrevious <==> info.page > 1)
      && (info.hasNext <==> info.totalCount > info.page * info.pageSize)
  {
    var r := SearchUsers(users, searchTerm, role, page, pageSize);
    Paging.HasNextIffMoreItems(r.pagination.totalCount, r.pagination.page, r.pagination.pageSize);
  }

  /** A page past the last one is moved back to the last one, which is
      full up to its remainder. */
  lemma PastLastPageShowsLastPage(users: seq<User>, searchTerm: Option<string>, page: int)
    requires var q := Filtered(users, searchTerm, None);
      |q| > 0 && page > Paging.TotalPages(|q|, DefaultPageSize)
    ensures var q := Filtered(users, searchTerm, None);
      var last := Paging.TotalPages(|q|, DefaultPageSize);
      && SearchUsers(users, searchTerm, None, page, 0).pagination.page == last
      && SearchUsers(users, searchTerm, None, page, 0) == SearchUsers(users, searchTerm, None, last, 0)
  {
  }

  /** A role nobody holds gives an empty reply that reports no previous
      page, even on page 3. */
  lemma UnknownRoleHasNoPrevious()
    ensures SearchUsers([User("1", None, None, None, ["Admin"])], None, Some("Guest"), 3, 20).pagination.hasPrevious
         == false
  {
    var nameless := User("1", None, None, None, ["Admin"]);
    assert !IsWhiteSpace("Guest"[0]);
    assert !InRole(nameless, "Guest") by {
      assert UpperChar("Admin"[0]) != UpperChar("Guest"[0]);
    }
    assert Members([nameless], "Guest") == [];
  }

  /** A term nobody matches leaves nobody, whatever the role. */
  lemma NoMatchNoResult(users: seq<User>, term: string, role: Option<string>)
    requires !AllWhiteSpace(term)
    requires forall u :: u in users ==> !UserMatches(u, TermLowerFirst(term))
    ensures Filtered(users, Some(term), role) == []
  {
    CountPositiveIffAny(users, Matching(TermLowerFirst(term)));
    assert TermFiltered(users, Some(term)) == [];
  }

  /** Without a role the filter is the term filter alone. */
  lemma FilteredWithoutRole(users: seq<User>, term: string)
    requires !AllWhiteSpace(term)
    ensures Filtered(users, Some(term), None) == Where(users, Matching(TermLowerFirst(term)))
  {
  }

  lemma NamelessIsMember(nameless: User)
    requires nameless == User("1", None, None, None, ["Admin"])
    ensures Members([nameless], "Admin") != []
  {
    assert InRole(nameless, "Admin") by {
      assert EqualsIgnoreCase(nameless.roles[0], "Admin");
    }
    assert "1" in Members([nameless], "Admin");
  }

  /** A search nobody matches gives an empty reply that does report a
      previous page on page 3: the two kinds of empty reply disagree. */
  lemma UnmatchedSearchHasPrevious()
    ensures var r := SearchUsers([User("1", None, None, None, ["Admin"])], Some("zz"), Some("Admin"), 3, 20);
      r.users == [] && r.pagination.totalCount == 0 && r.pagination.hasPrevious
  {
    var nameless := User("1", None, None, None, ["Admin"]);
    NamelessIsMember(nameless);
    assert !IsWhiteSpace("zz"[0]) && !IsWhiteSpace("Admin"[0]);
    NoMatchNoResult([nameless], "zz", Some("Admin"));
  }

  lemma SameIds(xs: seq<User>)
    ensures IdsOfSuggestions(Suggestions(xs)) == IdsOfViews(Views(xs))
  {
  }

  /** The suggestions are the e-mail order of the matches, cut at the
      limit. */
  lemma SuggestionsTakeMatches(users: seq<User>, term: string, limit: int)
    requires !AllWhiteSpace(term) && |term| >= 2 && 1 <= limit <= 50
    ensures SearchSuggestions(users, Some(term), limit)
         == Suggested(Suggestions(Paging.Take(SortBy(Where(users, Matching(TermLowerFirst(term))), ByEmail), limit)))
  {
  }

  /** The first search page without a role filter is the e-mail order of
      the matches, cut at the page size. */
  lemma FirstPageTakesMatches(users: seq<User>, term: string, limit: int)
    requires !AllWhiteSpace(term) && 1 <= limit <= 50
    ensures SearchUsers(users, Some(term), None, 1, limit).users
         == Views(Paging.Take(SortBy(Where(users, Matching(TermLowerFirst(term))), ByEmail), limit))
  {
    FilteredWithoutRole(users, term);
    Paging.FirstPageIsTake(SortBy(Where(users, Matching(TermLowerFirst(term))), ByEmail), limit);
  }

  /** The suggestions are the first search page of the same size, with no
      role filter. */
  lemma SuggestionsAreFirstSearchPage(users: seq<User>, term: string, limit: int)
    requires !AllWhiteSpace(term) && |term| >= 2 && 1 <= limit <= 50
    ensures var s := SearchSuggestions(users, Some(term), limit);
      var r := SearchUsers(users, Some(term), None, 1, limit);
      s.Suggested? && IdsOfSuggestions(s.suggestions) == IdsOfViews(r.users)
  {
    SuggestionsTakeMatches(users, term, limit);
    FirstPageTakesMatches(users, term, limit);
    SameIds(Paging.Take(SortBy(Where(users, Matching(TermLowerFirst(term))), ByEmail), limit));
  }

  /** The length check looks at the untrimmed term, so a single character
      between spaces passes it and is searched for alone. */
  lemma PaddedSingleCharacterAccepted(users: seq<User>)
    ensures SearchSuggestions(users, Some(" a "), 10).Suggested?
    ensures TermLowerFirst(" a ") == "a"
  {
    assert !IsWhiteSpace(" a "[1]);
    PaddedTerm();
  }

  lemma PaddedTerm()
    ensures TermLowerFirst(" a ") == "a"
  {
    PaddedLowered();
    PaddedTrimStart();
    PaddedTrimEnd();
  }

  lemma PaddedLowered()
    ensures Lower(" a ") == " a "
  {
    assert LowerChar(' ') == ' ' && LowerChar('a') == 'a';
  }

  lemma PaddedTrimStart()
    ensures TrimStart(" a ") == "a "
  {
    assert IsWhiteSpace(" a "[0]) && !IsWhiteSpace(" a "[1]);
    assert " a "[1..] == "a ";
  }

  lemma PaddedTrimEnd()
    ensures TrimEnd("a ") == "a"
  {
    assert IsWhiteSpace("a "[1]) && !IsWhiteSpace("a "[0]);
    assert "a "[..1] == "a";
  }

  /** Lower-casing neither creates nor removes a `LIKE` wildcard. */
  lemma LowerKeepsLiteral(t: string)
    requires Literal(t)
    ensures Literal(Lower(t))
  {
  }

  /** Searching for a user's own full name, as stored, without surrounding
      white space and without wildcards, finds the user whatever letters the
      name uses. */
  lemma OwnNameFindsUser(u: User, term: string)
    requires u.fullName == Some(term) && term != [] && Literal(term)
    requires !IsWhiteSpace(term[0]) && !IsWhiteSpace(term[|term| - 1])
    ensures UserMatches(u, TermLowerFirst(term))
  {
    TrimmedTerm(term);
    LowerKeepsLiteral(term);
    LikeIsContains(Lower(term), Lower(term));
    assert OccursAt(Lower(term), Lower(term), 0);
  }

  /** On ASCII columns the filter as written and the intended filter agree. */
  lemma AsciiSearchUnaffected(u: User, term: string)
    requires u.email.Some? ==> forall i :: 0 <= i < |u.email.value| ==> u.email.value[i] < '\U{0080}'
    requires u.fullName.Some? ==> forall i :: 0 <= i < |u.fullName.value| ==> u.fullName.value[i] < '\U{0080}'
    requires u.userName.Some? ==> forall i :: 0 <= i < |u.userName.value| ==> u.userName.value[i] < '\U{0080}'
    ensures UserMatchesAsWritten(u, term) <==> UserMatches(u, term)
  {
    if u.email.Some? {
      DbLowerAgreesOnAscii(u.email.value);
    }
    if u.fullName.Some? {
      DbLowerAgreesOnAscii(u.fullName.value);
    }
    if u.userName.Some? {
      DbLowerAgreesOnAscii(u.userName.value);
    }
  }

  /** The filter as written misses the user "Éva" searched for exactly as
      the name is spelled: the term becomes "éva" in .NET, SQLite leaves the
      stored "Éva" as it is, and `LIKE` does not fold "É". The intended
      filter finds the user. */
  lemma AccentedNameMissed(u: User)
    requires u.fullName == Some("Éva") && u.email.None? && u.userName.None?
    ensures !UserMatchesAsWritten(u, TermLowerFirst("Éva"))
    ensures UserMatches(u, TermLowerFirst("Éva"))
  {
    EvaTerm();
    EvaEnds();
    EvaLiteral();
    OwnNameFindsUser(u, "Éva");
    LikeIsContains(DbLower("Éva"), "éva");
    DbLowerMisses("Éva", "éva");
  }

  lemma EvaTerm()
    ensures TermLowerFirst("Éva") == "éva"
  {
    EvaLowered();
    EvaEnds();
    TrimmedTerm("Éva");
  }

  lemma EvaLowered()
    ensures Lower("Éva") == "éva"
  {
    assert LowerChar('É') == 'é';
  }

  lemma EvaLiteral()
    ensures Literal("Éva") && Literal("éva")
  {
  }

  lemma EvaEnds()
    ensures !IsWhiteSpace("Éva"[0]) && !IsWhiteSpace("Éva"[2])
  {
  }
}
