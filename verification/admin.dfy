/** AdminService's one-time admin code: an `ApplicationAdmin` holds a
    six-character code and its expiry, and `AdminController` generates,
    validates, reports and clears it. `DateTime.UtcNow` is the parameter
    `now` (seconds) and `Random.Next` an oracle: `draws` are the six
    indices it returned. */
module AdminCode {
  import opened Common
  import Http

  const CodeAlphabet: string := "ABCDEFGHIJKLMNOPQRSTUVWXYZ0123456789"
  const CodeLength: nat := 6
  const DefaultExpiryHours: int := 24

  /** The code-related fields of an `ApplicationAdmin`. */
  datatype Admin = Admin(adminCode: string, expiry: Option<int>)

  /** The code a fresh account has: none. */
  const NoCode: Admin := Admin("", None)

  /** Six indices drawn with `random.Next(36)`. */
  predicate ValidDraws(draws: seq<int>) {
    |draws| == CodeLength && forall i :: 0 <= i < |draws| ==> 0 <= draws[i] < |CodeAlphabet|
  }

  /** The character `chars[k]` picks: the `k`-th capital letter, then the
      digits. */
  function CodeChar(k: int): (c: char)
    requires 0 <= k < |CodeAlphabet|
    ensures c == CodeAlphabet[k]
    ensures 'A' <= c <= 'Z' || '0' <= c <= '9'
  {
    if k < 26 then ('A' as int + k) as char else ('0' as int + k - 26) as char
  }

  /** `GenerateAdminCode(expiryHours)`: a new code of six characters, each
      an upper-case letter or a digit, expiring `expiryHours` hours from
      now. `None` is the `ArgumentOutOfRangeException` of `AddHours` when
      that instant lies outside the years 1 to 9999; the exception leaves
      the method, and the half-updated entity is never saved. */
  function Generate(a: Admin, now: int, expiryHours: int, draws: seq<int>): (r: Option<Admin>)
    requires ValidDraws(draws)
    ensures r.Some? <==> InDateRange(AddHours(now, expiryHours))
    ensures r.Some? ==> |r.value.adminCode| == CodeLength
    ensures r.Some? ==> forall i :: 0 <= i < |r.value.adminCode| ==> r.value.adminCode[i] in CodeAlphabet
    ensures r.Some? ==> forall i :: 0 <= i < |r.value.adminCode| ==>
      ('A' <= r.value.adminCode[i] <= 'Z' || '0' <= r.value.adminCode[i] <= '9')
    ensures r.Some? ==> r.value.expiry == Some(AddHours(now, expiryHours))
  {
    var expiry := AddHours(now, expiryHours);
    if !InDateRange(expiry) then None
    else Some(Admin(seq(CodeLength, i requires 0 <= i < CodeLength => CodeChar(draws[i])), Some(expiry)))
  }

  /** `IsAdminCodeValid(code)`. */
  predicate IsValid(a: Admin, code: string, now: int) {
    if a.adminCode == [] || a.expiry.None? then false
    else if now > a.expiry.value then false
    else EqualsIgnoreCase(a.adminCode, code)
  }

  /** `ClearAdminCode()`. */
  function Clear(a: Admin): (r: Admin)
    ensures r.adminCode == [] && r.expiry.None?
  {
    NoCode
  }

  /** `IsAdminCodeExpired()`: true when there is no expiry, or it has
      passed. */
  predicate IsExpired(a: Admin, now: int) {
    a.expiry.None? || now > a.expiry.value
  }

  // ---------------------------------------------------------------------
  // Properties of the entity
  // ---------------------------------------------------------------------

  /** Validation is: a code is stored, it has not expired, and the
      candidate equals it ignoring case — each is necessary. */
  lemma ValidIff(a: Admin, code: string, now: int)
    ensures IsValid(a, code, now) <==> a.adminCode != [] && !IsExpired(a, now) && EqualsIgnoreCase(a.adminCode, code)
  {
  }

  /** A valid code is never reported expired. */
  lemma ValidImpliesNotExpired(a: Admin, code: string, now: int)
    requires IsValid(a, code, now)
    ensures !IsExpired(a, now)
  {
  }

  /** The expiry instant itself is still inside the validity window; one
      second later is not. */
  lemma ExpiryInstantStillValid(a: Admin, code: string)
    requires a.adminCode != [] && a.expiry.Some? && EqualsIgnoreCase(a.adminCode, code)
    ensures IsValid(a, code, a.expiry.value)
    ensures !IsValid(a, code, a.expiry.value + 1)
  {
  }

  /** After clearing, nothing validates and the code reads as expired. */
  lemma ClearedNeverValid(a: Admin, code: string, now: int)
    ensures !IsValid(Clear(a), code, now) && IsExpired(Clear(a), now)
  {
  }

  /** Case folding leaves the alphabet's characters where `UpperChar`
      puts them. */
  lemma UpperOfLower(c: char)
    requires c in CodeAlphabet
    ensures UpperChar(LowerChar(c)) == UpperChar(c)
  {
  }

  /** A freshly generated code, with a non-negative lifetime, validates at
      generation time against itself and against its lower-case spelling. */
  lemma FreshCodeValidates(a: Admin, now: int, expiryHours: int, draws: seq<int>)
    requires ValidDraws(draws) && expiryHours >= 0 && InDateRange(AddHours(now, expiryHours))
    ensures var g := Generate(a, now, expiryHours, draws).value;
      IsValid(g, g.adminCode, now) && IsValid(g, Lower(g.adminCode), now) && !IsExpired(g, now)
  {
    var g := Generate(a, now, expiryHours, draws).value;
    forall i | 0 <= i < |g.adminCode|
      ensures UpperChar(g.adminCode[i]) == UpperChar(Lower(g.adminCode)[i])
    {
      UpperOfLower(g.adminCode[i]);
    }
  }

  /** A code generated with a negative lifetime is expired from the start. */
  lemma NegativeLifetimeBornExpired(a: Admin, now: int, expiryHours: int, draws: seq<int>, code: string)
    requires ValidDraws(draws) && expiryHours < 0
    ensures var g := Generate(a, now, expiryHours, draws);
      g.Some? ==> IsExpired(g.value, now) && !IsValid(g.value, code, now)
  {
  }

  /** A candidate of another length never validates. */
  lemma WrongLengthNeverValid(a: Admin, code: string, now: int)
    requires |code| != |a.adminCode|
    ensures !IsValid(a, code, now)
  {
  }

  // ---------------------------------------------------------------------
  // AdminController
  // ---------------------------------------------------------------------

  /** What an action answered, and the user's code as stored afterwards. */
  datatype Reply = Reply(status: int, message: string, stored: Option<Admin>)

  const MsgRequired: string := "Admin code is required"
  /** The entry of the automatic 400's `errors` for a null `AdminCode`. */
  const MsgCodeFieldRequired: string := "The AdminCode field is required."
  const MsgValid: string := "Admin code is valid"
  const MsgExpired: string := "Admin code has expired"
  const MsgInvalid: string := "Invalid admin code"

  /** `GenerateAdminCode`: `user` is the signed-in user (`None` when
      `GetUserAsync` finds nobody), `roles` its roles and `updated` what
      `UpdateAsync` answered. Only an Admin or SuperAdmin may generate a
      code; the lifetime defaults to 24 hours. An expiry `DateTime`
      cannot hold escapes the action as an exception: 500. */
  function GenerateAction(user: Option<Admin>, roles: seq<string>, expiryHours: Option<int>, now: int,
                          draws: seq<int>, updated: bool): (r: Reply)
    requires ValidDraws(draws)
    ensures user.None? <==> r.status == Http.Unauthorized
    ensures user.Some? && "Admin" !in roles && "SuperAdmin" !in roles <==> r.status == Http.Forbidden
    ensures r.status == Http.InternalServerError <==>
      user.Some? && ("Admin" in roles || "SuperAdmin" in roles)
      && !InDateRange(AddHours(now, expiryHours.GetOr(DefaultExpiryHours)))
    ensures r.status == Http.Ok <==>
      user.Some? && ("Admin" in roles || "SuperAdmin" in roles)
      && InDateRange(AddHours(now, expiryHours.GetOr(DefaultExpiryHours))) && updated
    ensures r.status == Http.Ok ==>
      r.stored == Generate(user.value, now, expiryHours.GetOr(DefaultExpiryHours), draws)
    ensures r.status != Http.Ok ==> r.stored == user
  {
    match user
    case None => Reply(Http.Unauthorized, "", None)
    case Some(a) =>
      if "Admin" !in roles && "SuperAdmin" !in roles then Reply(Http.Forbidden, "", user)
      else
        match Generate(a, now, expiryHours.GetOr(DefaultExpiryHours), draws)
        case None => Reply(Http.InternalServerError, "", user)
        case Some(g) => if updated then Reply(Http.Ok, "", Some(g)) else Reply(Http.BadRequest, "", user)
  }

  /** `[ApiController]` refuses the body before the action when the
      non-nullable `AdminCode` arrives as JSON `null` (`None`), through the
      implicit `[Required]` such a property gets when the service builds
      with nullable reference types on. Whether AdminService does is
      decided by its project file, which is not part of this model: it is
      the parameter `nullableEnabled`. A property left out of the body
      keeps its default "" and reaches the action. */
  predicate RefusedWhileBinding(code: Option<string>, nullableEnabled: bool) {
    code.None? && nullableEnabled
  }

  /** `ValidateAdminCode`. An empty or null code is refused before the
      stored code is looked at (a null one already while binding, when the
      implicit `[Required]` applies). A valid code is cleared when asked
      (the default), if `UpdateAsync` succeeds; its answer is not checked.
      For a wrong code, "expired" wins over "invalid". */
  function ValidateAction(user: Option<Admin>, code: Option<string>, clearAfter: bool, now: int, updated: bool,
                          nullableEnabled: bool): (r: Reply)
    ensures RefusedWhileBinding(code, nullableEnabled) <==> r == Reply(Http.BadRequest, MsgCodeFieldRequired, user)
    ensures user.None? && !RefusedWhileBinding(code, nullableEnabled) <==> r.status == Http.Unauthorized
    ensures r.status == Http.Ok <==> user.Some? && code.Some? && IsValid(user.value, code.value, now)
    ensures r.status == Http.Ok && clearAfter && updated ==> r.stored == Some(Clear(user.value))
    ensures !(r.status == Http.Ok && clearAfter && updated) ==> r.stored == user
    ensures r.message == MsgRequired <==>
      user.Some? && IsNullOrEmpty(code) && !RefusedWhileBinding(code, nullableEnabled)
    ensures r.message == MsgExpired <==>
      user.Some? && !IsNullOrEmpty(code) && !IsValid(user.value, code.value, now) && IsExpired(user.value, now)
    ensures r.status != Http.Unauthorized ==>
      r.message in {MsgCodeFieldRequired, MsgRequired, MsgValid, MsgExpired, MsgInvalid}
  {
    if RefusedWhileBinding(code, nullableEnabled) then Reply(Http.BadRequest, MsgCodeFieldRequired, user)
    else
      match user
      case None => Reply(Http.Unauthorized, "", None)
      case Some(a) =>
        if IsNullOrEmpty(code) then Reply(Http.BadRequest, MsgRequired, user)
        else if IsValid(a, code.value, now) then
          Reply(Http.Ok, MsgValid, if clearAfter && updated then Some(Clear(a)) else user)
        else if IsExpired(a, now) then Reply(Http.BadRequest, MsgExpired, user)
        else Reply(Http.BadRequest, MsgInvalid, user)
  }

  /** A null code is answered by the framework, before the user is looked
      at, when the implicit `[Required]` applies, and by the action's own
      check otherwise; an empty one always reaches the action. */
  lemma NullCodeRefusal(user: Option<Admin>, clearAfter: bool, now: int, updated: bool)
    ensures ValidateAction(user, None, clearAfter, now, updated, true).message == MsgCodeFieldRequired
    ensures ValidateAction(user, None, clearAfter, now, updated, true).status == Http.BadRequest
    ensures ValidateAction(user, None, clearAfter, now, updated, false)
         == ValidateAction(user, Some(""), clearAfter, now, updated, true)
    ensures ValidateAction(user, Some(""), clearAfter, now, updated, true).status
         == (if user.None? then Http.Unauthorized else Http.BadRequest)
  {
  }

  /** The body of `GetAdminCodeStatus`. */
  datatype CodeStatus = CodeStatus(hasCode: bool, isExpired: bool, expiresAt: Option<int>)

  function StatusAction(user: Option<Admin>, now: int): (r: Option<CodeStatus>)
    ensures r.None? <==> user.None?
    ensures r.Some? ==> (r.value.hasCode <==> user.value.adminCode != [])
    ensures r.Some? ==> (r.value.isExpired <==> IsExpired(user.value, now))
    ensures r.Some? ==> r.value.expiresAt == user.value.expiry
  {
    match user
    case None => None
    case Some(a) => Some(CodeStatus(a.adminCode != [], IsExpired(a, now), a.expiry))
  }

  /** `ClearAdminCode`. */
  function ClearAction(user: Option<Admin>, updated: bool): (r: Reply)
    ensures user.None? <==> r.status == Http.Unauthorized
    ensures r.status == Http.Ok <==> user.Some? && updated
    ensures r.status == Http.Ok ==> r.stored == Some(NoCode)
    ensures r.status != Http.Ok ==> r.stored == user
  {
    match user
    case None => Reply(Http.Unauthorized, "", None)
    case Some(a) => if updated then Reply(Http.Ok, "", Some(Clear(a))) else Reply(Http.BadRequest, "", user)
  }

  // ---------------------------------------------------------------------
  // Properties of the lifecycle
  // ---------------------------------------------------------------------

  /** A code is one-time by default: generated, then validated with
      clearing, it does not validate a second time, and the second attempt
      is reported as expired. */
  lemma CodeIsOneTime(a: Admin, roles: seq<string>, now: int, draws: seq<int>, later: int)
    requires ValidDraws(draws) && "Admin" in roles && InDateRange(AddHours(now, DefaultExpiryHours))
    ensures var g := GenerateAction(Some(a), roles, None, now, draws, true);
      var code := g.stored.value.adminCode;
      var v1 := ValidateAction(g.stored, Some(code), true, now, true, true);
      var v2 := ValidateAction(v1.stored, Some(code), true, later, true, true);
      && v1.status == Http.Ok && v2.status == Http.BadRequest && v2.message == MsgExpired
  {
    FreshCodeValidates(a, now, DefaultExpiryHours, draws);
  }

  /** A lifetime of a hundred million hours (about 11400 years) runs past
      the last `DateTime` from any instant: the request fails with 500 and
      nothing is stored. */
  lemma CenturiesLongLifetimeFails(a: Admin, roles: seq<string>, now: int, draws: seq<int>, updated: bool)
    requires ValidDraws(draws) && "Admin" in roles && InDateRange(now)
    ensures GenerateAction(Some(a), roles, Some(100000000), now, draws, updated) ==
      Reply(Http.InternalServerError, "", Some(a))
  {
  }

  /** Without clearing, the same code keeps validating until its expiry. */
  lemma ReusableWithoutClear(a: Admin, code: string, now: int, later: int)
    requires IsValid(a, code, now) && now <= later <= a.expiry.value
    ensures ValidateAction(Some(a), Some(code), false, later, true, true).status == Http.Ok
    ensures ValidateAction(Some(a), Some(code), false, now, true, true).stored == Some(a)
  {
  }

  /** A user whose roles are only Teacher, Student or a differently cased
      "admin" can never get a code: roles are compared exactly. */
  lemma OnlyAdminsGenerate(a: Admin, roles: seq<string>, e: Option<int>, now: int, draws: seq<int>, updated: bool)
    requires ValidDraws(draws)
    requires forall i :: 0 <= i < |roles| ==> roles[i] in {"Teacher", "Student", "admin"}
    ensures GenerateAction(Some(a), roles, e, now, draws, updated).status == Http.Forbidden
    ensures GenerateAction(Some(a), roles, e, now, draws, updated).stored == Some(a)
  {
  }

  /** The status report agrees with validation: a code that validates is
      reported present and not expired. */
  lemma StatusAgreesWithValidation(a: Admin, code: string, now: int)
    requires IsValid(a, code, now)
    ensures StatusAction(Some(a), now) == Some(CodeStatus(true, false, a.expiry))
  {
  }
}
