/** Account registration and sign-in, as written twice: in AdminService's
    `AdminController` and in IdentityService's `AuthController`. The two
    `Register` and `Login` actions are the same code; ASP.NET Identity's
    user store and password check are oracles whose answers are
    parameters. */
module Accounts {
  import opened Common
  import Http

  /** The only roles `Register` will assign. */
  const AssignableRoles: set<string> := {"Admin", "Teacher", "Student"}

  /** The outcome of `Register`: the status, whether the account now
      exists, and the role added to it, if any. */
  datatype Registration = Registration(status: int, created: bool, roleAdded: Option<string>)

  /** What `AddToRoleAsync` did: added the role, returned a failed
      `IdentityResult` (which `Register` never reads), or threw (the user
      store throws for a role that is not in the roles table, and nothing
      seeds the three roles). */
  datatype RoleStep = RoleAdded | RoleFailed | RoleThrew

  /** A role `Register` asks the store to add: non-empty and one of the
      three. */
  predicate Assignable(role: Option<string>) {
    !IsNullOrEmpty(role) && role.value in AssignableRoles
  }

  /** `Register`. `modelValid` is model binding's verdict; `createSucceeded`
      is what `UserManager.CreateAsync` answered; `roleStep` is what
      `AddToRoleAsync` did, consulted only for an assignable role. Any other
      role is ignored and the account is still created. A failed role
      result is ignored too; a throwing one escapes as 500 after the account
      was created. */
  function Register(modelValid: bool, createSucceeded: bool, role: Option<string>, roleStep: RoleStep)
    : (r: Registration)
    ensures r.created <==> modelValid && createSucceeded
    ensures !r.created ==> r.status == Http.BadRequest
    ensures r.status == Http.InternalServerError <==> r.created && Assignable(role) && roleStep == RoleThrew
    ensures r.status == Http.Ok <==> r.created && !(Assignable(role) && roleStep == RoleThrew)
    ensures r.roleAdded.Some? <==> r.created && Assignable(role) && roleStep == RoleAdded
    ensures r.roleAdded.Some? ==> r.roleAdded == role
  {
    if !modelValid then Registration(Http.BadRequest, false, None)
    else if !createSucceeded then Registration(Http.BadRequest, false, None)
    else if Assignable(role) then
      match roleStep
      case RoleAdded => Registration(Http.Ok, true, role)
      case RoleFailed => Registration(Http.Ok, true, None)
      case RoleThrew => Registration(Http.InternalServerError, true, None)
    else Registration(Http.Ok, true, None)
  }

  /** A requested role outside the three (for example "SuperAdmin") is
      never assigned, and the role store is not asked, so the registration
      succeeds whatever it would have done. */
  lemma UnlistedRoleIgnored(role: string, roleStep: RoleStep)
    requires role !in AssignableRoles
    ensures Register(true, true, Some(role), roleStep) == Registration(Http.Ok, true, None)
  {
  }

  /** Roles are compared exactly: "admin" is not "Admin". */
  lemma RoleMatchIsCaseSensitive()
    ensures Register(true, true, Some("admin"), RoleAdded).roleAdded == None
    ensures Register(true, true, Some("Admin"), RoleAdded).roleAdded == Some("Admin")
  {
  }

  /** When the role step throws, the client sees 500 although the account
      was created; a failed role result goes unnoticed and the reply is
      200 without the role. */
  lemma RoleFailureAfterCreation(role: string)
    requires role in AssignableRoles
    ensures Register(true, true, Some(role), RoleThrew) == Registration(Http.InternalServerError, true, None)
    ensures Register(true, true, Some(role), RoleFailed) == Registration(Http.Ok, true, None)
  {
  }

  /** A stored account. */
  datatype Account = Account(id: string, email: string, fullName: string, roles: seq<string>)

  /** What `PasswordSignInAsync` reports (with lockout on failure). */
  datatype SignIn = SignedIn | LockedOut | NotAllowed | RequiresTwoFactor | WrongPassword

  /** `UserResponseDto`. */
  datatype UserView = UserView(id: string, email: string, fullName: string, roles: seq<string>)

  datatype LoginReply = LoginReply(status: int, user: Option<UserView>, signInAttempted: bool)

  /** `Login`. `found` is `FindByEmailAsync`'s answer and `signIn` what the
      password check would answer for it. */
  function Login(modelValid: bool, found: Option<Account>, signIn: SignIn): (r: LoginReply)
    ensures r.signInAttempted <==> modelValid && found.Some?
    ensures r.status == Http.Ok <==> r.signInAttempted && signIn == SignedIn
    ensures r.user.Some? <==> r.status == Http.Ok
    ensures r.status == Http.Locked <==> r.signInAttempted && signIn == LockedOut
    ensures r.status in {Http.Ok, Http.BadRequest, Http.Unauthorized, Http.Locked}
  {
    if !modelValid then LoginReply(Http.BadRequest, None, false)
    else match found
      case None => LoginReply(Http.Unauthorized, None, false)
      case Some(a) =>
        match signIn
        case SignedIn => LoginReply(Http.Ok, Some(UserView(a.id, a.email, a.fullName, a.roles)), true)
        case LockedOut => LoginReply(Http.Locked, None, true)
        case _ => LoginReply(Http.Unauthorized, None, true)
  }

  /** An unknown e-mail gets 401 before any password is checked, the same
      answer as a wrong password: the reply does not tell the two apart. */
  lemma UnknownEmailLooksLikeWrongPassword(a: Account, s: SignIn)
    ensures Login(true, None, s).status == Http.Unauthorized
    ensures !Login(true, None, s).signInAttempted
    ensures Login(true, None, s).status == Login(true, Some(a), WrongPassword).status
  {
  }

  /** A successful sign-in returns exactly the account's id, e-mail, full
      name and roles. */
  lemma LoginReturnsAccount(a: Account)
    ensures Login(true, Some(a), SignedIn).user == Some(UserView(a.id, a.email, a.fullName, a.roles))
  {
  }
}
