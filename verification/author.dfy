/** AuthorService's `Author` entity: its derived `FullName`, `Age` and
    `Status`, and the three FluentValidation rule sets over its fields
    (`AuthorValidator`, `CreateAuthorDtoValidator`,
    `UpdateAuthorDtoValidator`). Birth and death are calendar dates;
    `DateTime.Now` / `DateTime.Today` is the parameter `today`. */
module Authors {
  import opened Common
  import opened Dates
  import opened Rules

  /** The fields an author shares with `AuthorBaseDto`. Strings may be
      null. */
  datatype Profile = Profile(firstName: Option<string>, lastName: Option<string>, biography: Option<string>,
                             email: Option<string>, dateOfBirth: Option<Date>, dateOfDeath: Option<Date>,
                             country: Option<string>, website: Option<string>)

  datatype Author = Author(authorId: int, profile: Profile, isActive: bool, createdDate: int, lastModified: int)

  // ---------------------------------------------------------------------
  // Derived fields
  // ---------------------------------------------------------------------

  /** `FullName`: the interpolation `$"{FirstName} {LastName}"`, where a
      null name contributes nothing. */
  function FullName(p: Profile): (r: string)
    ensures var f := p.firstName.GetOr(""); var l := p.lastName.GetOr("");
      |r| == |f| + 1 + |l| && r[..|f|] == f && r[|f|] == ' ' && r[|f| + 1..] == l
  {
    p.firstName.GetOr("") + " " + p.lastName.GetOr("")
  }

  /** When first names hold no space, the full name determines both
      names. */
  lemma FullNameInjective(p: Profile, q: Profile)
    requires p.firstName.Some? && q.firstName.Some? && p.lastName.Some? && q.lastName.Some?
    requires ' ' !in p.firstName.value && ' ' !in q.firstName.value
    requires FullName(p) == FullName(q)
    ensures p.firstName == q.firstName && p.lastName == q.lastName
  {
  }

  /** `Status`. */
  function Status(p: Profile): (r: string)
    ensures r == "Deceased" <==> p.dateOfDeath.Some?
    ensures r == "Alive" <==> p.dateOfDeath.None?
  {
    if p.dateOfDeath.Some? then "Deceased" else "Alive"
  }

  /** `Age`: full years from birth to death, or to today for a living
      author; null without a birth date. */
  function Age(p: Profile, today: Date): (r: Option<int>)
    ensures r.None? <==> p.dateOfBirth.None?
  {
    if p.dateOfBirth.None? then None
    else
      var birth := p.dateOfBirth.value;
      var end := p.dateOfDeath.GetOr(today);
      var age := end.year - birth.year;
      Some(if Before(AddYears(end, -age), birth) then age - 1 else age)
  }

  /** The age is the number of birthdays passed: the largest `n` such that
      the end date, taken back `n` years, is not before the birth date. */
  lemma AgeIsCompletedYears(p: Profile, today: Date)
    requires p.dateOfBirth.Some?
    ensures var n := Age(p, today).value; var end := p.dateOfDeath.GetOr(today);
      && NotAfter(p.dateOfBirth.value, AddYears(end, -n))
      && Before(AddYears(end, -(n + 1)), p.dateOfBirth.value)
  {
  }

  /** Someone born on February 29 turns one on March 1 of the following
      year, not on February 28. */
  lemma LeapDayBirthday()
    ensures var p := Profile(None, None, None, None, Some(Date(2000, 2, 29)), None, None, None);
      Age(p, Date(2001, 2, 28)) == Some(0) && Age(p, Date(2001, 3, 1)) == Some(1)
  {
  }

  /** A birth date that is not after the end date gives a non-negative
      age. */
  lemma AgeNonNegative(p: Profile, today: Date)
    requires p.dateOfBirth.Some? && IsValid(p.dateOfDeath.GetOr(today))
    requires NotAfter(p.dateOfBirth.value, p.dateOfDeath.GetOr(today))
    ensures Age(p, today).value >= 0
  {
  }

  // ---------------------------------------------------------------------
  // Validation
  // ---------------------------------------------------------------------

  /** The regular expressions and the e-mail check, as oracles: `name` for
      first and last names, `country`, `website`, and FluentValidation's
      `EmailAddress()`. */
  datatype Patterns = Patterns(name: string -> bool, country: string -> bool, website: string -> bool,
                               email: string -> bool)

  const MsgFirstRequired: string := "First name is required"
  const MsgFirstLength: string := "First name must be between 2 and 50 characters"
  const MsgFirstChars: string := "First name can only contain letters, spaces, hyphens and apostrophes"
  const MsgLastRequired: string := "Last name is required"
  const MsgLastLength: string := "Last name must be between 2 and 50 characters"
  const MsgLastChars: string := "Last name can only contain letters, spaces, hyphens and apostrophes"
  const MsgDeathFuture: string := "Date of death cannot be in the future"

  function FirstNameFailures(p: Profile, re: Patterns): (r: seq<Failure>)
    ensures forall i :: 0 <= i < |r| ==> r[i].property == "FirstName"
  {
    Check(NotEmpty(p.firstName), "FirstName", Some(MsgFirstRequired))
    + Check(LengthBetween(p.firstName, 2, 50), "FirstName", Some(MsgFirstLength))
    + Check(Matches(p.firstName, re.name), "FirstName", Some(MsgFirstChars))
  }

  function LastNameFailures(p: Profile, re: Patterns): (r: seq<Failure>)
    ensures forall i :: 0 <= i < |r| ==> r[i].property == "LastName"
  {
    Check(NotEmpty(p.lastName), "LastName", Some(MsgLastRequired))
    + Check(LengthBetween(p.lastName, 2, 50), "LastName", Some(MsgLastLength))
    + Check(Matches(p.lastName, re.name), "LastName", Some(MsgLastChars))
  }

  /** Checked only when a biography is given. */
  function BiographyFailures(p: Profile): (r: seq<Failure>)
    ensures forall i :: 0 <= i < |r| ==> r[i].property == "Biography"
  {
    if IsNullOrEmpty(p.biography) then []
    else Check(MaxLength(p.biography, 500), "Biography", Some("Biography cannot exceed 500 characters"))
  }

  function EmailFailures(p: Profile, re: Patterns): (r: seq<Failure>)
    ensures forall i :: 0 <= i < |r| ==> r[i].property == "Email"
  {
    Check(NotEmpty(p.email), "Email", Some("Email is required"))
    + Check(Matches(p.email, re.email), "Email", Some("Valid email address is required"))
    + Check(MaxLength(p.email, 100), "Email", Some("Email cannot exceed 100 characters"))
  }

  function BirthFailures(p: Profile, today: Date): (r: seq<Failure>)
    ensures forall i :: 0 <= i < |r| ==> r[i].property == "DateOfBirth"
  {
    if p.dateOfBirth.None? then []
    else Check(Before(p.dateOfBirth.value, today), "DateOfBirth", Some("Date of birth must be in the past"))
  }

  /** Checked only when both dates are given. */
  function DeathFailures(p: Profile, today: Date): (r: seq<Failure>)
    ensures forall i :: 0 <= i < |r| ==> r[i].property == "DateOfDeath"
  {
    if p.dateOfBirth.None? || p.dateOfDeath.None? then []
    else
      Check(Before(p.dateOfBirth.value, p.dateOfDeath.value), "DateOfDeath",
            Some("Date of death must be after date of birth"))
      + Check(NotAfter(p.dateOfDeath.value, today), "DateOfDeath", Some(MsgDeathFuture))
  }

  function CountryFailures(p: Profile, re: Patterns): (r: seq<Failure>)
    ensures forall i :: 0 <= i < |r| ==> r[i].property == "Country"
  {
    Check(NotEmpty(p.country), "Country", Some("Country is required"))
    + Check(LengthBetween(p.country, 2, 50), "Country", Some("Country must be between 2 and 50 characters"))
    + Check(Matches(p.country, re.country), "Country",
            Some("Country can only contain letters, spaces, hyphens and parentheses"))
  }

  /** Checked only when a website is given. */
  function WebsiteFailures(p: Profile, re: Patterns): (r: seq<Failure>)
    ensures forall i :: 0 <= i < |r| ==> r[i].property == "Website"
  {
    if IsNullOrEmpty(p.website) then []
    else
      Check(MaxLength(p.website, 200), "Website", Some("Website URL cannot exceed 200 characters"))
      + Check(Matches(p.website, re.website), "Website", Some("Valid website URL is required"))
  }

  /** The rules every one of the three validators applies to the shared
      fields, in declaration order. */
  function ProfileFailures(p: Profile, today: Date, re: Patterns): seq<Failure> {
    FirstNameFailures(p, re) + LastNameFailures(p, re) + BiographyFailures(p) + EmailFailures(p, re)
    + BirthFailures(p, today) + DeathFailures(p, today) + CountryFailures(p, re) + WebsiteFailures(p, re)
  }

  /** The same rule set stated as one condition per property. */
  predicate ProfileAcceptable(p: Profile, today: Date, re: Patterns) {
    && NotEmpty(p.firstName) && LengthBetween(p.firstName, 2, 50) && Matches(p.firstName, re.name)
    && NotEmpty(p.lastName) && LengthBetween(p.lastName, 2, 50) && Matches(p.lastName, re.name)
    && MaxLength(p.biography, 500)
    && NotEmpty(p.email) && Matches(p.email, re.email) && MaxLength(p.email, 100)
    && (p.dateOfBirth.Some? ==> Before(p.dateOfBirth.value, today))
    && (p.dateOfBirth.Some? && p.dateOfDeath.Some? ==>
          Before(p.dateOfBirth.value, p.dateOfDeath.value) && NotAfter(p.dateOfDeath.value, today))
    && NotEmpty(p.country) && LengthBetween(p.country, 2, 50) && Matches(p.country, re.country)
    && (p.website.Some? ==> |p.website.value| <= 200 && (p.website.value == [] || re.website(p.website.value)))
  }

  /** `AuthorValidator` (the entity). */
  function AuthorFailures(a: Author, today: Date, re: Patterns): seq<Failure> {
    ProfileFailures(a.profile, today, re)
  }

  /** `CreateAuthorDtoValidator`. */
  function CreateFailures(dto: Profile, today: Date, re: Patterns): seq<Failure> {
    ProfileFailures(dto, today, re)
  }

  /** `UpdateAuthorDtoValidator`: the id rule first, then the shared ones. */
  function UpdateFailures(authorId: int, dto: Profile, today: Date, re: Patterns): seq<Failure> {
    Check(authorId > 0, "AuthorId", Some("Author ID must be greater than 0")) + ProfileFailures(dto, today, re)
  }

  /** The DataAnnotations on `AuthorBaseDto`, property by property, each
      property's `[Required]` first as MVC orders them. Nullable reference
      types are on in this service, so biography, e-mail, country and
      website carry the implicit `[Required]` that rejects only null; its
      message is the default one. The `[Required]` on the update's integer
      id can never fail. */
  function AnnotationFailures(p: Profile, re: Patterns): (r: seq<Failure>)
    ensures r == [] <==>
      && Required(p.firstName, false) && MaxLength(p.firstName, 50)
      && Required(p.lastName, false) && MaxLength(p.lastName, 50)
      && Required(p.biography, true) && MaxLength(p.biography, 500)
      && Required(p.email, true) && Matches(p.email, re.email) && MaxLength(p.email, 100)
      && Required(p.country, true) && MaxLength(p.country, 50)
      && Required(p.website, true) && UrlAttribute(p.website) && MaxLength(p.website, 200)
  {
    Check(Required(p.firstName, false), "FirstName", Some(MsgFirstRequired))
    + Check(MaxLength(p.firstName, 50), "FirstName", Some("First name cannot exceed 50 characters"))
    + Check(Required(p.lastName, false), "LastName", Some(MsgLastRequired))
    + Check(MaxLength(p.lastName, 50), "LastName", Some("Last name cannot exceed 50 characters"))
    + Check(Required(p.biography, true), "Biography", None)
    + Check(MaxLength(p.biography, 500), "Biography", Some("Biography cannot exceed 500 characters"))
    + Check(Required(p.email, true), "Email", None)
    + Check(Matches(p.email, re.email), "Email", Some("Invalid email address format"))
    + Check(MaxLength(p.email, 100), "Email", Some("Email cannot exceed 100 characters"))
    + Check(Required(p.country, true), "Country", None)
    + Check(MaxLength(p.country, 50), "Country", Some("Country cannot exceed 50 characters"))
    + Check(Required(p.website, true), "Website", None)
    + Check(UrlAttribute(p.website), "Website", Some("Invalid URL format"))
    + Check(MaxLength(p.website, 200), "Website", Some("Website URL cannot exceed 200 characters"))
  }

  /** What a create request is refused with: the annotations' failures
      when there are any (the validator, attached to the whole object, is
      then not run), otherwise `CreateAuthorDtoValidator`'s, which
      FluentValidation's automatic validation reports before the action
      and the action would report again. */
  function RequestFailures(dto: Profile, today: Date, re: Patterns): seq<Failure> {
    var a := AnnotationFailures(dto, re);
    if a != [] then a else CreateFailures(dto, today, re)
  }

  /** The same for an update request and `UpdateAuthorDtoValidator`. */
  function UpdateRequestFailures(authorId: int, dto: Profile, today: Date, re: Patterns): seq<Failure> {
    var a := AnnotationFailures(dto, re);
    if a != [] then a else UpdateFailures(authorId, dto, today, re)
  }

  /** A create request gets through exactly when the validator accepts it
      and, beyond that, a biography and a website are sent and the website
      names an http, https or ftp address: everything else the annotations
      ask the validator asks too. */
  lemma RequestValidIff(dto: Profile, today: Date, re: Patterns)
    ensures RequestFailures(dto, today, re) == [] <==>
      && ProfileAcceptable(dto, today, re)
      && dto.biography.Some? && dto.website.Some? && UrlAttribute(dto.website)
  {
    ProfileValidIff(dto, today, re);
  }

  /** An update request gets through exactly when the id is positive and
      the create request would. */
  lemma UpdateRequestValidIff(authorId: int, dto: Profile, today: Date, re: Patterns)
    ensures UpdateRequestFailures(authorId, dto, today, re) == [] <==>
      authorId > 0 && RequestFailures(dto, today, re) == []
  {
    UpdateValidIff(authorId, dto, today, re);
  }

  /** A website without a scheme, or an empty one, passes the validator's
      own rule as far as the pattern allows but is refused by `[Url]`; a
      missing one is refused by the implicit `[Required]`. */
  lemma WebsiteNeedsScheme(p: Profile, today: Date, re: Patterns)
    ensures RequestFailures(p.(website := Some("example.com")), today, re) != []
    ensures RequestFailures(p.(website := Some("")), today, re) != []
    ensures RequestFailures(p.(website := None), today, re) != []
  {
    var w := "example.com";
    assert !UrlAttribute(Some(w)) by {
      assert UpperChar(w[0]) == 'E';
    }
    BadWebsiteRefused(p.(website := Some(w)), today, re);
    BadWebsiteRefused(p.(website := Some("")), today, re);
    BadWebsiteRefused(p.(website := None), today, re);
  }

  /** A request whose website is missing or not an address is refused by
      the annotations, whatever the validator would say. */
  lemma BadWebsiteRefused(p: Profile, today: Date, re: Patterns)
    requires !Required(p.website, true) || !UrlAttribute(p.website)
    ensures RequestFailures(p, today, re) == AnnotationFailures(p, re) != []
  {
  }

  /** A profile passes exactly when every property meets its rules. */
  lemma ProfileValidIff(p: Profile, today: Date, re: Patterns)
    ensures ProfileFailures(p, today, re) == [] <==> ProfileAcceptable(p, today, re)
  {
    NamesAndEmailIff(p, re);
    DatesCountryAndWebsiteIff(p, today, re);
    var F, L, B, E := FirstNameFailures(p, re), LastNameFailures(p, re), BiographyFailures(p), EmailFailures(p, re);
    var DB, DD, C, W := BirthFailures(p, today), DeathFailures(p, today), CountryFailures(p, re), WebsiteFailures(p, re);
    assert |ProfileFailures(p, today, re)| == |F| + |L| + |B| + |E| + |DB| + |DD| + |C| + |W|;
  }

  lemma NamesAndEmailIff(p: Profile, re: Patterns)
    ensures FirstNameFailures(p, re) == [] <==>
      NotEmpty(p.firstName) && LengthBetween(p.firstName, 2, 50) && Matches(p.firstName, re.name)
    ensures LastNameFailures(p, re) == [] <==>
      NotEmpty(p.lastName) && LengthBetween(p.lastName, 2, 50) && Matches(p.lastName, re.name)
    ensures BiographyFailures(p) == [] <==> MaxLength(p.biography, 500)
    ensures EmailFailures(p, re) == [] <==> NotEmpty(p.email) && Matches(p.email, re.email) && MaxLength(p.email, 100)
  {
  }

  lemma DatesCountryAndWebsiteIff(p: Profile, today: Date, re: Patterns)
    ensures BirthFailures(p, today) == [] <==> (p.dateOfBirth.Some? ==> Before(p.dateOfBirth.value, today))
    ensures DeathFailures(p, today) == [] <==>
      (p.dateOfBirth.Some? && p.dateOfDeath.Some? ==>
         Before(p.dateOfBirth.value, p.dateOfDeath.value) && NotAfter(p.dateOfDeath.value, today))
    ensures CountryFailures(p, re) == [] <==>
      NotEmpty(p.country) && LengthBetween(p.country, 2, 50) && Matches(p.country, re.country)
    ensures WebsiteFailures(p, re) == [] <==>
      (p.website.Some? ==> |p.website.value| <= 200 && (p.website.value == [] || re.website(p.website.value)))
  {
    DeathIff(p, today);
    WebsiteIff(p, re);
  }

  lemma DeathIff(p: Profile, today: Date)
    ensures DeathFailures(p, today) == [] <==>
      (p.dateOfBirth.Some? && p.dateOfDeath.Some? ==>
         Before(p.dateOfBirth.value, p.dateOfDeath.value) && NotAfter(p.dateOfDeath.value, today))
  {
    if p.dateOfBirth.Some? && p.dateOfDeath.Some? {
      var a := Check(Before(p.dateOfBirth.value, p.dateOfDeath.value), "DateOfDeath",
                     Some("Date of death must be after date of birth"));
      var b := Check(NotAfter(p.dateOfDeath.value, today), "DateOfDeath", Some(MsgDeathFuture));
      assert DeathFailures(p, today) == a + b;
      assert |a + b| == |a| + |b|;
    }
  }

  lemma WebsiteIff(p: Profile, re: Patterns)
    ensures WebsiteFailures(p, re) == [] <==>
      (p.website.Some? ==> |p.website.value| <= 200 && (p.website.value == [] || re.website(p.website.value)))
  {
    if !IsNullOrEmpty(p.website) {
      var a := Check(MaxLength(p.website, 200), "Website", Some("Website URL cannot exceed 200 characters"));
      var b := Check(Matches(p.website, re.website), "Website", Some("Valid website URL is required"));
      assert WebsiteFailures(p, re) == a + b;
      assert |a + b| == |a| + |b|;
    }
  }

  /** An update passes exactly when its id is positive and the same fields
      would pass creation. */
  lemma UpdateValidIff(authorId: int, dto: Profile, today: Date, re: Patterns)
    ensures UpdateFailures(authorId, dto, today, re) == [] <==> authorId > 0 && CreateFailures(dto, today, re) == []
  {
  }

  /** A null first name breaks only "required"; an empty one also breaks
      the length rule (and the pattern, which needs a character). */
  lemma NullAndEmptyNamesDiffer(p: Profile, today: Date, re: Patterns)
    requires !re.name([])
    ensures On(ProfileFailures(p.(firstName := None), today, re), "FirstName")
      == [Failure("FirstName", Some(MsgFirstRequired))]
    ensures On(ProfileFailures(p.(firstName := Some([])), today, re), "FirstName")
      == [Failure("FirstName", Some(MsgFirstRequired)), Failure("FirstName", Some(MsgFirstLength)),
          Failure("FirstName", Some(MsgFirstChars))]
  {
    NullNameFailures(p, today, re);
    EmptyNameFailures(p, today, re);
  }

  lemma NullNameFailures(p: Profile, today: Date, re: Patterns)
    ensures On(ProfileFailures(p.(firstName := None), today, re), "FirstName")
      == [Failure("FirstName", Some(MsgFirstRequired))]
  {
    var q := p.(firstName := None);
    OnProperty(q, today, re);
    assert FirstNameFailures(q, re) == [Failure("FirstName", Some(MsgFirstRequired))] + [] + [];
  }

  lemma EmptyNameFailures(p: Profile, today: Date, re: Patterns)
    requires !re.name([])
    ensures On(ProfileFailures(p.(firstName := Some([])), today, re), "FirstName")
      == [Failure("FirstName", Some(MsgFirstRequired)), Failure("FirstName", Some(MsgFirstLength)),
          Failure("FirstName", Some(MsgFirstChars))]
  {
    var q := p.(firstName := Some([]));
    OnProperty(q, today, re);
    assert FirstNameFailures(q, re) == [Failure("FirstName", Some(MsgFirstRequired))]
      + [Failure("FirstName", Some(MsgFirstLength))] + [Failure("FirstName", Some(MsgFirstChars))];
  }

  /** Death dates are checked only together with a birth date: without one,
      a death date in the future passes. */
  lemma DeathDateUncheckedWithoutBirth(p: Profile, today: Date, re: Patterns)
    requires p.dateOfBirth.None? && p.dateOfDeath.Some? && Before(today, p.dateOfDeath.value)
    ensures On(ProfileFailures(p, today, re), "DateOfDeath") == []
  {
    OnProperty(p, today, re);
  }

  /** Each property's failures in the whole list are exactly those its own
      rules produce. */
  lemma OnProperty(p: Profile, today: Date, re: Patterns)
    ensures On(ProfileFailures(p, today, re), "FirstName") == FirstNameFailures(p, re)
    ensures On(ProfileFailures(p, today, re), "DateOfDeath") == DeathFailures(p, today)
  {
    OnFirstName(p, today, re);
    OnDateOfDeath(p, today, re);
  }

  /** The first name's failures are the first name's own rules'. */
  lemma OnFirstName(p: Profile, today: Date, re: Patterns)
    ensures On(ProfileFailures(p, today, re), "FirstName") == FirstNameFailures(p, re)
  {
    var F, L, B, E := FirstNameFailures(p, re), LastNameFailures(p, re), BiographyFailures(p), EmailFailures(p, re);
    var DB, DD, C, W := BirthFailures(p, today), DeathFailures(p, today), CountryFailures(p, re), WebsiteFailures(p, re);
    var x := "FirstName";
    OnSingleProperty(F, x, x);
    OnSingleProperty(L, "LastName", x); OnSingleProperty(B, "Biography", x); OnSingleProperty(E, "Email", x);
    OnSingleProperty(DB, "DateOfBirth", x); OnSingleProperty(DD, "DateOfDeath", x);
    OnSingleProperty(C, "Country", x); OnSingleProperty(W, "Website", x);
    var a1 := F + L; OnConcat(F, L, x); assert On(a1, x) == F;
    var a2 := a1 + B; OnConcat(a1, B, x); assert On(a2, x) == F;
    var a3 := a2 + E; OnConcat(a2, E, x); assert On(a3, x) == F;
    var a4 := a3 + DB; OnConcat(a3, DB, x); assert On(a4, x) == F;
    var a5 := a4 + DD; OnConcat(a4, DD, x); assert On(a5, x) == F;
    var a6 := a5 + C; OnConcat(a5, C, x); assert On(a6, x) == F;
    OnConcat(a6, W, x);
  }

  /** The death date's failures are the death date's own rules'. */
  lemma OnDateOfDeath(p: Profile, today: Date, re: Patterns)
    ensures On(ProfileFailures(p, today, re), "DateOfDeath") == DeathFailures(p, today)
  {
    var F, L, B, E := FirstNameFailures(p, re), LastNameFailures(p, re), BiographyFailures(p), EmailFailures(p, re);
    var DB, DD, C, W := BirthFailures(p, today), DeathFailures(p, today), CountryFailures(p, re), WebsiteFailures(p, re);
    var y := "DateOfDeath";
    OnSingleProperty(F, "FirstName", y); OnSingleProperty(L, "LastName", y);
    OnSingleProperty(B, "Biography", y); OnSingleProperty(E, "Email", y);
    OnSingleProperty(DB, "DateOfBirth", y); OnSingleProperty(DD, y, y);
    OnSingleProperty(C, "Country", y); OnSingleProperty(W, "Website", y);
    var a1 := F + L; OnConcat(F, L, y); assert On(a1, y) == [];
    var a2 := a1 + B; OnConcat(a1, B, y); assert On(a2, y) == [];
    var a3 := a2 + E; OnConcat(a2, E, y); assert On(a3, y) == [];
    var a4 := a3 + DB; OnConcat(a3, DB, y); assert On(a4, y) == [];
    var a5 := a4 + DD; OnConcat(a4, DD, y); assert On(a5, y) == DD;
    var a6 := a5 + C; OnConcat(a5, C, y); assert On(a6, y) == DD;
    OnConcat(a6, W, y);
  }

  /** A profile that passes has a non-negative age. */
  lemma AcceptedProfileHasNonNegativeAge(p: Profile, today: Date, re: Patterns)
    requires ProfileFailures(p, today, re) == [] && p.dateOfBirth.Some? && IsValid(p.dateOfDeath.GetOr(today))
    ensures Age(p, today).value >= 0
  {
    ProfileValidIff(p, today, re);
    OrderFacts(p.dateOfBirth.value, p.dateOfDeath.GetOr(today), today);
    AgeNonNegative(p, today);
  }
}
