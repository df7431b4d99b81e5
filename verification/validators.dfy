/** BooksService's FluentValidation rule sets for creating
    (`BookValidator`) and updating (`UpdateBookDtoValidator`) a book. The
    current year (`DateTime.Now.Year`) is a parameter and
    `Uri.IsWellFormedUriString(_, UriKind.Absolute)` an oracle. */
module BookValidation {
  import opened Common
  import opened Rules

  /** The fields of `CreateBookDto` the rules read. */
  datatype CreateBook = CreateBook(title: Option<string>, author: Option<string>, publisher: Option<string>,
                                   year: int, isbn: Option<string>, pages: int, category: Option<string>,
                                   language: Option<string>, description: Option<string>, photoPath: Option<string>)

  /** The fields of `UpdateBookDto` the rules read. */
  datatype UpdateBook = UpdateBook(title: Option<string>, authorId: int, publisher: Option<string>, year: int,
                                   isbn: Option<string>, pages: int, categoryId: int, language: Option<string>,
                                   description: Option<string>)

  const MsgIsbnLength: string := "ISBN must be 10 or 13 characters"

  /** `Must(uri => Uri.IsWellFormedUriString(uri, UriKind.Absolute))`: the
      check runs on null too, and null is not a well-formed URI. */
  predicate WellFormedAbsoluteUri(s: Option<string>, isUri: string -> bool) {
    s.Some? && isUri(s.value)
  }

  /** The ISBN rules of `BookValidator`, as written: any length from 10 to
      13 passes, although the message names only 10 and 13. */
  function IsbnFailures(isbn: Option<string>): (r: seq<Failure>)
    ensures r == [] <==> NotEmpty(isbn) && LengthBetween(isbn, 10, 13)
  {
    Check(NotEmpty(isbn), "ISBN", Some("ISBN is required"))
    + Check(LengthBetween(isbn, 10, 13), "ISBN", Some(MsgIsbnLength))
  }

  /** `BookValidator`, the rules over every other field. */
  function OtherCreateFailures(b: CreateBook, currentYear: int, isUri: string -> bool): seq<Failure> {
    Check(NotEmpty(b.title), "Title", Some("Title is required"))
    + Check(MaxLength(b.title, 200), "Title", Some("Title must be less than 200 characters"))
    + Check(NotEmpty(b.author), "Author", Some("Author is required"))
    + Check(MaxLength(b.author, 100), "Author", None)
    + Check(NotEmpty(b.publisher), "Publisher", Some("Publisher is required"))
    + Check(1000 <= b.year <= currentYear, "Year", Some("Year must be valid"))
  }

  function TailCreateFailures(b: CreateBook, isUri: string -> bool): seq<Failure> {
    Check(b.pages > 0, "Pages", Some("Pages must be greater than 0"))
    + Check(NotEmpty(b.category), "Category", None)
    + Check(NotEmpty(b.language), "Language", None)
    + Check(MaxLength(b.description, 1000), "Description", None)
    + Check(NotEmpty(b.photoPath), "PhotoPath", Some("PhotoPath is required"))
    + Check(WellFormedAbsoluteUri(b.photoPath, isUri), "PhotoPath", Some("PhotoPath must be a valid URL"))
  }

  /** `BookValidator` on a `CreateBookDto`, rules in declaration order. */
  function CreateFailures(b: CreateBook, currentYear: int, isUri: string -> bool): seq<Failure> {
    OtherCreateFailures(b, currentYear, isUri) + IsbnFailures(b.isbn) + TailCreateFailures(b, isUri)
  }

  /** The rule set as one condition per field. */
  predicate CreateAcceptable(b: CreateBook, currentYear: int, isUri: string -> bool) {
    && NotEmpty(b.title) && MaxLength(b.title, 200)
    && NotEmpty(b.author) && MaxLength(b.author, 100)
    && NotEmpty(b.publisher)
    && 1000 <= b.year <= currentYear
    && NotEmpty(b.isbn) && LengthBetween(b.isbn, 10, 13)
    && b.pages > 0
    && NotEmpty(b.category) && NotEmpty(b.language)
    && MaxLength(b.description, 1000)
    && NotEmpty(b.photoPath) && WellFormedAbsoluteUri(b.photoPath, isUri)
  }

  lemma CreateValidIff(b: CreateBook, currentYear: int, isUri: string -> bool)
    ensures CreateFailures(b, currentYear, isUri) == [] <==> CreateAcceptable(b, currentYear, isUri)
  {
    var o, i, t := OtherCreateFailures(b, currentYear, isUri), IsbnFailures(b.isbn), TailCreateFailures(b, isUri);
    assert |CreateFailures(b, currentYear, isUri)| == |o| + |i| + |t|;
  }

  /** A year is valid from 1000 up to and including the current year; a
      book dated next year is refused. */
  lemma YearBounds(b: CreateBook, currentYear: int, isUri: string -> bool)
    requires CreateAcceptable(b, currentYear, isUri)
    ensures !CreateAcceptable(b.(year := currentYear + 1), currentYear, isUri)
    ensures !CreateAcceptable(b.(year := 999), currentYear, isUri)
    ensures currentYear >= 1000 ==> CreateAcceptable(b.(year := currentYear), currentYear, isUri)
  {
  }

  /** As written, an 11-character ISBN passes, though the message says an
      ISBN must have 10 or 13 characters. */
  lemma IsbnOfElevenAccepted(isbn: string)
    requires |isbn| == 11 && !AllWhiteSpace(isbn)
    ensures IsbnFailures(Some(isbn)) == []
  {
  }

  /** The ISBN rule as its message states it: exactly 10 or exactly 13
      characters. */
  function IntendedIsbnFailures(isbn: Option<string>): (r: seq<Failure>)
    ensures r == [] <==> NotEmpty(isbn) && (isbn.None? || |isbn.value| == 10 || |isbn.value| == 13)
  {
    Check(NotEmpty(isbn), "ISBN", Some("ISBN is required"))
    + Check(isbn.None? || |isbn.value| == 10 || |isbn.value| == 13, "ISBN", Some(MsgIsbnLength))
  }

  /** The intended rule accepts an ISBN exactly when the written one does
      and its length is not 11 or 12. */
  lemma IntendedIsbnRule(isbn: string)
    ensures IntendedIsbnFailures(Some(isbn)) == [] <==>
      IsbnFailures(Some(isbn)) == [] && |isbn| != 11 && |isbn| != 12
  {
  }

  /** `BookValidator` with the intended ISBN rule. */
  function IntendedCreateFailures(b: CreateBook, currentYear: int, isUri: string -> bool): seq<Failure> {
    OtherCreateFailures(b, currentYear, isUri) + IntendedIsbnFailures(b.isbn) + TailCreateFailures(b, isUri)
  }

  /** With the intended rule, an accepted book's ISBN has 10 or 13
      characters, and every other field is accepted as before. */
  lemma IntendedCreateValid(b: CreateBook, currentYear: int, isUri: string -> bool)
    ensures IntendedCreateFailures(b, currentYear, isUri) == [] <==>
      CreateFailures(b, currentYear, isUri) == [] && (b.isbn.None? || |b.isbn.value| == 10 || |b.isbn.value| == 13)
  {
    var o, t := OtherCreateFailures(b, currentYear, isUri), TailCreateFailures(b, isUri);
    assert |IntendedCreateFailures(b, currentYear, isUri)| == |o| + |IntendedIsbnFailures(b.isbn)| + |t|;
    assert |CreateFailures(b, currentYear, isUri)| == |o| + |IsbnFailures(b.isbn)| + |t|;
  }

  /** `UpdateBookDtoValidator`. */
  function UpdateFailures(b: UpdateBook, currentYear: int): seq<Failure> {
    Check(NotEmpty(b.title), "Title", Some("Title is required"))
    + Check(MaxLength(b.title, 200), "Title", Some("Title cannot exceed 200 characters"))
    + Check(b.authorId > 0, "AuthorId", Some("Author ID must be greater than 0"))
    + Check(MaxLength(b.publisher, 100), "Publisher", Some("Publisher cannot exceed 100 characters"))
    + Check(1000 <= b.year <= currentYear, "Year", Some("Year must be valid"))
    + Check(NotEmpty(b.isbn), "ISBN", Some("ISBN is required"))
    + Check(MaxLength(b.isbn, 20), "ISBN", Some("ISBN cannot exceed 20 characters"))
    + Check(b.pages > 0, "Pages", Some("Pages must be greater than 0"))
    + Check(b.pages <= 10000, "Pages", Some("Pages cannot exceed 10000"))
    + Check(b.categoryId > 0, "CategoryId", Some("Category ID must be greater than 0"))
    + Check(MaxLength(b.language, 50), "Language", Some("Language cannot exceed 50 characters"))
    + Check(MaxLength(b.description, 2000), "Description", Some("Description cannot exceed 2000 characters"))
  }

  predicate UpdateAcceptable(b: UpdateBook, currentYear: int) {
    && NotEmpty(b.title) && MaxLength(b.title, 200)
    && b.authorId > 0
    && MaxLength(b.publisher, 100)
    && 1000 <= b.year <= currentYear
    && NotEmpty(b.isbn) && MaxLength(b.isbn, 20)
    && 0 < b.pages <= 10000
    && b.categoryId > 0
    && MaxLength(b.language, 50) && MaxLength(b.description, 2000)
  }

  lemma UpdateValidIff(b: UpdateBook, currentYear: int)
    ensures UpdateFailures(b, currentYear) == [] <==> UpdateAcceptable(b, currentYear)
  {
  }

  /** An update may leave the publisher and language out, which creation
      requires. */
  lemma UpdateAllowsMissingPublisher(b: UpdateBook, currentYear: int)
    requires UpdateAcceptable(b, currentYear)
    ensures UpdateAcceptable(b.(publisher := None, language := None), currentYear)
  {
  }
}

/** CategoryService's FluentValidation rule sets: for the `Category`
    entity (`CategoryValidator`) and for the create and update DTOs. The
    title pattern is an oracle. */
module CategoryValidation {
  import opened Common
  import opened Rules

  datatype Category = Category(id: int, title: Option<string>, description: Option<string>)

  /** `CategoryValidator`. The id rule, `Equal(0)` applied only when the id
      is 0, is written out as it stands. */
  function EntityFailures(c: Category, titlePattern: string -> bool): seq<Failure> {
    Check(NotEmpty(c.title), "Title", Some("Názov kategórie je povinný"))
    + Check(LengthBetween(c.title, 2, 100), "Title", Some("Názov kategórie musí mať medzi 2 a 100 znakmi"))
    + Check(Matches(c.title, titlePattern), "Title",
            Some("Názov kategórie môže obsahovať iba písmená, čísla, medzery a znaky -_."))
    + Check(NotEmpty(c.description), "Description", Some("Popis kategórie je povinný"))
    + Check(LengthBetween(c.description, 10, 500), "Description",
            Some("Popis kategórie musí mať medzi 10 a 500 znakmi"))
    + Check(MaxLength(c.description, 1000), "Description",
            Some("Popis kategórie nesmie byť dlhší ako 1000 znakov"))
    + (if c.id == 0 then Check(c.id == 0, "Id", Some("ID musí byť 0 pre novú kategóriu")) else [])
  }

  predicate EntityAcceptable(c: Category, titlePattern: string -> bool) {
    && NotEmpty(c.title) && LengthBetween(c.title, 2, 100) && Matches(c.title, titlePattern)
    && NotEmpty(c.description) && LengthBetween(c.description, 10, 500)
  }

  /** The entity passes exactly when title and description meet their
      rules: the 1000-character limit adds nothing beyond the 500 one, and
      the id is never constrained. */
  lemma EntityValidIff(c: Category, titlePattern: string -> bool)
    ensures EntityFailures(c, titlePattern) == [] <==> EntityAcceptable(c, titlePattern)
  {
  }

  /** The id rule never fails, whatever the id. */
  lemma IdRuleNeverFails(c: Category, titlePattern: string -> bool, id: int)
    ensures EntityFailures(c.(id := id), titlePattern) == EntityFailures(c.(id := 0), titlePattern)
  {
  }

  /** The 1000-character limit never fails alone: a description that breaks
      it has already broken the 10-to-500 rule. */
  lemma DescriptionMaxRedundant(d: Option<string>)
    ensures !MaxLength(d, 1000) ==> !LengthBetween(d, 10, 500)
  {
  }

  /** `CreateCategoryDtoValidator` and `UpdateCategoryDtoValidator`: the
      same rules. */
  function DtoFailures(title: Option<string>, description: Option<string>): seq<Failure> {
    Check(NotEmpty(title), "Title", Some("Title is required"))
    + Check(MaxLength(title, 100), "Title", Some("Title cannot exceed 100 characters"))
    + Check(MinLength(title, 2), "Title", Some("Title must be at least 2 characters long"))
    + Check(MaxLength(description, 500), "Description", Some("Description cannot exceed 500 characters"))
  }

  /** A DTO passes with a title of 2 to 100 characters that is not blank,
      and a description of at most 500 characters, possibly missing; the
      entity rules are stricter about the description. */
  lemma DtoValidIff(title: Option<string>, description: Option<string>)
    ensures DtoFailures(title, description) == [] <==>
      NotEmpty(title) && 2 <= |title.value| <= 100 && MaxLength(description, 500)
  {
  }

  /** The DataAnnotations on `UpdateCategoryDto`, which ASP.NET checks
      before the action: a title of 2 to 100 characters and a description
      of 10 to 1000, both required and not blank. */
  function UpdateAnnotationFailures(title: Option<string>, description: Option<string>): (r: seq<Failure>)
    ensures r == [] <==>
      Required(title, false) && LengthBetween(title, 2, 100)
      && Required(description, false) && LengthBetween(description, 10, 1000)
  {
    Check(Required(title, false), "Title", Some("Názov kategórie je povinný"))
    + Check(LengthBetween(title, 2, 100), "Title", Some("Názov musí mať medzi 2 a 100 znakmi"))
    + Check(Required(description, false), "Description", Some("Popis kategórie je povinný"))
    + Check(LengthBetween(description, 10, 1000), "Description", Some("Popis musí mať medzi 10 a 1000 znakmi"))
  }

  /** What an update request is refused with: the annotations' failures
      when there are any (the validator, attached to the whole object, is
      then not run), otherwise `UpdateCategoryDtoValidator`'s. */
  function UpdateRequestFailures(title: Option<string>, description: Option<string>): seq<Failure> {
    var a := UpdateAnnotationFailures(title, description);
    if a != [] then a else DtoFailures(title, description)
  }

  /** An update gets through exactly when the title has 2 to 100
      characters and the description 10 to 500, neither blank: the
      annotations' bounds and the validator's tighter cap together. */
  lemma UpdateRequestValidIff(title: Option<string>, description: Option<string>)
    ensures UpdateRequestFailures(title, description) == [] <==>
      && NotEmpty(title) && 2 <= |title.value| <= 100
      && NotEmpty(description) && 10 <= |description.value| <= 500
  {
    DtoValidIff(title, description);
  }

  /** The update refuses what the validator alone lets through: a missing
      description, or one shorter than ten characters. */
  lemma UpdateNeedsDescription(title: string, short: string)
    requires DtoFailures(Some(title), None) == [] && !IsNullOrWhiteSpace(Some(short)) && |short| < 10
    ensures UpdateRequestFailures(Some(title), None) != []
    ensures UpdateRequestFailures(Some(title), Some(short)) != []
  {
    UpdateRequestValidIff(Some(title), None);
    UpdateRequestValidIff(Some(title), Some(short));
  }

  /** A DTO the validator accepts may still make an entity the entity rules
      refuse: a missing description. */
  lemma DtoLooserThanEntity(title: string, titlePattern: string -> bool)
    requires DtoFailures(Some(title), None) == []
    ensures !EntityAcceptable(Category(0, Some(title), None), titlePattern)
  {
  }
}
