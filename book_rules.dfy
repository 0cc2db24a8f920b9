/** The field rules the create and update schemas share (title, author,
    genre, isbn, description), the copies ceiling, and the edits the form
    inputs make: each input writes one field with a value of that field's
    own kind. */
module BookRules {
  import opened Library
  import opened Rules

  /** The messages of the create and update schemas. */
  datatype BookMessage =
    | IdRequired
    | TitleRequired | TitleTooShort | TitleTooLong
    | AuthorRequired | AuthorTooShort | AuthorTooLong
    | IsbnRequired | IsbnMalformed
    | DescriptionTooShort | DescriptionTooLong
    | GenreInvalid
    | CopiesNegative | CopiesMissing | CopiesTooMany

  /** The words each message shows. */
  function Text(m: BookMessage): string
  {
    match m
    case IdRequired => "Book ID is required"
    case TitleRequired => "Title is required"
    case TitleTooShort => "Title must be at least 2 characters"
    case TitleTooLong => "Title must be less than 200 characters"
    case AuthorRequired => "Author is required"
    case AuthorTooShort => "Author must be at least 2 characters"
    case AuthorTooLong => "Author must be less than 100 characters"
    case IsbnRequired => "ISBN is required"
    case IsbnMalformed => "ISBN must be 10-17 digits with optional hyphens"
    case DescriptionTooShort => "Description must be at least 10 characters"
    case DescriptionTooLong => "Description must be less than 1000 characters"
    case GenreInvalid => "Please select a valid genre"
    case CopiesNegative => "Copies cannot be negative"
    case CopiesMissing => "At least 1 copy is required"
    case CopiesTooMany => "Maximum 100 copies allowed"
  }

  const TitleChecks: seq<StringCheck<BookMessage>> :=
    [MinLength(1, TitleRequired), MinLength(2, TitleTooShort), MaxLength(200, TitleTooLong)]

  const AuthorChecks: seq<StringCheck<BookMessage>> :=
    [MinLength(1, AuthorRequired), MinLength(2, AuthorTooShort), MaxLength(100, AuthorTooLong)]

  const IsbnChecks: seq<StringCheck<BookMessage>> :=
    [MinLength(1, IsbnRequired), IsbnPattern(IsbnMalformed)]

  const DescriptionChecks: seq<StringCheck<BookMessage>> :=
    [MinLength(10, DescriptionTooShort), MaxLength(1000, DescriptionTooLong)]

  const CopiesCeiling: NumberCheck<BookMessage> := AtMost(100, CopiesTooMany)

  /** The genre enumeration reports one message, whatever went wrong. */
  function GenreIssues(genre: string): (r: seq<BookMessage>)
    ensures r == [] <==> ParseGenre(genre).Some?
    ensures r != [] ==> r == [GenreInvalid]
  {
    if ParseGenre(genre).Some? then [] else [GenreInvalid]
  }

  /** The rules in words, as each table enforces them. */
  predicate TitleOk(s: string) { 2 <= |s| <= 200 }
  predicate AuthorOk(s: string) { 2 <= |s| <= 100 }
  predicate GenreOk(s: string) { exists g: Genre :: GenreName(g) == s }
  predicate IsbnOk(s: string) { IsbnShaped(s) }
  predicate DescriptionOk(s: string) { 10 <= |s| <= 1000 }

  lemma TitleChecksAccept(s: string)
    ensures StringIssues(TitleChecks, s) == [] <==> TitleOk(s)
  {
    assert StringPasses(TitleChecks[1], s) <==> |s| >= 2;
    assert StringPasses(TitleChecks[2], s) <==> |s| <= 200;
  }

  lemma AuthorChecksAccept(s: string)
    ensures StringIssues(AuthorChecks, s) == [] <==> AuthorOk(s)
  {
    assert StringPasses(AuthorChecks[1], s) <==> |s| >= 2;
    assert StringPasses(AuthorChecks[2], s) <==> |s| <= 100;
  }

  lemma IsbnChecksAccept(s: string)
    ensures StringIssues(IsbnChecks, s) == [] <==> IsbnOk(s)
  {
    assert StringPasses(IsbnChecks[1], s) <==> IsbnShaped(s);
  }

  lemma DescriptionChecksAccept(s: string)
    ensures StringIssues(DescriptionChecks, s) == [] <==> DescriptionOk(s)
  {
    assert StringPasses(DescriptionChecks[0], s) <==> |s| >= 10;
    assert StringPasses(DescriptionChecks[1], s) <==> |s| <= 1000;
  }

  /** A text that is not empty raises at most one message under the
      title, author and isbn tables: the "required" check passes, and the
      remaining bounds cannot fail together. */
  lemma FilledTextRaisesOne(s: string)
    requires s != ""
    ensures |StringIssues(TitleChecks, s)| <= 1
    ensures |StringIssues(AuthorChecks, s)| <= 1
    ensures |StringIssues(IsbnChecks, s)| <= 1
  {
    assert StringIssues(TitleChecks, s) == StringIssues(TitleChecks[1..], s);
    assert StringIssues(AuthorChecks, s) == StringIssues(AuthorChecks[1..], s);
    assert StringIssues(IsbnChecks, s) == StringIssues(IsbnChecks[1..], s);
  }

  /** The description's two bounds never fail together. */
  lemma DescriptionRaisesOne(s: string)
    ensures |StringIssues(DescriptionChecks, s)| <= 1
  {
    assert StringIssues(DescriptionChecks[1..], s) == StringIssues(DescriptionChecks[1..2], s);
  }

  lemma GenreIssuesAccept(s: string)
    ensures GenreIssues(s) == [] <==> GenreOk(s)
  {
    if GenreOk(s) {
      var g: Genre :| GenreName(g) == s;
      ParseGenreName(g);
    }
  }

  /** The fields of the book forms; they key the error maps. */
  datatype BookField =
    | IdField | TitleField | AuthorField | GenreField | IsbnField
    | DescriptionField | CopiesField | AvailableField

  /** The name each field has in the form data and the error map. */
  function Name(f: BookField): string
  {
    match f
    case IdField => "id"
    case TitleField => "title"
    case AuthorField => "author"
    case GenreField => "genre"
    case IsbnField => "isbn"
    case DescriptionField => "description"
    case CopiesField => "copies"
    case AvailableField => "available"
  }

  /** Where a field sits in the update schema's shape. */
  function Position(f: BookField): int
  {
    match f
    case IdField => 0
    case TitleField => 1
    case AuthorField => 2
    case GenreField => 3
    case IsbnField => 4
    case DescriptionField => 5
    case CopiesField => 6
    case AvailableField => 7
  }

  /** One edit made by a form input. */
  datatype FieldChange =
    | TitleInput(text: string)
    | AuthorInput(text: string)
    | GenreSelect(choice: string)
    | IsbnInput(text: string)
    | DescriptionInput(text: string)
    | CopiesInput(count: int)
    | AvailableToggle(checked: bool)

  /** The field an edit writes. */
  function Key(c: FieldChange): BookField
  {
    match c
    case TitleInput(_) => TitleField
    case AuthorInput(_) => AuthorField
    case GenreSelect(_) => GenreField
    case IsbnInput(_) => IsbnField
    case DescriptionInput(_) => DescriptionField
    case CopiesInput(_) => CopiesField
    case AvailableToggle(_) => AvailableField
  }

  /** Per-field validation: the new value against its field's table alone
      (`available` is a boolean with a default and raises nothing). */
  function ChangeIssues(c: FieldChange, copiesChecks: seq<NumberCheck<BookMessage>>): seq<BookMessage>
  {
    match c
    case TitleInput(s) => StringIssues(TitleChecks, s)
    case AuthorInput(s) => StringIssues(AuthorChecks, s)
    case GenreSelect(s) => GenreIssues(s)
    case IsbnInput(s) => StringIssues(IsbnChecks, s)
    case DescriptionInput(s) => StringIssues(DescriptionChecks, s)
    case CopiesInput(n) => NumberIssues(copiesChecks, n)
    case AvailableToggle(_) => []
  }

  /** An empty title raises two messages: per-field feedback would show
      the first, the submit-time map keeps the second. */
  lemma EmptyTitleMessages()
    ensures StringIssues(TitleChecks, "") == [TitleRequired, TitleTooShort]
  {
    assert StringPasses(TitleChecks[2], "");
    assert StringIssues(TitleChecks[2..], "") == [];
  }

  /** As written, typing an invalid title into a form with no errors
      shows nothing: the error map stays empty, so the submit control stays
      enabled. */
  lemma AsWrittenFieldFeedbackHidesError()
    ensures FieldErrorAsWritten(map[], TitleField, StringIssues(TitleChecks, "")) == map[]
    ensures !AnyError(FieldErrorAsWritten(map[], TitleField, StringIssues(TitleChecks, "")))
  {
    EmptyTitleMessages();
  }

  /** As intended, the same edit shows the first failing message. */
  lemma FieldFeedbackShowsFirstError()
    ensures FieldError(map[], TitleField, StringIssues(TitleChecks, "")) == map[TitleField := TitleRequired]
    ensures AnyError(FieldError(map[], TitleField, StringIssues(TitleChecks, "")))
  {
    EmptyTitleMessages();
  }
}
