/** The add-book modal: the create schema, the copies input's fallback,
    and the modal's state (form, field errors and the create mutation's
    loading flag). */
module AddBookModal {
  import opened Library
  import opened Rules
  import opened BookRules
  import JsNumbers
  import EditBookModal

  /** The form state; `genre` holds the select's string value. */
  datatype CreateForm = CreateForm(
    title: string,
    author: string,
    genre: string,
    isbn: string,
    description: string,
    copies: int,
    available: bool)

  /** The form on mount and after every reset. */
  const DefaultForm: CreateForm := CreateForm("", "", GenreName(FICTION), "", "", 1, true)

  /** What a successful parse yields and the create request carries. */
  datatype CreateRequest = CreateRequest(
    title: string,
    author: string,
    genre: Genre,
    isbn: string,
    description: string,
    copies: int,
    available: bool)

  const CopiesChecks: seq<NumberCheck<BookMessage>> := [AtLeast(1, CopiesMissing), CopiesCeiling]

  /** The create schema's fields in shape order. */
  const CreateShape: seq<BookField> :=
    [TitleField, AuthorField, GenreField, IsbnField, DescriptionField, CopiesField]

  /** The messages each field of the create schema raises (`available`
      is a boolean with a default and raises nothing; there is no id). */
  function FieldMessages(f: CreateForm, p: BookField): seq<BookMessage>
  {
    match p
    case IdField => []
    case TitleField => StringIssues(TitleChecks, f.title)
    case AuthorField => StringIssues(AuthorChecks, f.author)
    case GenreField => GenreIssues(f.genre)
    case IsbnField => StringIssues(IsbnChecks, f.isbn)
    case DescriptionField => StringIssues(DescriptionChecks, f.description)
    case CopiesField => NumberIssues(CopiesChecks, f.copies)
    case AvailableField => []
  }

  function MessagesOf(f: CreateForm): BookField -> seq<BookMessage>
  {
    p => FieldMessages(f, p)
  }

  function CreateReports(f: CreateForm): seq<FieldReport<BookField, BookMessage>>
  {
    Tagged(CreateShape, MessagesOf(f))
  }

  function CreateIssues(f: CreateForm): seq<Issue<BookField, BookMessage>>
  {
    Report(CreateReports(f))
  }

  /** The create rules in words. */
  predicate CreateAcceptable(f: CreateForm)
  {
    && TitleOk(f.title)
    && AuthorOk(f.author)
    && GenreOk(f.genre)
    && IsbnOk(f.isbn)
    && DescriptionOk(f.description)
    && 1 <= f.copies <= 100
  }

  /** The form whose values are exactly those of a request. */
  function FormOf(r: CreateRequest): CreateForm
  {
    CreateForm(r.title, r.author, GenreName(r.genre), r.isbn, r.description, r.copies, r.available)
  }

  /** `createBookSchema.parse`: the validated value, which carries the
      form's own values, or every issue raised. */
  function ParseCreate(f: CreateForm): (p: Parsed<CreateRequest, BookField, BookMessage>)
    ensures p.Valid? ==> FormOf(p.value) == f
    ensures p.Invalid? ==> p.issues == CreateIssues(f) && p.issues != []
  {
    var issues := CreateIssues(f);
    if issues != [] then Invalid(issues)
    else
      TaggedEmpty(CreateShape, MessagesOf(f));
      assert GenreField in CreateShape && MessagesOf(f)(GenreField) == GenreIssues(f.genre);
      Valid(CreateRequest(f.title, f.author, ParseGenre(f.genre).value,
                          f.isbn, f.description, f.copies, f.available))
  }

  /** No field appears twice in the create schema. */
  lemma CreateShapeDistinct()
    ensures Distinct(CreateShape)
  {
    RankedDistinct(CreateShape, p => Position(p) - 1);
  }

  /** Every field of the create schema raised nothing. */
  predicate FieldsClear(f: CreateForm)
  {
    && StringIssues(TitleChecks, f.title) == []
    && StringIssues(AuthorChecks, f.author) == []
    && GenreIssues(f.genre) == []
    && StringIssues(IsbnChecks, f.isbn) == []
    && StringIssues(DescriptionChecks, f.description) == []
    && NumberIssues(CopiesChecks, f.copies) == []
  }

  lemma CreateIssuesClear(f: CreateForm)
    ensures CreateIssues(f) == [] <==> FieldsClear(f)
  {
    var m := MessagesOf(f);
    TaggedEmpty(CreateShape, m);
    if FieldsClear(f) {
      forall p | p in CreateShape ensures m(p) == [] {
      }
    } else {
      var p := FirstUnclear(f);
      assert p in CreateShape && m(p) != [];
    }
  }

  /** A field that raised something, when some field did. */
  function FirstUnclear(f: CreateForm): (p: BookField)
    requires !FieldsClear(f)
    ensures p in CreateShape && FieldMessages(f, p) != []
  {
    if StringIssues(TitleChecks, f.title) != [] then TitleField
    else if StringIssues(AuthorChecks, f.author) != [] then AuthorField
    else if GenreIssues(f.genre) != [] then GenreField
    else if StringIssues(IsbnChecks, f.isbn) != [] then IsbnField
    else if StringIssues(DescriptionChecks, f.description) != [] then DescriptionField
    else CopiesField
  }

  lemma FieldsClearIffAcceptable(f: CreateForm)
    ensures FieldsClear(f) <==> CreateAcceptable(f)
  {
    TitleChecksAccept(f.title);
    AuthorChecksAccept(f.author);
    GenreIssuesAccept(f.genre);
    IsbnChecksAccept(f.isbn);
    DescriptionChecksAccept(f.description);
    assert NumberIssues(CopiesChecks, f.copies) == [] <==> 1 <= f.copies <= 100;
  }

  /** Whole-object validation accepts exactly the forms that meet every
      rule: title 2..200, author 2..100, a Genre value, isbn of 10..17
      digits or hyphens, description 10..1000, copies 1..100. */
  lemma CreateAcceptsExactly(f: CreateForm)
    ensures ParseCreate(f).Valid? <==> CreateAcceptable(f)
  {
    CreateIssuesClear(f);
    FieldsClearIffAcceptable(f);
  }

  /** Re-validating an already validated value gives it back unchanged. */
  lemma CreateRoundTrip(r: CreateRequest)
    requires CreateAcceptable(FormOf(r))
    ensures ParseCreate(FormOf(r)) == Valid(r)
  {
    CreateAcceptsExactly(FormOf(r));
    ParseGenreName(r.genre);
  }

  /** The create and update schemas share every rule except that create
      has no id and asks for at least one copy where update allows none. */
  lemma CreateIsUpdateWithoutIdAndWithACopy(f: CreateForm, id: string)
    requires |id| >= 1
    ensures CreateAcceptable(f) <==>
      EditBookModal.UpdateAcceptable(EditBookModal.UpdateForm(
        id, f.title, f.author, f.genre, f.isbn, f.description, f.copies, f.available)) && f.copies != 0
  {
  }

  /** Under the schema alone the default form is rejected (title, author,
      isbn and description are empty) and the error map names exactly
      those four fields. In the page the browser stops that submit first:
      see `MarkupAdmitsAcceptable`. */
  lemma DefaultFormRejected()
    ensures ParseCreate(DefaultForm).Invalid?
    ensures LastMessages(CreateIssues(DefaultForm)).Keys == {TitleField, AuthorField, IsbnField, DescriptionField}
  {
    var m := MessagesOf(DefaultForm);
    CreateShapeDistinct();
    TaggedKeys(CreateShape, m);
    DefaultFieldMessages();
    RaisedFields(DefaultForm);
  }

  /** A form whose title, author, isbn and description fail while genre
      and copies pass raises on exactly those four fields. */
  lemma RaisedFields(f: CreateForm)
    requires FieldMessages(f, TitleField) != [] && FieldMessages(f, AuthorField) != []
    requires FieldMessages(f, GenreField) == [] && FieldMessages(f, IsbnField) != []
    requires FieldMessages(f, DescriptionField) != [] && FieldMessages(f, CopiesField) == []
    ensures (set p | p in CreateShape && MessagesOf(f)(p) != [])
      == {TitleField, AuthorField, IsbnField, DescriptionField}
  {
    var m := MessagesOf(f);
    var raised := {TitleField, AuthorField, IsbnField, DescriptionField};
    forall p | p in CreateShape && m(p) != [] ensures p in raised {
      assert p != GenreField && p != CopiesField;
    }
    forall p | p in raised ensures p in CreateShape && m(p) != [] {
    }
  }

  /** Which fields of the default form raise something. */
  lemma DefaultFieldMessages()
    ensures FieldMessages(DefaultForm, TitleField) != []
    ensures FieldMessages(DefaultForm, AuthorField) != []
    ensures FieldMessages(DefaultForm, GenreField) == []
    ensures FieldMessages(DefaultForm, IsbnField) != []
    ensures FieldMessages(DefaultForm, DescriptionField) != []
    ensures FieldMessages(DefaultForm, CopiesField) == []
  {
    TitleChecksAccept("");
    AuthorChecksAccept("");
    IsbnChecksAccept("");
    DescriptionChecksAccept("");
    GenreIssuesAccept(GenreName(FICTION));
    assert NumberIssues(CopiesChecks, 1) == [];
  }

  /** An empty title gets different words from the two paths: typing it
      shows nothing as written and the first message as intended, while
      the schema alone, on submit, leaves the last message in the error
      map. The title input is `required`, so in the page that submit is
      stopped by the browser (`SubmittedFieldsRaiseOne`). */
  lemma EmptyTitleFirstAndLast(f: CreateForm, errors: map<BookField, BookMessage>)
    requires f.title == ""
    ensures FieldErrorAsWritten(errors, TitleField, ChangeIssues(TitleInput(""), CopiesChecks)) == errors
    ensures FieldError(errors, TitleField, ChangeIssues(TitleInput(""), CopiesChecks))[TitleField] == TitleRequired
    ensures TitleField in LastMessages(CreateIssues(f))
    ensures LastMessages(CreateIssues(f))[TitleField] == TitleTooShort
  {
    EmptyTitleMessages();
    CreateShapeDistinct();
    assert TitleField in CreateShape && MessagesOf(f)(TitleField) == [TitleRequired, TitleTooShort];
    TaggedLast(CreateShape, MessagesOf(f), TitleField);
  }

  /** What the form's markup lets through to the submit handler: the
      browser refuses to submit while a `required` text input is empty or
      the copies input is outside its `min`/`max` range. The genre select
      offers only genre values, and the description carries no constraint. */
  predicate MarkupAllows(f: CreateForm)
  {
    f.title != "" && f.author != "" && f.isbn != "" && 1 <= f.copies <= 100
  }

  /** The markup never stops an acceptable form, and it does stop the
      default form, whose title, author and isbn are empty. */
  lemma MarkupAdmitsAcceptable(f: CreateForm)
    ensures CreateAcceptable(f) ==> MarkupAllows(f)
    ensures !MarkupAllows(DefaultForm)
  {
  }

  /** A form the markup lets through raises at most one message per
      field, so the error map the submit handler builds shows, for each
      field, the first message as well as the last. */
  lemma SubmittedFieldsRaiseOne(f: CreateForm, p: BookField)
    requires MarkupAllows(f)
    ensures |FieldMessages(f, p)| <= 1
    ensures p in LastMessages(CreateIssues(f)) ==>
      |FieldMessages(f, p)| == 1 && LastMessages(CreateIssues(f))[p] == FieldMessages(f, p)[0]
  {
    MarkupLeavesOne(f, p);
    CreateShapeDistinct();
    TaggedSingle(CreateShape, MessagesOf(f), p);
  }

  lemma MarkupLeavesOne(f: CreateForm, p: BookField)
    requires MarkupAllows(f)
    ensures |FieldMessages(f, p)| <= 1
  {
    match p
    case TitleField => FilledTextRaisesOne(f.title);
    case AuthorField => FilledTextRaisesOne(f.author);
    case IsbnField => FilledTextRaisesOne(f.isbn);
    case DescriptionField => DescriptionRaisesOne(f.description);
    case CopiesField => assert NumberIssues(CopiesChecks, f.copies) == [];
    case _ =>
  }

  /** The description is labelled without a star and its placeholder says
      "optional", and the markup lets an empty one through; the schema
      then rejects the form and the error map names the description alone. */
  lemma EmptyDescriptionReachesSchema(f: CreateForm)
    requires CreateAcceptable(f)
    ensures MarkupAllows(f.(description := ""))
    ensures ParseCreate(f.(description := "")).Invalid?
    ensures LastMessages(CreateIssues(f.(description := ""))) == map[DescriptionField := DescriptionTooShort]
  {
    var g := f.(description := "");
    var m := MessagesOf(g);
    var errors := LastMessages(CreateIssues(g));
    CreateShapeDistinct();
    forall k ensures k in errors <==> k == DescriptionField {
      OnlyDescriptionRaises(f, k);
      LastMessagesKeepsLast(CreateIssues(g), k);
      if k in CreateShape {
        TaggedAt(CreateShape, m, k);
      } else {
        TaggedAbsent(CreateShape, m, k);
      }
    }
    OnlyDescriptionRaises(f, DescriptionField);
    TaggedLast(CreateShape, m, DescriptionField);
  }

  lemma OnlyDescriptionRaises(f: CreateForm, p: BookField)
    requires CreateAcceptable(f)
    ensures FieldMessages(f.(description := ""), p) == if p == DescriptionField then [DescriptionTooShort] else []
  {
    FieldsClearIffAcceptable(f);
  }

  /** Per-field and whole-object validation run the same table on a
      field: the messages the whole-object parse reports under the field's
      name are the ones the field's own schema raises. */
  lemma FieldAndObjectAgree(f: CreateForm, c: FieldChange)
    ensures MessagesAt(CreateIssues(Apply(f, c)), Key(c)) == ChangeIssues(c, CopiesChecks)
  {
    var g := Apply(f, c);
    ChangeWritesItsField(f, c);
    CreateShapeDistinct();
    if c.AvailableToggle? {
      TaggedAbsent(CreateShape, MessagesOf(g), Key(c));
    } else {
      TaggedAt(CreateShape, MessagesOf(g), Key(c));
    }
  }

  /** After an edit, the messages of the edited field are those of the
      edit's own per-field validation. */
  lemma ChangeWritesItsField(f: CreateForm, c: FieldChange)
    ensures FieldMessages(Apply(f, c), Key(c)) == ChangeIssues(c, CopiesChecks)
  {
  }

  /** An edit made by an input: the value is stored under its field. */
  function Apply(f: CreateForm, c: FieldChange): CreateForm
  {
    match c
    case TitleInput(s) => f.(title := s)
    case AuthorInput(s) => f.(author := s)
    case GenreSelect(s) => f.(genre := s)
    case IsbnInput(s) => f.(isbn := s)
    case DescriptionInput(s) => f.(description := s)
    case CopiesInput(n) => f.(copies := n)
    case AvailableToggle(b) => f.(available := b)
  }

  /** The copies input: `parseInt(text) || 1`; a cleared or zero entry
      becomes 1, so the input never stores 0. */
  function CopiesFromText(text: string): (n: int)
    ensures n != 0
    ensures JsNumbers.ParseInt(text).None? ==> n == 1
    ensures JsNumbers.ParseInt(text) == Some(0) ==> n == 1
    ensures JsNumbers.ParseInt(text).Some? && JsNumbers.ParseInt(text).value != 0 ==> n == JsNumbers.ParseInt(text).value
  {
    JsNumbers.ParseIntOr(text, 1)
  }

  class AddModal {
    var isOpen: bool
    var form: CreateForm
    var errors: map<BookField, BookMessage>
    var loading: bool

    constructor (isOpen: bool)
      ensures this.isOpen == isOpen && form == DefaultForm && errors == map[] && !loading
    {
      this.isOpen := isOpen;
      form := DefaultForm;
      errors := map[];
      loading := false;
    }

    predicate SubmitDisabled()
      reads this
    {
      loading || AnyError(errors)
    }

    /** An input changes: the value is stored, then only that field's
        error changes: it is cleared when the value passes and becomes its
        first failing message otherwise. This is the intended feedback; the
        handler as written leaves the error unchanged for a failing value
        (`FieldErrorAsWritten`). */
    method ChangeField(c: FieldChange)
      modifies this
      ensures form == Apply(old(form), c)
      ensures errors == FieldError(old(errors), Key(c), ChangeIssues(c, CopiesChecks))
      ensures isOpen == old(isOpen) && loading == old(loading)
    {
      form := Apply(form, c);
      errors := FieldError(errors, Key(c), ChangeIssues(c, CopiesChecks));
    }

    /** Submit: the errors are cleared and the form is parsed; a failure
        fills the error map and sends nothing, a success sends the
        validated request and starts loading. The submit control is
        disabled while loading. */
    method Submit() returns (sent: Option<CreateRequest>)
      requires !loading
      modifies this
      ensures ParseCreate(old(form)).Invalid? ==>
        sent.None? && errors == LastMessages(CreateIssues(old(form))) && !loading && SubmitDisabled()
      ensures ParseCreate(old(form)).Valid? ==>
        sent == Some(ParseCreate(old(form)).value) && errors == map[] && loading
      ensures isOpen == old(isOpen) && form == old(form)
    {
      sent := None;
      errors := map[];
      var parsed := ParseCreate(form);
      match parsed
      case Invalid(issues) =>
        errors := CollectFieldErrors(issues);
        LastMessagesShowError(issues);
      case Valid(request) =>
        loading := true;
        sent := Some(request);
    }

    /** The create request settles: success resets the form and closes
        the modal, failure leaves the form and the modal as they were. */
    method Settle(outcome: Outcome)
      requires loading
      modifies this
      ensures !loading
      ensures outcome == Resolved ==> form == DefaultForm && !isOpen
      ensures outcome == Rejected ==> form == old(form) && isOpen == old(isOpen)
      ensures errors == old(errors)
    {
      loading := false;
      if outcome == Resolved {
        form := DefaultForm;
        isOpen := false;
      }
    }

    /** Close: ignored while loading; otherwise resets the form, clears
        the errors and closes. */
    method Close()
      modifies this
      ensures old(loading) ==> isOpen == old(isOpen) && form == old(form) && errors == old(errors)
      ensures !old(loading) ==> !isOpen && form == DefaultForm && errors == map[]
      ensures loading == old(loading)
    {
      if !loading {
        form := DefaultForm;
        errors := map[];
        isOpen := false;
      }
    }
  }

  /** A successful add leaves the modal closed with the default form, so
      reopening it starts from scratch. */
  method AddThenReopen(m: AddModal) returns (sent: Option<CreateRequest>)
    requires !m.loading && CreateAcceptable(m.form)
    modifies m
    ensures sent.Some? && FormOf(sent.value) == old(m.form)
    ensures !m.isOpen && m.form == DefaultForm && !m.loading && !m.SubmitDisabled()
  {
    CreateAcceptsExactly(m.form);
    sent := m.Submit();
    m.Settle(Resolved);
  }
}
