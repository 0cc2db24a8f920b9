/** The edit-book modal: the update schema, the optimistic reducer that
    shows the edited book while the update request is in flight, and the
    modal's state (form, field errors, the mutation's loading flag and the
    queued optimistic update). */
module EditBookModal {
  import opened Library
  import opened Rules
  import opened BookRules

  /** The form state; `genre` holds the select's string value. */
  datatype UpdateForm = UpdateForm(
    id: string,
    title: string,
    author: string,
    genre: string,
    isbn: string,
    description: string,
    copies: int,
    available: bool)

  /** The form before any book has been loaded into it. */
  const InitialForm: UpdateForm := UpdateForm("", "", "", GenreName(FICTION), "", "", 1, true)

  /** What a successful parse yields and the update request carries. */
  datatype UpdateRequest = UpdateRequest(
    id: string,
    title: string,
    author: string,
    genre: Genre,
    isbn: string,
    description: string,
    copies: int,
    available: bool)

  const IdChecks: seq<StringCheck<BookMessage>> := [MinLength(1, IdRequired)]

  const CopiesChecks: seq<NumberCheck<BookMessage>> := [AtLeast(0, CopiesNegative), CopiesCeiling]

  /** The update schema's fields in shape order. */
  const UpdateShape: seq<BookField> :=
    [IdField, TitleField, AuthorField, GenreField, IsbnField, DescriptionField, CopiesField]

  /** The messages each field of the update schema raises (`available`
      is a boolean with a default and raises nothing). */
  function FieldMessages(f: UpdateForm, p: BookField): seq<BookMessage>
  {
    match p
    case IdField => StringIssues(IdChecks, f.id)
    case TitleField => StringIssues(TitleChecks, f.title)
    case AuthorField => StringIssues(AuthorChecks, f.author)
    case GenreField => GenreIssues(f.genre)
    case IsbnField => StringIssues(IsbnChecks, f.isbn)
    case DescriptionField => StringIssues(DescriptionChecks, f.description)
    case CopiesField => NumberIssues(CopiesChecks, f.copies)
    case AvailableField => []
  }

  function MessagesOf(f: UpdateForm): BookField -> seq<BookMessage>
  {
    p => FieldMessages(f, p)
  }

  function UpdateReports(f: UpdateForm): seq<FieldReport<BookField, BookMessage>>
  {
    Tagged(UpdateShape, MessagesOf(f))
  }

  function UpdateIssues(f: UpdateForm): seq<Issue<BookField, BookMessage>>
  {
    Report(UpdateReports(f))
  }

  /** The update rules in words. */
  predicate UpdateAcceptable(f: UpdateForm)
  {
    && |f.id| >= 1
    && TitleOk(f.title)
    && AuthorOk(f.author)
    && GenreOk(f.genre)
    && IsbnOk(f.isbn)
    && DescriptionOk(f.description)
    && 0 <= f.copies <= 100
  }

  /** The form whose values are exactly those of a request. */
  function FormOf(r: UpdateRequest): UpdateForm
  {
    UpdateForm(r.id, r.title, r.author, GenreName(r.genre), r.isbn, r.description, r.copies, r.available)
  }

  /** `updateBookSchema.parse`: the validated value, which carries the
      form's own values, or every issue raised. */
  function ParseUpdate(f: UpdateForm): (p: Parsed<UpdateRequest, BookField, BookMessage>)
    ensures p.Valid? ==> FormOf(p.value) == f
    ensures p.Invalid? ==> p.issues == UpdateIssues(f) && p.issues != []
  {
    var issues := UpdateIssues(f);
    if issues != [] then Invalid(issues)
    else
      TaggedEmpty(UpdateShape, MessagesOf(f));
      assert GenreField in UpdateShape && MessagesOf(f)(GenreField) == GenreIssues(f.genre);
      Valid(UpdateRequest(f.id, f.title, f.author, ParseGenre(f.genre).value,
                          f.isbn, f.description, f.copies, f.available))
  }

  /** No field appears twice in the update schema. */
  lemma UpdateShapeDistinct()
    ensures Distinct(UpdateShape)
  {
    RankedDistinct(UpdateShape, Position);
  }

  /** Every field of the update schema raised nothing. */
  predicate FieldsClear(f: UpdateForm)
  {
    && StringIssues(IdChecks, f.id) == []
    && StringIssues(TitleChecks, f.title) == []
    && StringIssues(AuthorChecks, f.author) == []
    && GenreIssues(f.genre) == []
    && StringIssues(IsbnChecks, f.isbn) == []
    && StringIssues(DescriptionChecks, f.description) == []
    && NumberIssues(CopiesChecks, f.copies) == []
  }

  lemma UpdateIssuesClear(f: UpdateForm)
    ensures UpdateIssues(f) == [] <==> FieldsClear(f)
  {
    var m := MessagesOf(f);
    TaggedEmpty(UpdateShape, m);
    if FieldsClear(f) {
      forall p | p in UpdateShape ensures m(p) == [] {
      }
    } else {
      var p := FirstUnclear(f);
      assert p in UpdateShape && m(p) != [];
    }
  }

  /** A field that raised something, when some field did. */
  function FirstUnclear(f: UpdateForm): (p: BookField)
    requires !FieldsClear(f)
    ensures p != AvailableField && FieldMessages(f, p) != []
  {
    if StringIssues(IdChecks, f.id) != [] then IdField
    else if StringIssues(TitleChecks, f.title) != [] then TitleField
    else if StringIssues(AuthorChecks, f.author) != [] then AuthorField
    else if GenreIssues(f.genre) != [] then GenreField
    else if StringIssues(IsbnChecks, f.isbn) != [] then IsbnField
    else if StringIssues(DescriptionChecks, f.description) != [] then DescriptionField
    else CopiesField
  }

  lemma FieldsClearIffAcceptable(f: UpdateForm)
    ensures FieldsClear(f) <==> UpdateAcceptable(f)
  {
    TitleChecksAccept(f.title);
    AuthorChecksAccept(f.author);
    GenreIssuesAccept(f.genre);
    IsbnChecksAccept(f.isbn);
    DescriptionChecksAccept(f.description);
    assert StringIssues(IdChecks, f.id) == [] <==> |f.id| >= 1;
    assert NumberIssues(CopiesChecks, f.copies) == [] <==> 0 <= f.copies <= 100;
  }

  /** Whole-object validation accepts exactly the forms that meet every
      rule: id non-empty, title 2..200, author 2..100, a Genre value, isbn
      of 10..17 digits or hyphens, description 10..1000, copies 0..100. */
  lemma UpdateAcceptsExactly(f: UpdateForm)
    ensures ParseUpdate(f).Valid? <==> UpdateAcceptable(f)
  {
    UpdateIssuesClear(f);
    FieldsClearIffAcceptable(f);
  }

  /** Re-validating an already validated value gives it back unchanged. */
  lemma UpdateRoundTrip(r: UpdateRequest)
    requires UpdateAcceptable(FormOf(r))
    ensures ParseUpdate(FormOf(r)) == Valid(r)
  {
    UpdateAcceptsExactly(FormOf(r));
    ParseGenreName(r.genre);
  }

  /** Per-field and whole-object validation run the same table on a
      field: the messages the whole-object parse reports under the field's
      name are the ones the field's own schema raises. */
  lemma FieldAndObjectAgree(f: UpdateForm, c: FieldChange)
    ensures MessagesAt(UpdateIssues(Apply(f, c)), Key(c)) == ChangeIssues(c, CopiesChecks)
  {
    var g := Apply(f, c);
    ChangeWritesItsField(f, c);
    UpdateShapeDistinct();
    if c.AvailableToggle? {
      TaggedAbsent(UpdateShape, MessagesOf(g), Key(c));
    } else {
      TaggedAt(UpdateShape, MessagesOf(g), Key(c));
    }
  }

  /** After an edit, the messages of the edited field are those of the
      edit's own per-field validation. */
  lemma ChangeWritesItsField(f: UpdateForm, c: FieldChange)
    ensures FieldMessages(Apply(f, c), Key(c)) == ChangeIssues(c, CopiesChecks)
  {
  }

  /** After a failed submit the error map has a key exactly for the fields
      that broke a rule: an acceptable form that one edit makes fail
      yields an error for the edited field alone. */
  lemma SingleFieldFailure(f: UpdateForm, c: FieldChange)
    requires UpdateAcceptable(f) && ChangeIssues(c, CopiesChecks) != []
    ensures LastMessages(UpdateIssues(Apply(f, c))).Keys == {Key(c)}
  {
    var g := Apply(f, c);
    var errors := LastMessages(UpdateIssues(g));
    UpdateShapeDistinct();
    forall k ensures k in errors <==> k == Key(c) {
      EditLeavesOthersClear(f, c, k);
      LastMessagesKeepsLast(UpdateIssues(g), k);
      if k in UpdateShape {
        TaggedAt(UpdateShape, MessagesOf(g), k);
      } else {
        TaggedAbsent(UpdateShape, MessagesOf(g), k);
      }
    }
  }

  /** After one edit of an acceptable form only the edited field can
      raise anything. */
  lemma EditLeavesOthersClear(f: UpdateForm, c: FieldChange, k: BookField)
    requires UpdateAcceptable(f)
    ensures k != Key(c) ==> FieldMessages(Apply(f, c), k) == []
    ensures k == Key(c) ==> FieldMessages(Apply(f, c), k) == ChangeIssues(c, CopiesChecks)
  {
    FieldsClearIffAcceptable(f);
    ChangeWritesItsField(f, c);
  }

  /** What the form's markup lets through to the submit handler: the
      browser refuses to submit while a `required` text input is empty or
      the copies input is outside its `min`/`max` range. The genre select
      offers only genre values, the description carries no constraint and
      the id is not an input. */
  predicate MarkupAllows(f: UpdateForm)
  {
    f.title != "" && f.author != "" && f.isbn != "" && 0 <= f.copies <= 100
  }

  /** The markup never stops an acceptable form. */
  lemma MarkupAdmitsAcceptable(f: UpdateForm)
    ensures UpdateAcceptable(f) ==> MarkupAllows(f)
  {
  }

  /** A form the markup lets through raises at most one message per
      field, so the error map the submit handler builds shows, for each
      field, the first message as well as the last. */
  lemma SubmittedFieldsRaiseOne(f: UpdateForm, p: BookField)
    requires MarkupAllows(f)
    ensures |FieldMessages(f, p)| <= 1
    ensures p in LastMessages(UpdateIssues(f)) ==>
      |FieldMessages(f, p)| == 1 && LastMessages(UpdateIssues(f))[p] == FieldMessages(f, p)[0]
  {
    MarkupLeavesOne(f, p);
    UpdateShapeDistinct();
    TaggedSingle(UpdateShape, MessagesOf(f), p);
  }

  lemma MarkupLeavesOne(f: UpdateForm, p: BookField)
    requires MarkupAllows(f)
    ensures |FieldMessages(f, p)| <= 1
  {
    match p
    case TitleField => FilledTextRaisesOne(f.title);
    case AuthorField => FilledTextRaisesOne(f.author);
    case IsbnField => FilledTextRaisesOne(f.isbn);
    case DescriptionField => DescriptionRaisesOne(f.description);
    case CopiesField => assert NumberIssues(CopiesChecks, f.copies) == [];
    case _ =>
  }

  /** An edit made by an input: the value is stored under its field. */
  function Apply(f: UpdateForm, c: FieldChange): UpdateForm
  {
    match c
    case TitleInput(s) => f.(title := s)
    case AuthorInput(s) => f.(author := s)
    case GenreSelect(s) => f.(genre := s)
    case IsbnInput(s) => f.(isbn := s)
    case DescriptionInput(s) => f.(description := s)
    case CopiesInput(n) => f.(copies := n)
    case AvailableToggle(b) => f.(available := b)
  }

  /** The copies input: `parseInt(text) || 0`. */
  function CopiesFromText(text: string): (n: int)
    ensures JsNumbers.ParseInt(text).None? ==> n == 0
    ensures JsNumbers.ParseInt(text).Some? ==> n == JsNumbers.ParseInt(text).value
  {
    JsNumbers.ParseIntOr(text, 0)
  }

  /** The form loaded from a book, field for field. */
  function FormFromBook(b: Book): UpdateForm
  {
    UpdateForm(b.id, b.title, b.author, GenreName(b.genre), b.isbn, b.description, b.copies, b.available)
  }

  /** The optimistic reducer: the submitted values replace the book's
      editable fields and `updatedAt` is stamped; `id`, `createdAt` and
      everything else are kept, and no book stays no book. */
  function EditOverlay(current: Option<Book>, u: UpdateRequest, now: Instant): (r: Option<Book>)
    ensures current.None? ==> r.None?
    ensures current.Some? ==> r.Some?
    ensures current.Some? ==> FormFromBook(r.value) == FormOf(u).(id := current.value.id)
    ensures current.Some? ==> r.value.id == current.value.id && r.value.createdAt == current.value.createdAt
    ensures current.Some? ==> r.value.updatedAt == now
  {
    match current
    case None => None
    case Some(b) =>
      Some(b.(title := u.title, author := u.author, genre := u.genre, isbn := u.isbn,
              description := u.description, copies := u.copies, available := u.available,
              updatedAt := now))
  }

  /** Applying the same update twice shows the same book as applying it once. */
  lemma EditOverlayIdempotent(current: Option<Book>, u: UpdateRequest, now: Instant)
    ensures EditOverlay(EditOverlay(current, u, now), u, now) == EditOverlay(current, u, now)
  {
  }

  /** Submitting the form just loaded from a valid book validates to the
      book's own values, and the overlay then shows the same book with only
      `updatedAt` restamped. */
  lemma UnchangedSubmit(b: Book, now: Instant)
    requires UpdateAcceptable(FormFromBook(b))
    ensures ParseUpdate(FormFromBook(b)).Valid?
    ensures EditOverlay(Some(b), ParseUpdate(FormFromBook(b)).value, now) == Some(b.(updatedAt := now))
  {
    UpdateAcceptsExactly(FormFromBook(b));
    ParseGenreName(b.genre);
  }

  /** The optimistic update queued at submit time. */
  datatype Pending = Pending(update: UpdateRequest, at: Instant)

  class EditModal {
    var isOpen: bool
    var book: Option<Book>
    var form: UpdateForm
    var errors: map<BookField, BookMessage>
    var loading: bool
    var overlay: Option<Pending>

    /** The update request is in flight exactly while the optimistic
        update is queued. */
    ghost predicate Valid()
      reads this
    {
      loading <==> overlay.Some?
    }

    /** Mounting with a book loads it into the form. */
    constructor (isOpen: bool, book: Option<Book>)
      ensures Valid()
      ensures this.isOpen == isOpen && this.book == book
      ensures form == (if book.Some? then FormFromBook(book.value) else InitialForm)
      ensures errors == map[] && !loading && overlay.None?
    {
      this.isOpen := isOpen;
      this.book := book;
      form := if book.Some? then FormFromBook(book.value) else InitialForm;
      errors := map[];
      loading := false;
      overlay := None;
    }

    /** The book shown: the overlay while an update is queued, the
        confirmed book otherwise. */
    function Displayed(): Option<Book>
      reads this
    {
      match overlay
      case None => book
      case Some(p) => EditOverlay(book, p.update, p.at)
    }

    /** The "Updating book..." preview: a queued update on a present book. */
    predicate ShowsPreview()
      reads this
    {
      overlay.Some? && book.Some?
    }

    predicate SubmitDisabled()
      reads this
    {
      loading || AnyError(errors)
    }

    /** The parent passes a different book: a present book reloads the
        form field for field and clears every field error. */
    method BookChanged(b: Option<Book>)
      requires Valid()
      modifies this
      ensures Valid()
      ensures book == b
      ensures b.Some? ==> form == FormFromBook(b.value) && errors == map[]
      ensures b.None? ==> form == old(form) && errors == old(errors)
      ensures isOpen == old(isOpen) && loading == old(loading) && overlay == old(overlay)
    {
      book := b;
      if b.Some? {
        form := FormFromBook(b.value);
        errors := map[];
      }
    }

    /** The parent opens or closes the modal; closing clears the errors. */
    method OpenChanged(open: bool)
      requires Valid()
      modifies this
      ensures Valid()
      ensures isOpen == open
      ensures errors == if open then old(errors) else map[]
      ensures book == old(book) && form == old(form) && loading == old(loading) && overlay == old(overlay)
    {
      isOpen := open;
      if !open {
        errors := map[];
      }
    }

    /** An input changes: the value is stored, then only that field's
        error changes: it is cleared when the value passes and becomes its
        first failing message otherwise. This is the intended feedback; the
        handler as written leaves the error unchanged for a failing value
        (`FieldErrorAsWritten`). */
    method ChangeField(c: FieldChange)
      requires Valid()
      modifies this
      ensures Valid()
      ensures form == Apply(old(form), c)
      ensures errors == FieldError(old(errors), Key(c), ChangeIssues(c, CopiesChecks))
      ensures isOpen == old(isOpen) && book == old(book) && loading == old(loading) && overlay == old(overlay)
    {
      form := Apply(form, c);
      errors := FieldError(errors, Key(c), ChangeIssues(c, CopiesChecks));
    }

    /** Submit: without a book nothing happens. Otherwise the errors are
        cleared and the form is parsed; a failure fills the error map and
        sends nothing, a success queues the optimistic update and sends the
        validated request. The submit control is disabled while loading. */
    method Submit(now: Instant) returns (sent: Option<UpdateRequest>)
      requires Valid() && !loading
      modifies this
      ensures Valid()
      ensures old(book).None? ==> sent.None? && errors == old(errors) && overlay.None? && !loading
      ensures old(book).Some? && ParseUpdate(old(form)).Invalid? ==>
        sent.None? && errors == LastMessages(UpdateIssues(old(form))) && overlay.None? && !loading
        && SubmitDisabled()
      ensures old(book).Some? && ParseUpdate(old(form)).Valid? ==>
        && sent == Some(ParseUpdate(old(form)).value)
        && overlay == Some(Pending(sent.value, now)) && loading && errors == map[]
      ensures isOpen == old(isOpen) && book == old(book) && form == old(form)
    {
      sent := None;
      if book.None? {
        return;
      }
      errors := map[];
      var parsed := ParseUpdate(form);
      match parsed
      case Invalid(issues) =>
        errors := CollectFieldErrors(issues);
        LastMessagesShowError(issues);
      case Valid(update) =>
        overlay := Some(Pending(update, now));
        loading := true;
        sent := Some(update);
    }

    /** The update request settles: the overlay is discarded so the
        confirmed book shows again; success closes the modal, failure
        leaves it open with the form as it was. */
    method Settle(outcome: Outcome)
      requires Valid() && loading
      modifies this
      ensures Valid()
      ensures overlay.None? && !loading && Displayed() == book
      ensures isOpen == (old(isOpen) && outcome == Rejected)
      ensures book == old(book) && form == old(form) && errors == old(errors)
    {
      overlay := None;
      loading := false;
      if outcome == Resolved {
        isOpen := false;
      }
    }

    /** Close: ignored while loading; otherwise clears errors and closes. */
    method Close()
      requires Valid()
      modifies this
      ensures Valid()
      ensures old(loading) ==> isOpen == old(isOpen) && errors == old(errors)
      ensures !old(loading) ==> !isOpen && errors == map[]
      ensures book == old(book) && form == old(form) && loading == old(loading) && overlay == old(overlay)
    {
      if !loading {
        errors := map[];
        isOpen := false;
      }
    }
  }

  /** While an update is pending the modal shows the "Updating book..."
      preview of the submitted values on the confirmed book; once it
      settles it shows the confirmed book. */
  method SubmitThenSettle(m: EditModal, now: Instant, outcome: Outcome)
    returns (inFlight: Option<Book>, preview: bool)
    requires m.Valid() && !m.loading && m.book.Some? && ParseUpdate(m.form).Valid?
    modifies m
    ensures preview
    ensures inFlight == EditOverlay(old(m.book), ParseUpdate(old(m.form)).value, now)
    ensures m.Displayed() == old(m.book)
  {
    var sent := m.Submit(now);
    inFlight := m.Displayed();
    preview := m.ShowsPreview();
    m.Settle(outcome);
  }
}
