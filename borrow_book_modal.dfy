/** The borrow modal: the borrow schema (quantity and due date), the
    optimistic reducer that shows the copies left while the borrow request
    is in flight, the default and minimum due dates, the success message,
    and the modal's state. Dates are whole days counted from a fixed
    origin; `today` is the day the browser clock reads. */
module BorrowBookModal {
  import opened Library
  import opened Rules
  import JsNumbers

  /** The date input's value: empty, or a calendar day. */
  datatype DueDate = Blank | OnDay(day: int)

  datatype BorrowForm = BorrowForm(quantity: int, dueDate: DueDate)

  /** The form on mount, after a successful borrow and after closing. */
  const BlankForm: BorrowForm := BorrowForm(1, Blank)

  /** What a successful parse yields. */
  datatype BorrowData = BorrowData(quantity: int, dueDay: int)

  /** The borrow request: the book's id, the quantity and the due day. */
  datatype BorrowRequest = BorrowRequest(book: string, quantity: int, dueDay: int)

  /** The messages of the borrow schema. */
  datatype BorrowMessage = QuantityMissing | QuantityTooMany | DueDateRequired | DueDateTooEarly

  /** The words each message shows. */
  function Text(m: BorrowMessage): string
  {
    match m
    case QuantityMissing => "At least 1 copy must be borrowed"
    case QuantityTooMany => "Maximum 10 copies can be borrowed at once"
    case DueDateRequired => "Due date is required"
    case DueDateTooEarly => "Due date must be at least tomorrow"
  }

  const QuantityChecks: seq<NumberCheck<BorrowMessage>> := [AtLeast(1, QuantityMissing), AtMost(10, QuantityTooMany)]

  /** The first day the due date may fall on, and the date input's `min`. */
  function MinDate(today: int): (d: int)
    ensures d > today
  {
    today + 1
  }

  /** The due date the modal proposes when it opens: two weeks ahead,
      so past the input's minimum. */
  function DefaultDueDate(today: int): (d: int)
    ensures d > MinDate(today)
  {
    today + 14
  }

  /** The due date's checks: non-empty, then the refinement, which runs
      even on an empty value; an empty value is no date, which compares
      false with tomorrow's midnight. */
  function DueDateIssues(d: DueDate, today: int): (r: seq<BorrowMessage>)
    ensures r == [] <==> d.OnDay? && d.day >= MinDate(today)
    ensures d.Blank? ==> r == [DueDateRequired, DueDateTooEarly]
    ensures d.OnDay? && d.day < MinDate(today) ==> r == [DueDateTooEarly]
  {
    (if d.Blank? then [DueDateRequired] else [])
    + (if d.OnDay? && d.day >= MinDate(today) then [] else [DueDateTooEarly])
  }

  /** The fields of the borrow form; they key its error map. */
  datatype BorrowField = QuantityField | DueDateField

  /** The borrow schema's fields in shape order. */
  const BorrowShape: seq<BorrowField> := [QuantityField, DueDateField]

  /** The messages each field of the borrow schema raises. */
  function FieldMessages(f: BorrowForm, today: int, p: BorrowField): seq<BorrowMessage>
  {
    match p
    case QuantityField => NumberIssues(QuantityChecks, f.quantity)
    case DueDateField => DueDateIssues(f.dueDate, today)
  }

  function MessagesOf(f: BorrowForm, today: int): BorrowField -> seq<BorrowMessage>
  {
    p => FieldMessages(f, today, p)
  }

  function BorrowIssues(f: BorrowForm, today: int): seq<Issue<BorrowField, BorrowMessage>>
  {
    Report(Tagged(BorrowShape, MessagesOf(f, today)))
  }

  /** No field appears twice in the borrow schema. */
  lemma BorrowShapeDistinct()
    ensures Distinct(BorrowShape)
  {
  }

  /** The borrow rules in words: 1..10 copies, due tomorrow or later. The
      number of copies the book has plays no part. */
  predicate BorrowAcceptable(f: BorrowForm, today: int)
  {
    1 <= f.quantity <= 10 && f.dueDate.OnDay? && f.dueDate.day >= MinDate(today)
  }

  /** `borrowSchema.parse`: the validated value, which carries the form's
      own values, or every issue raised. */
  function ParseBorrow(f: BorrowForm, today: int): (p: Parsed<BorrowData, BorrowField, BorrowMessage>)
    ensures p.Valid? ==> f == BorrowForm(p.value.quantity, OnDay(p.value.dueDay))
    ensures p.Invalid? ==> p.issues == BorrowIssues(f, today) && p.issues != []
  {
    var issues := BorrowIssues(f, today);
    if issues != [] then Invalid(issues)
    else
      TaggedEmpty(BorrowShape, MessagesOf(f, today));
      assert DueDateField in BorrowShape && MessagesOf(f, today)(DueDateField) == DueDateIssues(f.dueDate, today);
      Valid(BorrowData(f.quantity, f.dueDate.day))
  }

  lemma BorrowAcceptsExactly(f: BorrowForm, today: int)
    ensures ParseBorrow(f, today).Valid? <==> BorrowAcceptable(f, today)
  {
    var m := MessagesOf(f, today);
    TaggedEmpty(BorrowShape, m);
    assert NumberIssues(QuantityChecks, f.quantity) == [] <==> 1 <= f.quantity <= 10;
    assert QuantityField in BorrowShape && DueDateField in BorrowShape;
  }

  /** Today is refused, tomorrow accepted, and an empty date reports both
      of its messages. */
  lemma DueDateBoundary(today: int)
    ensures DueDateIssues(OnDay(today), today) == [DueDateTooEarly]
    ensures DueDateIssues(OnDay(today + 1), today) == []
    ensures DueDateIssues(Blank, today) == [DueDateRequired, DueDateTooEarly]
  {
  }

  /** The input's minimum is exactly the least day the schema accepts,
      and the default two-weeks-ahead date is accepted. */
  lemma MinDateIsLeastAccepted(today: int, d: int)
    ensures DueDateIssues(OnDay(d), today) == [] <==> d >= MinDate(today)
    ensures DueDateIssues(OnDay(DefaultDueDate(today)), today) == []
  {
  }

  /** The schema alone accepts more copies than the book has: with a
      single copy on the shelf a borrow of five passes it, and the overlay
      would then show none left. In the page the quantity input's `max`
      stops that submit first. */
  lemma QuantityIgnoresCopies(b: Book, today: int)
    requires b.copies == 1
    ensures ParseBorrow(BorrowForm(5, OnDay(MinDate(today))), today) == Valid(BorrowData(5, MinDate(today)))
    ensures BorrowOverlay(Some(b), 5) == Some(b.(copies := 0, available := false))
    ensures !MarkupAllows(BorrowForm(5, OnDay(MinDate(today))), b.copies, today)
  {
    BorrowAcceptsExactly(BorrowForm(5, OnDay(MinDate(today))), today);
  }

  /** What the form's markup lets through to the submit handler, given
      the copies of the book shown: the browser refuses to submit while the
      quantity is outside 1 to the lesser of those copies and 10, or the
      due date is empty or before the input's minimum. */
  predicate MarkupAllows(f: BorrowForm, copies: int, today: int)
  {
    && 1 <= f.quantity <= (if copies < 10 then copies else 10)
    && f.dueDate.OnDay? && f.dueDate.day >= MinDate(today)
  }

  /** The markup lets through exactly the forms the schema accepts whose
      quantity the book can supply. */
  lemma MarkupAllowsIff(f: BorrowForm, copies: int, today: int)
    ensures MarkupAllows(f, copies, today) <==> ParseBorrow(f, today).Valid? && f.quantity <= copies
  {
    BorrowAcceptsExactly(f, today);
  }

  /** A borrow the markup lets through never drives the overlay's clamp:
      the copies shown drop by exactly the quantity. */
  lemma MarkupKeepsStock(f: BorrowForm, b: Book, today: int)
    requires MarkupAllows(f, b.copies, today)
    ensures BorrowOverlay(Some(b), f.quantity) == Some(b.(copies := b.copies - f.quantity, available := b.copies > f.quantity))
  {
  }

  /** The optimistic reducer: the copies drop by the quantity but never
      below zero, the book is available exactly when copies remain, every
      other field is kept, and no book stays no book. */
  function BorrowOverlay(current: Option<Book>, quantity: int): (r: Option<Book>)
    ensures current.None? <==> r.None?
    ensures r.Some? ==> r.value.copies >= 0
    ensures r.Some? ==> (r.value.available <==> r.value.copies > 0)
    ensures r.Some? && current.value.copies >= quantity ==> r.value.copies == current.value.copies - quantity
    ensures r.Some? && current.value.copies < quantity ==> r.value.copies == 0
    ensures r.Some? ==> r.value.(copies := current.value.copies, available := current.value.available) == current.value
  {
    match current
    case None => None
    case Some(b) =>
      var left := if b.copies - quantity > 0 then b.copies - quantity else 0;
      Some(b.(copies := left, available := left > 0))
  }

  /** Five copies, borrow two: three left, still available. */
  lemma BorrowOverlayExample(b: Book)
    requires b.copies == 5
    ensures BorrowOverlay(Some(b), 2) == Some(b.(copies := 3, available := true))
  {
  }

  /** The quantity input: `parseInt(text) || 1`. */
  function QuantityFromText(text: string): (n: int)
    ensures n != 0
    ensures JsNumbers.ParseInt(text).None? ==> n == 1
    ensures JsNumbers.ParseInt(text) == Some(0) ==> n == 1
    ensures JsNumbers.ParseInt(text).Some? && JsNumbers.ParseInt(text).value != 0 ==> n == JsNumbers.ParseInt(text).value
  {
    JsNumbers.ParseIntOr(text, 1)
  }

  /** The opening words of the success message as the template builds
      them: the quantity, " copy", then "ies" or "y". */
  function SuccessPhraseAsWritten(quantity: nat): string
  {
    JsNumbers.DecimalString(quantity) + " copy" + (if quantity > 1 then "ies" else "y")
  }

  /** As written, two copies read "2 copyies" and one copy "1 copyy". */
  lemma SuccessPhraseMisspelt()
    ensures SuccessPhraseAsWritten(2) == "2 copyies"
    ensures SuccessPhraseAsWritten(1) == "1 copyy"
  {
  }

  /** As written, the number reads back as the quantity, but the phrase
      never matches the intended one for any quantity. */
  lemma SuccessPhraseAsWrittenDiffers(quantity: nat)
    ensures JsNumbers.ParseInt(SuccessPhraseAsWritten(quantity)) == Some(quantity)
    ensures SuccessPhraseAsWritten(quantity) != SuccessPhrase(quantity)
  {
    var noun := " copy" + (if quantity > 1 then "ies" else "y");
    assert SuccessPhraseAsWritten(quantity) == JsNumbers.DecimalString(quantity) + noun;
    assert noun[0] == ' ';
    JsNumbers.ParseIntOfLeadingNumber(quantity, noun);
    assert |SuccessPhraseAsWritten(quantity)| == |SuccessPhrase(quantity)| + 1;
  }

  /** The opening words as intended: the quantity, then "copies" for more
      than one and "copy" for one. */
  function SuccessPhrase(quantity: nat): (s: string)
    ensures quantity > 1 ==> s == JsNumbers.DecimalString(quantity) + " copies"
    ensures quantity <= 1 ==> s == JsNumbers.DecimalString(quantity) + " copy"
  {
    JsNumbers.DecimalString(quantity) + (if quantity > 1 then " copies" else " copy")
  }

  /** The intended phrase reads back as its quantity. */
  lemma SuccessPhraseAgrees(quantity: nat)
    ensures JsNumbers.ParseInt(SuccessPhrase(quantity)) == Some(quantity)
  {
    var noun := if quantity > 1 then " copies" else " copy";
    assert SuccessPhrase(quantity) == JsNumbers.DecimalString(quantity) + noun;
    assert noun[0] == ' ';
    JsNumbers.ParseIntOfLeadingNumber(quantity, noun);
  }

  /** As intended, two copies read "2 copies" and one copy "1 copy". */
  lemma SuccessPhraseSpelt()
    ensures SuccessPhrase(2) == "2 copies"
    ensures SuccessPhrase(1) == "1 copy"
  {
  }

  /** One edit made by a form input. */
  datatype BorrowChange = QuantityInput(count: int) | DueDateInput(date: DueDate)

  /** The field an edit writes. */
  function Key(c: BorrowChange): BorrowField
  {
    match c
    case QuantityInput(_) => QuantityField
    case DueDateInput(_) => DueDateField
  }

  function Apply(f: BorrowForm, c: BorrowChange): BorrowForm
  {
    match c
    case QuantityInput(n) => f.(quantity := n)
    case DueDateInput(d) => f.(dueDate := d)
  }

  /** Per-field validation: the new value against its field's checks. */
  function ChangeIssues(c: BorrowChange, today: int): seq<BorrowMessage>
  {
    match c
    case QuantityInput(n) => NumberIssues(QuantityChecks, n)
    case DueDateInput(d) => DueDateIssues(d, today)
  }

  /** Per-field and whole-object validation agree on each field. */
  lemma FieldAndObjectAgree(f: BorrowForm, c: BorrowChange, today: int)
    ensures MessagesAt(BorrowIssues(Apply(f, c), today), Key(c)) == ChangeIssues(c, today)
  {
    BorrowShapeDistinct();
    assert Key(c) in BorrowShape;
    TaggedAt(BorrowShape, MessagesOf(Apply(f, c), today), Key(c));
  }

  class BorrowModal {
    var isOpen: bool
    var book: Option<Book>
    var form: BorrowForm
    var errors: map<BorrowField, BorrowMessage>
    var loading: bool
    /** The quantity of the queued optimistic borrow. */
    var overlay: Option<int>

    /** The borrow request is in flight exactly while the optimistic
        update is queued. */
    ghost predicate Valid()
      reads this
    {
      loading <==> overlay.Some?
    }

    /** Mounting: a blank form, and the open effect fills in the default
        due date when the modal mounts open. */
    constructor (isOpen: bool, book: Option<Book>, today: int)
      ensures Valid()
      ensures this.isOpen == isOpen && this.book == book
      ensures form == if isOpen then BorrowForm(1, OnDay(DefaultDueDate(today))) else BlankForm
      ensures errors == map[] && !loading && overlay.None?
    {
      this.isOpen := isOpen;
      this.book := book;
      form := if isOpen then BorrowForm(1, OnDay(DefaultDueDate(today))) else BlankForm;
      errors := map[];
      loading := false;
      overlay := None;
    }

    /** The book shown: the overlay while a borrow is queued, the
        confirmed book otherwise. */
    function Displayed(): Option<Book>
      reads this
    {
      match overlay
      case None => book
      case Some(q) => BorrowOverlay(book, q)
    }

    /** The "(Processing...)" marker: a queued borrow on a present book. */
    predicate ShowsProcessing()
      reads this
    {
      overlay.Some? && book.Some?
    }

    /** Submit is disabled while loading, while some field shows an error,
        and when the book shown has no copies. */
    predicate SubmitDisabled()
      reads this
    {
      loading || AnyError(errors) || (Displayed().Some? && Displayed().value.copies == 0)
    }

    /** The parent opens or closes the modal; opening proposes the default
        due date and keeps the quantity. */
    method OpenChanged(open: bool, today: int)
      requires Valid() && open != isOpen
      modifies this
      ensures Valid()
      ensures isOpen == open
      ensures form == if open then old(form).(dueDate := OnDay(DefaultDueDate(today))) else old(form)
      ensures book == old(book) && errors == old(errors) && loading == old(loading) && overlay == old(overlay)
    {
      isOpen := open;
      if open {
        form := form.(dueDate := OnDay(DefaultDueDate(today)));
      }
    }

    /** The parent passes a different book; the form is kept. */
    method BookChanged(b: Option<Book>)
      requires Valid()
      modifies this
      ensures Valid()
      ensures book == b
      ensures isOpen == old(isOpen) && form == old(form) && errors == old(errors)
      ensures loading == old(loading) && overlay == old(overlay)
    {
      book := b;
    }

    /** An input changes: the value is stored, then only that field's
        error changes: it is cleared when the value passes and becomes its
        first failing message otherwise. This is the intended feedback; the
        handler as written leaves the error unchanged for a failing value
        (`FieldErrorAsWritten`). */
    method ChangeField(c: BorrowChange, today: int)
      requires Valid()
      modifies this
      ensures Valid()
      ensures form == Apply(old(form), c)
      ensures errors == FieldError(old(errors), Key(c), ChangeIssues(c, today))
      ensures isOpen == old(isOpen) && book == old(book) && loading == old(loading) && overlay == old(overlay)
    {
      form := Apply(form, c);
      errors := FieldError(errors, Key(c), ChangeIssues(c, today));
    }

    /** Submit: without a book nothing happens. Otherwise the errors are
        cleared and the form is parsed; a failure fills the error map and
        sends nothing, a success queues the optimistic borrow and sends one
        request for this book with the validated quantity and due day. */
    method Submit(today: int) returns (sent: Option<BorrowRequest>)
      requires Valid() && !loading
      modifies this
      ensures Valid()
      ensures old(book).None? ==> sent.None? && errors == old(errors) && overlay.None? && !loading
      ensures old(book).Some? && ParseBorrow(old(form), today).Invalid? ==>
        sent.None? && errors == LastMessages(BorrowIssues(old(form), today)) && overlay.None? && !loading
        && SubmitDisabled()
      ensures old(book).Some? && ParseBorrow(old(form), today).Valid? ==>
        && sent == Some(BorrowRequest(old(book).value.id, old(form).quantity, old(form).dueDate.day))
        && overlay == Some(old(form).quantity) && loading && errors == map[]
      ensures isOpen == old(isOpen) && book == old(book) && form == old(form)
    {
      sent := None;
      if book.None? {
        return;
      }
      errors := map[];
      var parsed := ParseBorrow(form, today);
      match parsed
      case Invalid(issues) =>
        errors := CollectFieldErrors(issues);
        LastMessagesShowError(issues);
      case Valid(data) =>
        overlay := Some(data.quantity);
        loading := true;
        sent := Some(BorrowRequest(book.value.id, data.quantity, data.dueDay));
    }

    /** The borrow request settles: the overlay is discarded so the
        confirmed book shows again; success resets the form and closes the
        modal, failure leaves both as they were. */
    method Settle(outcome: Outcome)
      requires Valid() && loading
      modifies this
      ensures Valid()
      ensures overlay.None? && !loading && Displayed() == book
      ensures outcome == Resolved ==> form == BlankForm && !isOpen
      ensures outcome == Rejected ==> form == old(form) && isOpen == old(isOpen)
      ensures book == old(book) && errors == old(errors)
    {
      overlay := None;
      loading := false;
      if outcome == Resolved {
        form := BlankForm;
        isOpen := false;
      }
    }

    /** Close: ignored while loading; otherwise resets the form, clears
        the errors and closes. */
    method Close()
      requires Valid()
      modifies this
      ensures Valid()
      ensures old(loading) ==> isOpen == old(isOpen) && form == old(form) && errors == old(errors)
      ensures !old(loading) ==> !isOpen && form == BlankForm && errors == map[]
      ensures book == old(book) && loading == old(loading) && overlay == old(overlay)
    {
      if !loading {
        form := BlankForm;
        errors := map[];
        isOpen := false;
      }
    }
  }

  /** Opening the modal yields a form that validates at once: one copy,
      due in two weeks. */
  method OpenReady(m: BorrowModal, today: int)
    requires m.Valid() && !m.isOpen && m.form.quantity == 1
    modifies m
    ensures m.isOpen && ParseBorrow(m.form, today) == Valid(BorrowData(1, DefaultDueDate(today)))
  {
    m.OpenChanged(true, today);
    BorrowAcceptsExactly(m.form, today);
  }

  /** A borrow of the whole stock shows the book with no copies left and
      unavailable, marked "(Processing...)", while it is in flight; if it
      fails, the confirmed book shows again, as does the form the user
      filled in. */
  method BorrowAllThenFail(m: BorrowModal, today: int) returns (inFlight: Option<Book>, processing: bool)
    requires m.Valid() && !m.loading && m.book.Some? && BorrowAcceptable(m.form, today)
    requires m.book.value.copies == m.form.quantity
    modifies m
    ensures processing
    ensures inFlight == Some(old(m.book).value.(copies := 0, available := false))
    ensures m.Displayed() == old(m.book) && m.form == old(m.form) && !m.loading
  {
    BorrowAcceptsExactly(m.form, today);
    var sent := m.Submit(today);
    inFlight := m.Displayed();
    processing := m.ShowsProcessing();
    m.Settle(Rejected);
  }
}
