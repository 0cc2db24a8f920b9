/** The delete confirmation modal: the guard on the id and title it is
    given, the confirm procedure that runs exactly one deletion path and
    closes only when that path resolves, and the close guard. */
module DeleteBookModal {
  import opened Library
  import opened Rules

  /** The messages of the delete schema. */
  datatype DeleteMessage = IdRequired | TitleRequired

  /** The words each message shows. */
  function Text(m: DeleteMessage): string
  {
    match m
    case IdRequired => "Book ID is required"
    case TitleRequired => "Book title is required"
  }

  const IdChecks: seq<StringCheck<DeleteMessage>> := [MinLength(1, IdRequired)]
  const TitleChecks: seq<StringCheck<DeleteMessage>> := [MinLength(1, TitleRequired)]

  /** The fields of the delete schema. */
  datatype DeleteField = BookIdField | BookTitleField

  /** The delete schema's fields in shape order. */
  const DeleteShape: seq<DeleteField> := [BookIdField, BookTitleField]

  function FieldMessages(bookId: string, bookTitle: string, p: DeleteField): seq<DeleteMessage>
  {
    match p
    case BookIdField => StringIssues(IdChecks, bookId)
    case BookTitleField => StringIssues(TitleChecks, bookTitle)
  }

  /** `validateData`: whether `deleteBookSchema.parse` succeeds. */
  function ValidateData(bookId: string, bookTitle: string): (ok: bool)
    ensures ok <==> bookId != "" && bookTitle != ""
  {
    var m := p => FieldMessages(bookId, bookTitle, p);
    TaggedEmpty(DeleteShape, m);
    assert BookIdField in DeleteShape && BookTitleField in DeleteShape;
    assert StringIssues(IdChecks, bookId) == [] <==> |bookId| >= 1;
    assert StringIssues(TitleChecks, bookTitle) == [] <==> |bookTitle| >= 1;
    Report(Tagged(DeleteShape, m)) == []
  }

  /** A call the confirm procedure makes on the outside world. */
  datatype Call =
    | ConfirmCalled(bookId: string, bookTitle: string)  // the parent's `onConfirm`
    | DeleteCalled(bookId: string)                      // the modal's own delete mutation
    | CloseCalled                                       // `onClose`

  predicate IsDeletion(c: Call)
  {
    c.ConfirmCalled? || c.DeleteCalled?
  }

  /** Which deletion path is in flight. */
  datatype Path = ViaConfirm | Direct

  class DeleteModal {
    var isOpen: bool
    /** The modal's own delete mutation is in flight. */
    var loading: bool
    var pending: Option<Path>

    /** Only the direct path uses the modal's own mutation. */
    ghost predicate Valid()
      reads this
    {
      loading <==> pending == Some(Direct)
    }

    constructor (isOpen: bool)
      ensures Valid() && this.isOpen == isOpen && !loading && pending.None?
    {
      this.isOpen := isOpen;
      loading := false;
      pending := None;
    }

    /** The confirm button (disabled while loading): an id or title that
        fails the guard stops here with no call at all; otherwise exactly
        one deletion path starts, the parent's handler when one is given
        and the modal's own mutation otherwise. */
    method Confirm(bookId: string, bookTitle: string, hasOnConfirm: bool) returns (calls: seq<Call>)
      requires Valid() && !loading && pending.None?
      modifies this
      ensures Valid()
      ensures !ValidateData(bookId, bookTitle) ==> calls == [] && pending.None? && !loading
      ensures ValidateData(bookId, bookTitle) && hasOnConfirm ==>
        calls == [ConfirmCalled(bookId, bookTitle)] && pending == Some(ViaConfirm) && !loading
      ensures ValidateData(bookId, bookTitle) && !hasOnConfirm ==>
        calls == [DeleteCalled(bookId)] && pending == Some(Direct) && loading
      ensures isOpen == old(isOpen)
    {
      calls := [];
      if !ValidateData(bookId, bookTitle) {
        return;
      }
      if hasOnConfirm {
        calls := [ConfirmCalled(bookId, bookTitle)];
        pending := Some(ViaConfirm);
      } else {
        calls := [DeleteCalled(bookId)];
        pending := Some(Direct);
        loading := true;
      }
    }

    /** The deletion path settles: `onClose` runs only when it resolved;
        a thrown error leaves the modal as it was. */
    method Settle(outcome: Outcome) returns (closed: bool)
      requires Valid() && pending.Some?
      modifies this
      ensures Valid() && pending.None? && !loading
      ensures closed <==> outcome == Resolved
      ensures isOpen == (old(isOpen) && !closed)
    {
      pending := None;
      loading := false;
      closed := outcome == Resolved;
      if closed {
        isOpen := false;
      }
    }

    /** Close: ignored while the modal's own mutation is loading. */
    method Close()
      requires Valid()
      modifies this
      ensures Valid()
      ensures isOpen == (old(isOpen) && loading)
      ensures loading == old(loading) && pending == old(pending)
    {
      if !loading {
        isOpen := false;
      }
    }
  }

  /** The whole confirm procedure: the guard, one deletion path, then
      `onClose` when (and only when) that path resolved. */
  method HandleConfirm(m: DeleteModal, bookId: string, bookTitle: string, hasOnConfirm: bool, outcome: Outcome)
    returns (calls: seq<Call>)
    requires m.Valid() && !m.loading && m.pending.None?
    modifies m
    ensures m.Valid() && m.pending.None? && !m.loading
    ensures !ValidateData(bookId, bookTitle) ==> calls == [] && m.isOpen == old(m.isOpen)
    ensures ValidateData(bookId, bookTitle) ==>
      && 1 <= |calls| <= 2 && IsDeletion(calls[0])
      && calls[0] == (if hasOnConfirm then ConfirmCalled(bookId, bookTitle) else DeleteCalled(bookId))
      && (forall i :: 1 <= i < |calls| ==> !IsDeletion(calls[i]))
    ensures CloseCalled in calls <==> ValidateData(bookId, bookTitle) && outcome == Resolved
    ensures m.isOpen == (old(m.isOpen) && CloseCalled !in calls)
  {
    calls := m.Confirm(bookId, bookTitle, hasOnConfirm);
    if m.pending.Some? {
      var closed := m.Settle(outcome);
      if closed {
        calls := calls + [CloseCalled];
      }
    }
  }

  /** On the `onConfirm` path the modal's own mutation never loads, so
      Cancel is honoured while the parent's request is still in flight:
      the modal closes with the deletion pending. */
  method CancelDuringConfirm(m: DeleteModal, bookId: string, bookTitle: string)
    requires m.Valid() && !m.loading && m.pending.None?
    requires bookId != "" && bookTitle != ""
    modifies m
    ensures !m.isOpen && m.pending == Some(ViaConfirm)
  {
    var calls := m.Confirm(bookId, bookTitle, true);
    m.Close();
  }
}
