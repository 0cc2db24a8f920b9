# Library front end: book modals and book list, modelled in Dafny

This project models the logic inside the book pages of a small React
library-management front end:

- The **add**, **edit** and **borrow** modals. For each one the model has the
  validation schema, the per-field feedback typed into the form, the
  whole-form check on submit, and the state that the handlers change: form,
  field errors, loading flag, and for edit and borrow the queued optimistic
  update.
- The **delete** confirmation modal. Its guard checks the id and title it is
  given. Its confirm procedure runs exactly one deletion path and closes only
  when that path resolves.
- The **book list**. It covers pagination (page count, page slice, the
  previous and next controls, page-size reset), the row availability and
  borrow predicates, and the delete handler the page gives to the delete
  modal.

Modules follow the source files. `Library` holds the Book record, the Genre
enumeration and two small wrappers. `JsNumbers` holds `parseInt`, the
`parseInt(...) || k` fallback and decimal printing. `Rules` holds the check
tables, the issue lists an object parse reports, and the two ways the
handlers turn issues into an error map. `BookRules` holds the field tables
that the create and update schemas share.

Each modal is a `class` whose methods do what its handlers do:

- `Submit` validates. On success it queues the optimistic update, sets the
  loading flag and returns the request it sends.
- `Settle(outcome)` is the awaited request resolving or throwing. It
  discards the optimistic update and clears the loading flag. On success it
  closes the modal and resets the form where the handler does.

Validation messages are enumerations, one per schema (`BookMessage`,
`BorrowMessage`, `DeleteMessage`), and each schema's `Text` function gives the
words a message shows. The error maps go from a field to a message. The
handlers write "" to clear a field's error. Every reader of the map treats
"" as no error: the message under an input, its red border, and the rule
that disables the submit control. So the model represents a cleared error
as a field that is absent from the map.

A request is an abstract outcome, `Resolved` or `Rejected`. The clock is a
parameter: `now` for timestamps, and `today` as a day number for due dates.

## Model

| member | source | states |
|---|---|---|
| Library.ParseGenre | src/components/books/EditBookModal.tsx:34-36 | the genre enumeration accepts a string exactly when it is the value of one of the six members, and yields that member |
| JsNumbers.DecimalString | src/components/books/BorrowBookModal.tsx:140 | a template literal prints a count as decimal digits with no leading zero |
| JsNumbers.DecimalDigitsValue | src/components/books/BorrowBookModal.tsx:140 | the printed digits are worth the number printed |
| JsNumbers.ParseIntDecimal | src/components/books/BorrowBookModal.tsx:140 | `parseInt` gives back every count printed in decimal |
| JsNumbers.ParseIntOrCases | src/components/books/AddBookModal.tsx:289 | in the number inputs, a typed positive count is kept, and an empty entry, a non-numeric entry or 0 become the fallback |
| JsNumbers.ParseIntOfLeadingNumber | src/components/books/BorrowBookModal.tsx:140-141 | a count printed at the start of a message reads back as that count |
| JsNumbers.ParseIntReads | src/components/books/EditBookModal.tsx:428 | `parseInt` skips leading white space and line terminators (the Unicode space separators included), takes an optional sign, and reads the run of decimal digits up to the first other character, negated after a minus |
| Rules.StringIssues | src/components/books/EditBookModal.tsx:23-48 | a string schema raises nothing exactly when every check passes, and at most one message per check |
| Rules.NumberIssues | src/components/books/EditBookModal.tsx:48-52 | a number schema raises nothing exactly when every bound holds, and at most one message per bound |
| Rules.StringIssuesListFailures | src/components/books/EditBookModal.tsx:23-48 | every message a string schema raises is the message of a check the value fails |
| Rules.StringIssuesListEveryFailure | src/components/books/EditBookModal.tsx:23-48 | every check the value fails contributes its message: all checks run, none stops the later ones |
| Rules.StringIssuesFirst | src/components/books/EditBookModal.tsx:23-48 | the first message raised is that of the first failing check in declaration order |
| Rules.StringIssuesLast | src/components/books/EditBookModal.tsx:23-48 | the last message raised is that of the last failing check in declaration order |
| Rules.NumberIssuesListFailures | src/components/books/EditBookModal.tsx:48-52 | every message a number schema raises is the message of a bound the value breaks |
| Rules.NumberIssuesListEveryFailure | src/components/books/EditBookModal.tsx:48-52 | every bound the value breaks contributes its message |
| Rules.NumberIssuesFirst | src/components/books/EditBookModal.tsx:48-52 | the first message raised is that of the first broken bound in declaration order |
| Rules.NumberIssuesLast | src/components/books/EditBookModal.tsx:48-52 | the last message raised is that of the last broken bound in declaration order |
| Rules.ReportEmpty | src/components/books/EditBookModal.tsx:22-54 | an object parse raises no issue exactly when none of its fields raised one |
| Rules.ReportAt | src/components/books/EditBookModal.tsx:22-54 | the messages an object parse reports under a field's name are exactly that field's own messages, and there are none under a name that is not a field |
| Rules.CollectFieldErrors | src/components/books/EditBookModal.tsx:186-191 | the `forEach` loop builds the map in which every issue overwrites earlier ones for its field |
| Rules.TaggedEmpty | src/components/books/EditBookModal.tsx:22-54 | an object parse over a shape raises nothing exactly when no field of the shape raised anything |
| Rules.TaggedAt | src/components/books/EditBookModal.tsx:22-54 | with no field repeated in the shape, the messages under a field of the shape are exactly that field's messages |
| Rules.TaggedKeys | src/components/books/EditBookModal.tsx:184-192 | the error map built from an object parse has a key exactly for each field of the shape that raised something |
| Rules.TaggedLast | src/components/books/EditBookModal.tsx:184-192 | such a field's entry in the error map is the last message it raised |
| Rules.LastMessagesKeepsLast | src/components/books/EditBookModal.tsx:188-191 | a field is in the error map exactly when it has a message, and it keeps the last message reported for it |
| Rules.LastMessagesKeys | src/components/books/EditBookModal.tsx:188-191 | the keys of the error map are exactly the fields that have an issue |
| Rules.ReportErrorKeys | src/components/books/EditBookModal.tsx:184-192 | after a failed object parse, a field has an error entry exactly when that field raised a message |
| Rules.ReportErrorKeySet | src/components/books/AddBookModal.tsx:135-143 | the error map's keys are the set of fields that raised a message |
| Rules.LastMessagesShowError | src/components/books/EditBookModal.tsx:467-470 | a failed parse (a non-empty issue list) always leaves an error on show, so the submit control is disabled |
| Rules.TaggedSingle | src/components/books/EditBookModal.tsx:184-192 | a field that raises at most one message keeps exactly that message in the error map, so for it the last message is also the first |
| Rules.FieldErrorAsWritten | src/components/books/EditBookModal.tsx:121-139 | per-field feedback as written: a passing value clears the field's error, a failing value leaves the map unchanged, and every other field keeps its error |
| Rules.FieldError | src/components/books/EditBookModal.tsx:121-147 | per-field feedback as intended: only the edited field changes; its error is cleared when the value passes and is its first failing message otherwise |
| BookRules.TitleChecksAccept | src/components/books/EditBookModal.tsx:24-28 | the title table passes exactly the titles of 2 to 200 characters |
| BookRules.AuthorChecksAccept | src/components/books/EditBookModal.tsx:29-33 | the author table passes exactly the authors of 2 to 100 characters |
| BookRules.GenreIssuesAccept | src/components/books/EditBookModal.tsx:34-36 | the genre check passes exactly the values of the six members |
| BookRules.IsbnChecksAccept | src/components/books/EditBookModal.tsx:37-43 | the isbn table passes exactly 10 to 17 characters, each a digit or a hyphen |
| BookRules.DescriptionChecksAccept | src/components/books/EditBookModal.tsx:44-47 | the description table passes exactly 10 to 1000 characters |
| BookRules.FilledTextRaisesOne | src/components/books/EditBookModal.tsx:24-43 | a non-empty title, author or isbn raises at most one message: the "required" check passes and the remaining bounds cannot fail together |
| BookRules.DescriptionRaisesOne | src/components/books/EditBookModal.tsx:44-47 | the description raises at most one message, since its two bounds cannot fail together |
| BookRules.ChangeIssues | src/components/books/EditBookModal.tsx:121-127 | per-field validation runs the edited field's own table on the new value; the `available` toggle raises nothing |
| BookRules.EmptyTitleMessages | src/components/books/EditBookModal.tsx:24-28 | an empty title raises `TitleRequired` ("Title is required") and then `TitleTooShort` ("Title must be at least 2 characters") |
| BookRules.AsWrittenFieldFeedbackHidesError | src/components/books/EditBookModal.tsx:131-135 | as written, typing an empty title into a clean form shows no error and leaves submit enabled |
| BookRules.FieldFeedbackShowsFirstError | src/components/books/EditBookModal.tsx:121-139 | as intended, the same edit shows `TitleRequired` and so disables submit |
| EditBookModal.ParseUpdate | src/components/books/EditBookModal.tsx:22-54 | the update parse either yields a request carrying exactly the form's values, or fails with every issue the fields raised, and never with an empty list |
| EditBookModal.UpdateIssuesClear | src/components/books/EditBookModal.tsx:22-54 | the update parse raises nothing exactly when each of its seven fields raises nothing |
| EditBookModal.FieldsClearIffAcceptable | src/components/books/EditBookModal.tsx:22-54 | each field passes its table exactly when it meets its rule in words |
| EditBookModal.UpdateAcceptsExactly | src/components/books/EditBookModal.tsx:22-54 | update validation accepts exactly these forms: id non-empty, title 2..200, author 2..100, a genre value, isbn 10..17 digits or hyphens, description 10..1000, copies 0..100 |
| EditBookModal.UpdateRoundTrip | src/components/books/EditBookModal.tsx:22-54 | validating an already validated request gives it back unchanged |
| EditBookModal.FieldAndObjectAgree | src/components/books/EditBookModal.tsx:121-127 | the messages the submit-time parse reports for a field are the ones that field's own schema raises on the same value |
| EditBookModal.SingleFieldFailure | src/components/books/EditBookModal.tsx:184-192 | after one edit makes an acceptable form fail, the error map has the edited field as its single key |
| EditBookModal.MarkupAllows | src/components/books/EditBookModal.tsx:289-426 | the form's markup lets a submit through only with title, author and isbn non-empty (`required`) and copies within 0..100 (`min`, `max`); the genre select offers only genre values |
| EditBookModal.MarkupAdmitsAcceptable | src/components/books/EditBookModal.tsx:289-426 | the markup never stops a form that the update schema accepts |
| EditBookModal.SubmittedFieldsRaiseOne | src/components/books/EditBookModal.tsx:184-192 | on a form the markup lets through, each field raises at most one message, so each error the submit handler records is also that field's first message |
| EditBookModal.CopiesFromText | src/components/books/EditBookModal.tsx:428 | the copies input stores 0 for an empty or non-numeric entry and the parsed value otherwise |
| EditBookModal.FormFromBook | src/components/books/EditBookModal.tsx:98-112 | the form loaded from a book holds the book's own id, title, author, genre value, isbn, description, copies and availability |
| EditBookModal.EditOverlay | src/components/books/EditBookModal.tsx:78-95 | the edit reducer writes the seven submitted fields into the book and stamps `updatedAt`; id and `createdAt` are kept, and no book stays no book |
| EditBookModal.EditOverlayIdempotent | src/components/books/EditBookModal.tsx:78-95 | applying the same update twice shows the same book as applying it once |
| EditBookModal.UnchangedSubmit | src/components/books/EditBookModal.tsx:98-112 | submitting the form just loaded from a valid book validates, and the overlay then changes nothing but `updatedAt` |
| EditBookModal.EditModal.constructor | src/components/books/EditBookModal.tsx:64-112 | mounting loads the form from the book when there is one, with no errors and nothing loading |
| EditBookModal.EditModal.Displayed | src/components/books/EditBookModal.tsx:212 | the book shown is the optimistic book while an update is queued, and the confirmed book otherwise |
| EditBookModal.EditModal.ShowsPreview | src/components/books/EditBookModal.tsx:250-256 | the "Updating book..." preview shows exactly while an update is queued on a present book |
| EditBookModal.EditModal.SubmitDisabled | src/components/books/EditBookModal.tsx:467-470 | the submit control is disabled while loading or while some field shows an error |
| EditBookModal.EditModal.BookChanged | src/components/books/EditBookModal.tsx:98-112 | a present new book reloads the form field for field and clears every error; no book leaves the form alone |
| EditBookModal.EditModal.OpenChanged | src/components/books/EditBookModal.tsx:114-119 | closing clears the field errors |
| EditBookModal.EditModal.ChangeField | src/components/books/EditBookModal.tsx:141-147 | an edit stores the value, then sets only that field's error |
| EditBookModal.EditModal.Submit | src/components/books/EditBookModal.tsx:149-200 | with no book nothing happens; a failed parse sends nothing, queues no overlay, fills the error map and so disables submit; a passing parse queues the overlay, starts loading and sends exactly the validated request |
| EditBookModal.EditModal.Settle | src/components/books/EditBookModal.tsx:162-182 | settling drops the overlay so that the confirmed book shows; success closes the modal, failure keeps it open with the form unchanged |
| EditBookModal.EditModal.Close | src/components/books/EditBookModal.tsx:202-207 | close is ignored while loading; otherwise it clears the errors and closes |
| EditBookModal.SubmitThenSettle | src/components/books/EditBookModal.tsx:212-256 | while the update is pending the "Updating book..." preview shows the submitted values written onto the confirmed book, with `updatedAt` restamped; once it settles the confirmed book shows |
| AddBookModal.ParseCreate | src/components/books/AddBookModal.tsx:19-50 | the create parse either yields a request carrying exactly the form's values, or fails with every issue raised |
| AddBookModal.CreateIssuesClear | src/components/books/AddBookModal.tsx:19-50 | the create parse raises nothing exactly when each of its six fields raises nothing |
| AddBookModal.FieldsClearIffAcceptable | src/components/books/AddBookModal.tsx:19-50 | each field passes its table exactly when it meets its rule in words |
| AddBookModal.CreateAcceptsExactly | src/components/books/AddBookModal.tsx:19-50 | create validation accepts exactly the forms with title 2..200, author 2..100, a genre value, isbn 10..17 digits or hyphens, description 10..1000, copies 1..100 |
| AddBookModal.CreateRoundTrip | src/components/books/AddBookModal.tsx:19-50 | validating an already validated request gives it back unchanged |
| AddBookModal.CreateIsUpdateWithoutIdAndWithACopy | src/components/books/AddBookModal.tsx:44-48 | create accepts a form exactly when update accepts the same values with an id and the copies are not 0 |
| AddBookModal.DefaultFormRejected | src/components/books/AddBookModal.tsx:58-66 | under the schema alone the default form fails, with errors for title, author, isbn and description only; in the page the browser stops that submit before the handler runs |
| AddBookModal.DefaultFieldMessages | src/components/books/AddBookModal.tsx:58-66 | in the default form, title, author, isbn and description fail while genre and copies pass |
| AddBookModal.EmptyTitleFirstAndLast | src/components/books/AddBookModal.tsx:135-143 | for an empty title, per-field feedback shows nothing as written and `TitleRequired` as intended, while the schema alone, on submit, keeps the last message `TitleTooShort`; the `required` title input stops that submit in the page |
| AddBookModal.MarkupAllows | src/components/books/AddBookModal.tsx:198-296 | the form's markup lets a submit through only with title, author and isbn non-empty (`required`) and copies within 1..100 (`min`, `max`); the description has no constraint |
| AddBookModal.MarkupAdmitsAcceptable | src/components/books/AddBookModal.tsx:198-296 | the markup never stops a form the create schema accepts, and it does stop the default form |
| AddBookModal.SubmittedFieldsRaiseOne | src/components/books/AddBookModal.tsx:135-143 | on a form the markup lets through, each field raises at most one message, so each error the submit handler records is also that field's first message |
| AddBookModal.EmptyDescriptionReachesSchema | src/components/books/AddBookModal.tsx:264-277 | the description is unstarred and its placeholder says "(optional)", and the markup lets an empty one through; the create schema then rejects the otherwise acceptable form with the single error `DescriptionTooShort` |
| AddBookModal.FieldAndObjectAgree | src/components/books/AddBookModal.tsx:68-94 | the messages the submit-time parse reports for a field are the ones that field's own schema raises |
| AddBookModal.CopiesFromText | src/components/books/AddBookModal.tsx:289 | the copies input never stores 0: an empty or non-numeric entry becomes 1, as does one that reads as 0, and any other reading is kept |
| AddBookModal.AddModal.constructor | src/components/books/AddBookModal.tsx:56-66 | the modal mounts with the default form and no errors |
| AddBookModal.AddModal.SubmitDisabled | src/components/books/AddBookModal.tsx:317 | the submit control is disabled while loading or while some field shows an error |
| AddBookModal.AddModal.ChangeField | src/components/books/AddBookModal.tsx:88-94 | an edit stores the value, then sets only that field's error |
| AddBookModal.AddModal.Submit | src/components/books/AddBookModal.tsx:96-151 | a failed parse sends nothing, fills the error map and so disables submit; a passing parse starts loading and sends exactly the validated request |
| AddBookModal.AddModal.Settle | src/components/books/AddBookModal.tsx:104-134 | success resets the form to the defaults and closes; failure leaves the form and the modal as they were |
| AddBookModal.AddModal.Close | src/components/books/AddBookModal.tsx:153-168 | close is ignored while loading; otherwise it resets the form, clears the errors and closes |
| AddBookModal.AddThenReopen | src/components/books/AddBookModal.tsx:106-125 | a successful add sends the form's values and leaves the modal closed, with the default form and submit enabled |
| BorrowBookModal.MinDate | src/components/books/BorrowBookModal.tsx:82-86 | the earliest selectable day is after today |
| BorrowBookModal.DefaultDueDate | src/components/books/BorrowBookModal.tsx:69-79 | the proposed due date, two weeks ahead, lies past the input's minimum |
| BorrowBookModal.DueDateIssues | src/components/books/BorrowBookModal.tsx:18-27 | the due date passes exactly for a day on or after tomorrow; an empty date raises both messages, an earlier day only `DueDateTooEarly` ("Due date must be at least tomorrow") |
| BorrowBookModal.ParseBorrow | src/components/books/BorrowBookModal.tsx:12-28 | the borrow parse either yields the form's own quantity and day, or fails with every issue raised |
| BorrowBookModal.BorrowAcceptsExactly | src/components/books/BorrowBookModal.tsx:12-28 | borrow validation accepts exactly 1..10 copies due tomorrow or later |
| BorrowBookModal.DueDateBoundary | src/components/books/BorrowBookModal.tsx:18-27 | today fails, tomorrow passes, and an empty date reports both messages |
| BorrowBookModal.MinDateIsLeastAccepted | src/components/books/BorrowBookModal.tsx:69-86 | the input's minimum is exactly the least day the schema accepts, and the two-weeks-ahead default passes |
| BorrowBookModal.QuantityIgnoresCopies | src/components/books/BorrowBookModal.tsx:13-17 | the schema does not check the quantity against the copies: with one copy a borrow of five passes it and the overlay would show none left; in the page the quantity input's `max` stops that submit |
| BorrowBookModal.MarkupAllows | src/components/books/BorrowBookModal.tsx:273-310 | the form's markup lets a submit through only with a quantity from 1 to the lesser of the shown copies and 10, and a due date on or after the input's minimum |
| BorrowBookModal.MarkupAllowsIff | src/components/books/BorrowBookModal.tsx:273-310 | the markup lets through exactly the forms the borrow schema accepts whose quantity the shown copies can supply |
| BorrowBookModal.MarkupKeepsStock | src/components/books/BorrowBookModal.tsx:50-66 | a borrow the markup lets through takes exactly the quantity off the copies, so the reducer's clamp at zero never acts |
| BorrowBookModal.BorrowOverlay | src/components/books/BorrowBookModal.tsx:50-66 | the borrow reducer takes the quantity off the copies but never goes below zero; the book is available exactly when copies remain; every other field is kept, and no book stays no book |
| BorrowBookModal.BorrowOverlayExample | src/components/books/BorrowBookModal.tsx:50-66 | five copies less two leaves three, still available |
| BorrowBookModal.QuantityFromText | src/components/books/BorrowBookModal.tsx:283 | the quantity input never stores 0: an empty or non-numeric entry becomes 1, as does one that reads as 0, and any other reading is kept |
| BorrowBookModal.SuccessPhraseMisspelt | src/components/books/BorrowBookModal.tsx:140-141 | as written, the message reads "2 copyies" and "1 copyy" |
| BorrowBookModal.SuccessPhraseAsWrittenDiffers | src/components/books/BorrowBookModal.tsx:140-141 | as written, the count reads back correctly, but for every quantity the phrase differs from the intended one |
| BorrowBookModal.SuccessPhraseSpelt | src/components/books/BorrowBookModal.tsx:140-141 | as intended, the message reads "2 copies" and "1 copy" |
| BorrowBookModal.SuccessPhraseAgrees | src/components/books/BorrowBookModal.tsx:140-141 | the intended phrase reads back as its count |
| BorrowBookModal.FieldAndObjectAgree | src/components/books/BorrowBookModal.tsx:88-114 | the messages the submit-time parse reports for a field are the ones that field's own check raises |
| BorrowBookModal.BorrowModal.constructor | src/components/books/BorrowBookModal.tsx:44-79 | mounting gives quantity 1 and, when open, the default due date |
| BorrowBookModal.BorrowModal.Displayed | src/components/books/BorrowBookModal.tsx:202 | the book shown is the optimistic book while a borrow is queued, and the confirmed book otherwise |
| BorrowBookModal.BorrowModal.ShowsProcessing | src/components/books/BorrowBookModal.tsx:262-266 | the "(Processing...)" marker shows exactly while a borrow is queued on a present book |
| BorrowBookModal.BorrowModal.SubmitDisabled | src/components/books/BorrowBookModal.tsx:353-357 | the submit control is disabled while loading, while some field shows an error, or when the book shown has no copies |
| BorrowBookModal.BorrowModal.OpenChanged | src/components/books/BorrowBookModal.tsx:69-79 | opening proposes the due date two weeks ahead and keeps everything else |
| BorrowBookModal.BorrowModal.BookChanged | src/components/books/BorrowBookModal.tsx:50-66 | a new book replaces the confirmed one, and the form is kept |
| BorrowBookModal.BorrowModal.ChangeField | src/components/books/BorrowBookModal.tsx:108-114 | an edit stores the value, then sets only that field's error |
| BorrowBookModal.BorrowModal.Submit | src/components/books/BorrowBookModal.tsx:116-136 | with no book nothing happens; a failed parse sends nothing, queues no overlay and fills the error map, which disables submit; a passing parse queues the overlay and sends one request with the book's id, the quantity and the due day |
| BorrowBookModal.BorrowModal.Settle | src/components/books/BorrowBookModal.tsx:130-163 | settling drops the overlay; success resets the form to quantity 1 with no date and closes; failure keeps both |
| BorrowBookModal.BorrowModal.Close | src/components/books/BorrowBookModal.tsx:182-191 | close is ignored while loading; otherwise it resets the form, clears the errors and closes |
| BorrowBookModal.OpenReady | src/components/books/BorrowBookModal.tsx:69-79 | opening the modal yields a form that passes at once |
| BorrowBookModal.BorrowAllThenFail | src/components/books/BorrowBookModal.tsx:127-162 | borrowing the whole stock shows the book with no copies, unavailable and marked "(Processing...)" while in flight; a failure shows the confirmed book and the user's form again |
| DeleteBookModal.ValidateData | src/components/books/DeleteBookModal.tsx:17-40 | the delete guard passes exactly when both the id and the title are non-empty |
| DeleteBookModal.DeleteModal.Confirm | src/components/books/DeleteBookModal.tsx:42-57 | a failing guard makes no call; otherwise exactly one deletion path starts, the parent's handler when given, else the modal's own mutation, which alone sets loading |
| DeleteBookModal.DeleteModal.Settle | src/components/books/DeleteBookModal.tsx:55-75 | `onClose` runs exactly when the deletion path resolved; a thrown error leaves the modal open |
| DeleteBookModal.DeleteModal.Close | src/components/books/DeleteBookModal.tsx:78-82 | close is ignored while the modal's own mutation is loading |
| DeleteBookModal.HandleConfirm | src/components/books/DeleteBookModal.tsx:42-76 | the confirm procedure either makes no call, or makes one deletion call followed by a close exactly when that call resolved |
| DeleteBookModal.CancelDuringConfirm | src/components/books/DeleteBookModal.tsx:78-82 | on the parent-handler path the modal is not loading, so Cancel closes it while the deletion is in flight |
| BooksPage.TotalPages | src/components/books/BooksPage.tsx:52 | the page count is the least number of whole pages that hold the list, and 0 for an empty list |
| BooksPage.StartIndex | src/components/books/BooksPage.tsx:53 | a page starts a page's worth of books after the previous one |
| BooksPage.NextStart | src/components/books/BooksPage.tsx:53-54 | page n ends exactly where page n + 1 starts |
| BooksPage.PageIsSlice | src/components/books/BooksPage.tsx:53-55 | a page is the slice of the list between its two bounds, each cut down to the length |
| BooksPage.Slice | src/components/books/BooksPage.tsx:55 | `slice` with non-negative bounds keeps, in order, the elements from the start up to the end cut down to the length, so its length is that cut end less the start, or 0 when the start is past either bound |
| BooksPage.PageBooks | src/components/books/BooksPage.tsx:53-55 | a page holds at most a page's worth of books |
| BooksPage.PagesUpToPrefix | src/components/books/BooksPage.tsx:51-55 | the first n pages together are the first n·size books |
| BooksPage.PagesPartition | src/components/books/BooksPage.tsx:51-55 | pages 1 to the page count together give back the whole list in order, each at most a page's worth |
| BooksPage.PageSizesWithinRange | src/components/books/BooksPage.tsx:51-55 | every page in range is non-empty, and every page before the last is full |
| BooksPage.Previous | src/components/books/BooksPage.tsx:265 | Previous goes one page back and never below 1 |
| BooksPage.Next | src/components/books/BooksPage.tsx:276 | Next goes one page on and never beyond the last |
| BooksPage.ControlsClampAtBounds | src/components/books/BooksPage.tsx:264-282 | inside the range, each control is disabled exactly where it would clamp, and both stay in range |
| BooksPage.ControlsShown | src/components/books/BooksPage.tsx:261 | the pagination controls render only with more than one page |
| BooksPage.PreviousDisabled | src/components/books/BooksPage.tsx:266 | Previous is disabled on page 1 |
| BooksPage.NextDisabled | src/components/books/BooksPage.tsx:277 | Next is disabled on the last page |
| BooksPage.ClampedPage | src/components/books/BooksPage.tsx:53 | the page number as intended stays within 1 and the page count, and is unchanged when already in range |
| BooksPage.VisibleBooks | src/components/books/BooksPage.tsx:53-55 | as intended, the page shows nothing only for an empty list, and agrees with the written slice on in-range pages |
| BooksPage.StalePageAfterDelete | src/components/books/BooksPage.tsx:249-261 | as written, deleting the 13th book on page 2 at 12 per page leaves an empty page with the controls hidden and no "No books found" notice |
| BooksPage.ShowsAvailable | src/components/books/BooksPage.tsx:190-193 | a row reads "Available" when the book is available and has copies |
| BooksPage.BorrowDisabled | src/components/books/BooksPage.tsx:208 | a row's Borrow button is disabled when the book is unavailable or has no copies |
| BooksPage.BorrowEnabledIffAvailable | src/components/books/BooksPage.tsx:190-210 | with a non-negative count, Borrow is enabled exactly on the rows that read "Available" |
| BooksPage.HandleDelete | src/components/books/BooksPage.tsx:71-88 | the page's delete handler catches a failed request, so its promise always resolves |
| BooksPage.DeleteTarget | src/components/books/BooksPage.tsx:318-319 | the delete modal gets the selected book's id and title, or "" for each when no book is selected |
| BooksPage.DeleteFromList | src/components/books/BooksPage.tsx:316-321 | with no selection nothing is sent; with a book, one `onConfirm` call is made and the modal closes even when the delete failed |
| BooksPage.BookListPager.constructor | src/components/books/BooksPage.tsx:42-43 | the list starts on page 1 at 12 books a page |
| BooksPage.BookListPager.Visible | src/components/books/BooksPage.tsx:53-55 | as written, the page shows at most a page's worth of books; it shows some book on every page up to the page count and nothing on a page beyond it |
| BooksPage.BookListPager.VisibleAsIntended | src/components/books/BooksPage.tsx:53-55 | as intended, the page shows nothing only for an empty list, and shows the same books as written whenever the current page is in range |
| BooksPage.BookListPager.ClickPrevious | src/components/books/BooksPage.tsx:265-266 | an enabled Previous moves exactly one page back |
| BooksPage.BookListPager.ClickNext | src/components/books/BooksPage.tsx:276-277 | an enabled Next moves one page on and never past the last page |
| BooksPage.BookListPager.SelectPageSize | src/components/books/BooksPage.tsx:289-291 | choosing a size among 6, 12, 24 and 48 goes back to page 1 |

## Left out

- Layout, styling, icons, toasts and console logging (the form attributes that constrain a submit are modelled, see below). The one message text modelled is the borrow phrase. The rest of the borrow message (the title and the `toLocaleDateString` date) is not modelled.
- The requests themselves (the RTK Query mutations and the list query, with its caching, refetch, loading skeleton and error view). Each request is an outcome handed to `Settle`, and the list is a parameter.
- React scheduling. `useOptimistic` is modelled as an explicit queued update that stays until `Settle` discards it. Revert timing, transitions and the order of effects are not modelled.
- Calendar arithmetic and time zones. Days are integers. The model does not capture that `new Date("YYYY-MM-DD")` is UTC midnight while "tomorrow" is local midnight. It also does not model the `toISOString` forms of the default date and the request's due date.
- The `.int()` checks ("Copies must be a whole number", "Quantity must be a whole number"). Every number reaching a schema comes from `parseInt(...) || k`, which is whole except when 309 or more digits make `parseInt` give Infinity. Such a value also breaks one of the schema's bounds, whose message comes later and so is the one the error map keeps. The number input's `min` or `max` also stops its submit. The one difference is the first message that per-field feedback would show.
- JsNumbers.ParseInt: does not model the hexadecimal reading of a text that starts "0x" or "0X", because a number input's value never holds one. Nor does it model the rounding of long digit runs to a double, or Infinity; every such value already breaks one of each schema's bounds.
- The run-time values of the `Genre` members are taken to be their names. The module that declares them, src/types, is not part of this model.
- String lengths are counted in characters; UTF-16 code units are not modelled.
- The page's modal-opening handlers (`openEditModal`, `openDeleteModal`, `openBorrowModal`) only set flags and the selected book, so they are not modelled.
- DeleteBookModal.DeleteModal.Confirm: requires that no deletion is in flight. On the `onConfirm` path the confirm button stays enabled during the request, so a second, concurrent confirm is possible; it is not modelled.
- BorrowBookModal.BorrowModal.OpenChanged: requires that the `isOpen` prop actually changes, because the open effect runs only on a change.
- BooksPage.Slice: negative `slice` bounds are not modelled, because the page number never drops below 1.
- BooksPage.BookListPager.ClickPrevious and BooksPage.BookListPager.ClickNext: require the control to be shown and enabled, since a disabled or hidden button fires no handler.
- The browser's constraint validation is stated by the `MarkupAllows` predicates, beside the `Submit` methods and not inside them. Each `Submit` models the submit handler on any form. In the page the handler runs only for a form that meets its modal's `MarkupAllows` (the `required`, `min` and `max` attributes). Step mismatches are not modelled: the stored numbers are always whole.
- EditBookModal.EditModal.ChangeField: states the intended per-field feedback (`Rules.FieldError`). As written, a failing value leaves the error map unchanged (`Rules.FieldErrorAsWritten`, Findings row 1).
- AddBookModal.AddModal.ChangeField: states the intended per-field feedback (`Rules.FieldError`). As written, a failing value leaves the error map unchanged (`Rules.FieldErrorAsWritten`, Findings row 1).
- BorrowBookModal.BorrowModal.ChangeField: states the intended per-field feedback (`Rules.FieldError`). As written, a failing value leaves the error map unchanged (`Rules.FieldErrorAsWritten`, Findings row 1).
- BooksPage.BookListPager.VisibleAsIntended: clamps the page number, which the code does not do (Findings row 3). `Visible` is the code as written.

## Code versus what the forms say

- The borrow form tells the user to "Check available copies" and shows "Maximum {Math.min(displayBook.copies, 10)} copies available" (src/components/books/BorrowBookModal.tsx:216, :298-300), so the quantity reads as bounded by the book's copies. The borrow schema has no such check (`BorrowBookModal.QuantityIgnoresCopies`). The bound comes from the quantity input's `max` attribute, which the browser enforces before the handler runs (`BorrowBookModal.MarkupAllowsIff`).
- The add form labels the description without a star, and its placeholder says "(optional)". The create schema still requires 10 to 1000 characters. So an empty description gets past the browser and the schema then rejects the form (`AddBookModal.EmptyDescriptionReachesSchema`). The model follows the code.
- Per-field feedback in the edit form is meant to show the first failing message: `error.errors.find((e) => e.path.includes(field))` (src/components/books/EditBookModal.tsx:131-135) looks for the field's name in each issue's path. A single field's schema reports issues with an empty path, so the code shows nothing for a failing value (Findings, row 1). The modal classes use the intended behaviour.

## Findings

| source | as written | input that shows it | evidently intended | confidence | as-written member | corrected member |
|---|---|---|---|---|---|---|
| src/components/books/EditBookModal.tsx:131-135 | the field's schema is parsed alone, so its issues have an empty path; `e.path.includes(field)` never matches and a failing value sets no error (the same code is in AddBookModal.tsx:79-83 and BorrowBookModal.tsx:99-103) | type an empty title into a form with no errors: the error map stays empty and submit stays enabled | the field shows its first failing message | not executed | BookRules.AsWrittenFieldFeedbackHidesError | Rules.FieldError |
| src/components/books/BorrowBookModal.tsx:140-141 | `copy` followed by `ies` or `y` | quantity 2 gives "2 copyies"; quantity 1 gives "1 copyy" | "2 copies", "1 copy" | not executed | BorrowBookModal.SuccessPhraseMisspelt | BorrowBookModal.SuccessPhrase |
| src/components/books/BooksPage.tsx:53-55 | the current page is never brought back into range when the list shrinks | 13 books, 12 a page, on page 2, delete one: page 2 is empty, the pagination controls are hidden (one page) and "No books found" stays off | the page number is clamped to the last page | not executed | BooksPage.StalePageAfterDelete | BooksPage.VisibleBooks |
