/** The book list page: the pagination arithmetic over the fetched list,
    the pager state the previous, next and page-size controls update, the
    row predicates for availability and borrowing, and the delete handler
    the page hands to the delete modal. */
module BooksPage {
  import opened Library
  import DeleteBookModal

  /** The page sizes the selector offers. */
  const PageSizes: seq<int> := [6, 12, 24, 48]

  /** `Math.ceil(total / perPage)`. */
  function TotalPages(total: nat, perPage: nat): (n: nat)
    requires perPage >= 1
    ensures n == 0 <==> total == 0
    ensures total <= n * perPage
    ensures n > 0 ==> (n - 1) * perPage < total
  {
    (total + perPage - 1) / perPage
  }

  /** `(currentPage - 1) * itemsPerPage`. */
  function StartIndex(page: int, perPage: nat): (i: nat)
    requires page >= 1
  {
    (page - 1) * perPage
  }

  /** `Array.prototype.slice` with non-negative bounds: both are cut
      down to the length, and a start at or past the end gives nothing. */
  function Slice<T>(s: seq<T>, start: nat, end: nat): (r: seq<T>)
    ensures |r| == if start < |s| && start <= end then (if end < |s| then end else |s|) - start else 0
    ensures forall i :: 0 <= i < |r| ==> start + i < |s| && r[i] == s[start + i]
  {
    var lo := if start < |s| then start else |s|;
    var hi := if end < |s| then end else |s|;
    if lo <= hi then s[lo..hi] else []
  }

  /** The books shown on page `page`, as written: the page number is used
      as it stands. */
  function PageBooks(books: seq<Book>, page: int, perPage: nat): (r: seq<Book>)
    requires page >= 1
    ensures |r| <= perPage
  {
    Slice(books, StartIndex(page, perPage), StartIndex(page, perPage) + perPage)
  }

  /** Pages 1 to n laid end to end. */
  function PagesUpTo(books: seq<Book>, perPage: nat, n: nat): seq<Book>
  {
    if n == 0 then [] else PagesUpTo(books, perPage, n - 1) + PageBooks(books, n, perPage)
  }

  /** An index cut down to a length, as `slice` cuts its bounds. */
  function Cut(i: nat, len: nat): (c: nat)
    ensures c <= len && c <= i
    ensures i <= len ==> c == i
  {
    if i <= len then i else len
  }

  lemma {:induction false} PagesUpToPrefix(books: seq<Book>, perPage: nat, n: nat)
    requires perPage >= 1
    ensures PagesUpTo(books, perPage, n) == books[..Cut(n * perPage, |books|)]
  {
    if n > 0 {
      PagesUpToPrefix(books, perPage, n - 1);
      var lo := StartIndex(n, perPage);
      NextStart(n, perPage);
      PageIsSlice(books, lo, perPage);
      PrefixThenSlice(books, Cut(lo, |books|), Cut(lo + perPage, |books|));
    }
  }

  /** Page `n` ends where page `n + 1` starts. */
  lemma NextStart(n: nat, perPage: nat)
    requires n >= 1
    ensures StartIndex(n, perPage) == (n - 1) * perPage
    ensures StartIndex(n, perPage) + perPage == n * perPage
  {
  }

  /** The page starting at `lo` is the slice from `lo` to a page further,
      both bounds cut down to the length. */
  lemma PageIsSlice(books: seq<Book>, lo: nat, perPage: nat)
    ensures Slice(books, lo, lo + perPage) == books[Cut(lo, |books|)..Cut(lo + perPage, |books|)]
  {
  }

  lemma PrefixThenSlice(books: seq<Book>, a: nat, b: nat)
    requires a <= b <= |books|
    ensures books[..a] + books[a..b] == books[..b]
  {
  }

  /** The pages partition the list: laid end to end, pages 1 to
      TotalPages give back every book in order, and each page holds at
      most a page's worth. */
  lemma PagesPartition(books: seq<Book>, perPage: nat)
    requires perPage >= 1
    ensures PagesUpTo(books, perPage, TotalPages(|books|, perPage)) == books
    ensures forall p :: 1 <= p ==> |PageBooks(books, p, perPage)| <= perPage
  {
    PagesUpToPrefix(books, perPage, TotalPages(|books|, perPage));
  }

  /** Every page up to the last is full except perhaps the last one,
      which is non-empty. */
  lemma PageSizesWithinRange(books: seq<Book>, perPage: nat, page: int)
    requires perPage >= 1 && 1 <= page <= TotalPages(|books|, perPage)
    ensures page < TotalPages(|books|, perPage) ==> |PageBooks(books, page, perPage)| == perPage
    ensures PageBooks(books, page, perPage) != []
  {
    var t := TotalPages(|books|, perPage);
    var start := StartIndex(page, perPage);
    MulMonotonic(page - 1, t - 1, perPage);
    assert start < |books|;
    if page < t {
      MulMonotonic(page, t - 1, perPage);
      assert start + perPage == page * perPage;
      assert start + perPage <= |books|;
    }
    assert PageBooks(books, page, perPage)[0] == books[start];
  }

  lemma MulMonotonic(a: nat, b: nat, c: nat)
    requires a <= b
    ensures a * c <= b * c
  {
  }

  /** The previous control: one page back, never below 1. */
  function Previous(page: int): (p: int)
    ensures p >= 1
    ensures page > 1 ==> p == page - 1
  {
    if page - 1 > 1 then page - 1 else 1
  }

  /** The next control: one page on, never beyond the last page. */
  function Next(page: int, totalPages: nat): (p: int)
    ensures p <= totalPages
    ensures page < totalPages ==> p == page + 1
  {
    if page + 1 < totalPages then page + 1 else totalPages
  }

  predicate PreviousDisabled(page: int) { page == 1 }
  predicate NextDisabled(page: int, totalPages: nat) { page == totalPages }
  /** The pagination controls render only when there is more than one page. */
  predicate ControlsShown(totalPages: nat) { totalPages > 1 }

  /** Within the page range, each control is disabled exactly at the
      bound it would otherwise clamp against. */
  lemma ControlsClampAtBounds(page: int, totalPages: nat)
    requires 1 <= page <= totalPages
    ensures PreviousDisabled(page) <==> Previous(page) == page
    ensures NextDisabled(page, totalPages) <==> Next(page, totalPages) == page
    ensures 1 <= Previous(page) <= totalPages && 1 <= Next(page, totalPages) <= totalPages
  {
  }

  /** The page number as intended: kept within 1..totalPages so that a
      list that shrank under the current page still shows its last page. */
  function ClampedPage(page: int, totalPages: nat): (p: int)
    requires page >= 1
    ensures p >= 1
    ensures totalPages >= 1 ==> p <= totalPages
    ensures 1 <= page <= totalPages ==> p == page
  {
    if page <= totalPages || totalPages == 0 then page else totalPages
  }

  /** The books shown as intended: the page of the clamped page number. */
  function VisibleBooks(books: seq<Book>, page: int, perPage: nat): (r: seq<Book>)
    requires page >= 1 && perPage >= 1
    ensures r == [] <==> books == []
    ensures 1 <= page <= TotalPages(|books|, perPage) ==> r == PageBooks(books, page, perPage)
  {
    var t := TotalPages(|books|, perPage);
    var r := PageBooks(books, ClampedPage(page, t), perPage);
    assert books != [] ==> r != [] by {
      if books != [] {
        PageSizesWithinRange(books, perPage, ClampedPage(page, t));
      }
    }
    r
  }

  /** As written, deleting the only book on the last page leaves the list
      on an empty page: 13 books at 12 a page, page 2, one deleted. The
      page shows nothing, the controls that could move back are hidden, and
      the "No books found" notice stays off because the list is not empty. */
  lemma StalePageAfterDelete(books: seq<Book>)
    requires |books| == 13
    ensures PageBooks(books, 2, 12) == books[12..]
    ensures PageBooks(books[..12], 2, 12) == []
    ensures TotalPages(|books[..12]|, 12) == 1 && !ControlsShown(TotalPages(|books[..12]|, 12))
    ensures books[..12] != []
    ensures VisibleBooks(books[..12], 2, 12) == books[..12]
  {
    assert PageBooks(books[..12], 1, 12) == books[..12];
  }

  /** A row reads "Available" when the book is available and has copies. */
  predicate ShowsAvailable(b: Book) { b.available && b.copies > 0 }

  /** A row's Borrow button is disabled when the book is unavailable or
      has no copies. */
  predicate BorrowDisabled(b: Book) { !b.available || b.copies == 0 }

  /** For a non-negative count, Borrow is enabled exactly on the rows that
      read "Available"; a negative count would show "Unavailable" with
      Borrow enabled. */
  lemma BorrowEnabledIffAvailable(b: Book)
    ensures b.copies >= 0 ==> (BorrowDisabled(b) <==> !ShowsAvailable(b))
    ensures b.available && b.copies < 0 ==> !BorrowDisabled(b) && !ShowsAvailable(b)
  {
  }

  /** `handleDelete`: the delete request's failure is caught and reported,
      never rethrown, so the promise it returns always resolves. */
  function HandleDelete(deleteOutcome: Outcome): (r: Outcome)
    ensures r == Resolved
  {
    match deleteOutcome
    case Resolved => Resolved
    case Rejected => Resolved
  }

  /** The id and title handed to the delete modal: `bookToDelete?._id || ""`
      and likewise for the title. An absent book gives "" for each; a present
      one gives its own fields, since `x || ""` is `x` for any string `x`
      (an empty field falls back to "", which is itself). */
  function DeleteTarget(selected: Option<Book>): (t: (string, string))
    ensures selected.None? ==> t == ("", "")
    ensures selected.Some? ==> t == (selected.value.id, selected.value.title)
  {
    match selected
    case None => ("", "")
    case Some(b) => (b.id, b.title)
  }

  /** Deleting from the list: the page's handler is the modal's confirm
      callback. With no book selected nothing is sent and the modal stays
      as it was; with a book whose id and title are set, one `onConfirm`
      call is made and the modal closes whether the request succeeded or
      failed, because the handler swallows the failure. */
  method DeleteFromList(m: DeleteBookModal.DeleteModal, selected: Option<Book>, deleteOutcome: Outcome)
    returns (calls: seq<DeleteBookModal.Call>)
    requires m.Valid() && !m.loading && m.pending.None?
    modifies m
    ensures m.Valid() && !m.loading
    ensures selected.None? ==> calls == [] && m.isOpen == old(m.isOpen)
    ensures selected.Some? && selected.value.id != "" && selected.value.title != "" ==>
      && calls == [DeleteBookModal.ConfirmCalled(selected.value.id, selected.value.title), DeleteBookModal.CloseCalled]
      && !m.isOpen
  {
    var target := DeleteTarget(selected);
    calls := DeleteBookModal.HandleConfirm(m, target.0, target.1, true, HandleDelete(deleteOutcome));
    if selected.Some? && selected.value.id != "" && selected.value.title != "" {
      assert DeleteBookModal.CloseCalled in calls;
      assert calls[0] != DeleteBookModal.CloseCalled;
      assert |calls| == 2 && calls[1] == DeleteBookModal.CloseCalled;
    }
  }

  /** The pager state: the current page and the page size. */
  class BookListPager {
    var currentPage: int
    var itemsPerPage: int

    ghost predicate Valid()
      reads this
    {
      currentPage >= 1 && itemsPerPage in PageSizes
    }

    /** First visit: page 1, twelve a page. */
    constructor ()
      ensures Valid() && currentPage == 1 && itemsPerPage == 12
    {
      currentPage := 1;
      itemsPerPage := 12;
    }

    /** The books the page shows for the current list, as written: the
        slice at the current page, which is empty once the page lies past
        the last one. */
    function Visible(books: seq<Book>): (r: seq<Book>)
      reads this
      requires Valid()
      ensures |r| <= itemsPerPage
      ensures currentPage <= TotalPages(|books|, itemsPerPage) ==> r != []
      ensures currentPage > TotalPages(|books|, itemsPerPage) ==> r == []
    {
      var t := TotalPages(|books|, itemsPerPage);
      var r := PageBooks(books, currentPage, itemsPerPage);
      assert currentPage <= t ==> r != [] by {
        if currentPage <= t {
          PageSizesWithinRange(books, itemsPerPage, currentPage);
        }
      }
      assert currentPage > t ==> r == [] by {
        if currentPage > t {
          MulMonotonic(t, currentPage - 1, itemsPerPage);
        }
      }
      r
    }

    /** The books shown as intended: never an empty page while the list
        has books, and the same page as written wherever the current page
        is in range. */
    function VisibleAsIntended(books: seq<Book>): (r: seq<Book>)
      reads this
      requires Valid()
      ensures |r| <= itemsPerPage
      ensures r == [] <==> books == []
      ensures currentPage <= TotalPages(|books|, itemsPerPage) ==> r == Visible(books)
    {
      VisibleBooks(books, currentPage, itemsPerPage)
    }

    /** Previous (rendered only with more than one page, disabled on
        page 1): one page back. */
    method ClickPrevious(total: nat)
      requires Valid() && ControlsShown(TotalPages(total, itemsPerPage)) && !PreviousDisabled(currentPage)
      modifies this
      ensures Valid()
      ensures currentPage == old(currentPage) - 1 && itemsPerPage == old(itemsPerPage)
    {
      currentPage := Previous(currentPage);
    }

    /** Next (rendered only with more than one page, disabled on the last
        page): one page on, but never beyond the last. */
    method ClickNext(total: nat)
      requires Valid() && ControlsShown(TotalPages(total, itemsPerPage))
      requires !NextDisabled(currentPage, TotalPages(total, itemsPerPage))
      modifies this
      ensures Valid()
      ensures currentPage <= TotalPages(total, itemsPerPage)
      ensures old(currentPage) < TotalPages(total, itemsPerPage) ==> currentPage == old(currentPage) + 1
      ensures itemsPerPage == old(itemsPerPage)
    {
      currentPage := Next(currentPage, TotalPages(total, itemsPerPage));
    }

    /** Choosing a page size goes back to page 1. */
    method SelectPageSize(size: int)
      requires Valid() && size in PageSizes
      modifies this
      ensures Valid()
      ensures itemsPerPage == size && currentPage == 1
    {
      itemsPerPage := size;
      currentPage := 1;
    }
  }
}
