/** Concrete runs of the library and of a reservation heap, each pinned down by the contracts
    of the operations it calls. */
module Scenarios {
  import opened Wrappers
  import opened MinHeaps
  import opened Records
  import opened Llrb
  import opened Library

  /** A heap holding (1, 2, 0), (2, 1, 1) and (3, 1, 2), inserted in that order. */
  method ThreeReservations() returns (h: MinHeap)
    ensures fresh(h) && h.Valid()
    ensures h.Items() == multiset{Reservation(1, 2, 0), Reservation(2, 1, 1), Reservation(3, 1, 2)}
  {
    h := new MinHeap();
    h.Insert(Reservation(1, 2, 0));
    h.Insert(Reservation(2, 1, 1));
    h.Insert(Reservation(3, 1, 2));
  }

  /** The first extraction takes patron 2: priority 1 beats priority 2, and arrival 1 beats
      arrival 2. */
  method FirstOut() returns (h: MinHeap, first: Option<Reservation>)
    ensures fresh(h) && h.Valid() && first == Some(Reservation(2, 1, 1))
    ensures h.Items() == multiset{Reservation(1, 2, 0), Reservation(3, 1, 2)}
  {
    h := ThreeReservations();
    first := h.ExtractMin();
  }

  /** Reservations leave the heap by priority, and among equal priorities by arrival:
      (1, 2, 0), (2, 1, 1), (3, 1, 2) come out as patron 2, patron 3, patron 1. */
  method HeapOrdersByPriorityThenArrival() returns (first: Option<Reservation>,
      second: Option<Reservation>, third: Option<Reservation>, fourth: Option<Reservation>)
    ensures first == Some(Reservation(2, 1, 1))
    ensures second == Some(Reservation(3, 1, 2))
    ensures third == Some(Reservation(1, 2, 0))
    ensures fourth == None
  {
    var h;
    h, first := FirstOut();
    second := h.ExtractMin();
    assert h.Items() == multiset{Reservation(1, 2, 0)};
    third := h.ExtractMin();
    assert |h.heap| == 1;
    fourth := h.ExtractMin();
  }

  /** A library holding one available book with id 1. */
  method OneBook() returns (lib: GatorLibrary, book: Book)
    ensures fresh(lib) && fresh(book) && fresh(book.reservationHeap) && lib.Valid() && lib.Shelf() == {book} && lib.clock == 0
    ensures book.bookId == 1 && book.availabilityStatus == "Yes" && book.borrowedBy == None
    ensures book.reservationHeap.Valid() && book.reservationHeap.Items() == multiset{}
    ensures lib.Copies(1) == {book}
  {
    lib := new GatorLibrary();
    lib.InsertBook(1, "Title", "Author", "Yes");
    book := Lookup(lib.bookTree.root, 1).value;
  }

  /** Patron 10 borrows the available book 1. */
  method LentOut() returns (lib: GatorLibrary, book: Book, lent: BorrowOutcome)
    ensures fresh(lib) && fresh(book) && fresh(book.reservationHeap) && lib.Valid()
    ensures lib.Shelf() == {book} && book.bookId == 1 && lib.clock == 0 && lent == Lent
    ensures book.availabilityStatus == "No" && book.borrowedBy == Some(10)
    ensures book.reservationHeap.Items() == multiset{}
  {
    lib, book := OneBook();
    lent := lib.BorrowBook(10, 1, 1);
  }

  /** While book 1 is lent, patron 20 asks for it with priority 2 and is queued with arrival
      number 0. */
  method OneReserved() returns (lib: GatorLibrary, book: Book, r20: BorrowOutcome)
    ensures fresh(lib) && fresh(book) && fresh(book.reservationHeap) && lib.Valid()
    ensures lib.Shelf() == {book} && book.bookId == 1 && lib.clock == 1 && r20 == Reserved
    ensures book.availabilityStatus == "No" && book.borrowedBy == Some(10)
    ensures book.reservationHeap.Items() == multiset{Reservation(20, 2, 0)}
  {
    var lent;
    lib, book, lent := LentOut();
    assert book in lib.Copies(1);
    r20 := lib.BorrowBook(20, 1, 2);
  }

  /** Patron 10 borrows book 1, then patrons 20 (priority 2) and 30 (priority 1) reserve it,
      in that order. */
  method LentAndReserved() returns (lib: GatorLibrary, book: Book, r30: BorrowOutcome)
    ensures fresh(lib) && fresh(book) && fresh(book.reservationHeap) && lib.Valid()
    ensures lib.Shelf() == {book} && book.bookId == 1 && lib.clock == 2 && r30 == Reserved
    ensures book.availabilityStatus == "No" && book.borrowedBy == Some(10)
    ensures book.reservationHeap.Items() == multiset{Reservation(20, 2, 0), Reservation(30, 1, 1)}
  {
    var r20;
    lib, book, r20 := OneReserved();
    assert book in lib.Copies(1);
    r30 := lib.BorrowBook(30, 1, 1);
  }

  /** Deleting the book of `LentAndReserved` cancels the reservations of 30 and then 20:
      priority 1 comes before priority 2 whatever the arrival order. */
  method DeleteCancelsInHeapOrder() returns (cancelled: Option<seq<int>>)
    ensures cancelled == Some([30, 20])
  {
    var lib, book, _ := LentAndReserved();
    assert book in lib.Copies(1) && 1 in Keys(lib.bookTree.root);
    ghost var drained;
    cancelled, drained := lib.DeleteBook(1);
    TwoInOrder(drained, Reservation(30, 1, 1), Reservation(20, 2, 0));
    assert cancelled.value == [30, 20];
  }

  /** Patron 20 tries to return the book of `LentAndReserved` and is refused: it is not the
      borrower. Nothing changes. */
  method RefusedReturn() returns (lib: GatorLibrary, book: Book, byStranger: ReturnOutcome)
    ensures fresh(lib) && fresh(book) && fresh(book.reservationHeap) && lib.Valid()
    ensures lib.Shelf() == {book} && book.bookId == 1 && byStranger == Rejected
    ensures book.availabilityStatus == "No" && book.borrowedBy == Some(10)
    ensures book.reservationHeap.Items() == multiset{Reservation(20, 2, 0), Reservation(30, 1, 1)}
  {
    var r30;
    lib, book, r30 := LentAndReserved();
    assert book in lib.Copies(1);
    byStranger := lib.ReturnBook(20, 1);
  }

  /** The borrower 10 then returns it, and it goes to 30, whose priority 1 beats 20's
      priority 2. */
  method FirstReturns() returns (lib: GatorLibrary, book: Book, byStranger: ReturnOutcome,
      first: ReturnOutcome)
    ensures fresh(lib) && fresh(book) && fresh(book.reservationHeap) && lib.Valid()
    ensures lib.Shelf() == {book} && book.bookId == 1
    ensures byStranger == Rejected && first == Reallocated(Reservation(30, 1, 1))
    ensures book.availabilityStatus == "No" && book.borrowedBy == Some(30)
    ensures book.reservationHeap.Items() == multiset{Reservation(20, 2, 0)}
  {
    lib, book, byStranger := RefusedReturn();
    assert book in lib.Copies(1);
    first := lib.ReturnBook(10, 1);
    assert first.next in multiset{Reservation(20, 2, 0), Reservation(30, 1, 1)};
  }

  /** Returns of the book of `LentAndReserved`: only the current borrower is accepted, each
      accepted return hands the book to the best remaining reservation, and the last one
      makes the book available again, after which nobody can return it. */
  method ReturnsHandOnInHeapOrder() returns (byStranger: ReturnOutcome, first: ReturnOutcome,
      second: ReturnOutcome, third: ReturnOutcome, again: ReturnOutcome)
    ensures byStranger == Rejected
    ensures first == Reallocated(Reservation(30, 1, 1))
    ensures second == Reallocated(Reservation(20, 2, 0))
    ensures third == NowAvailable
    ensures again == Rejected
  {
    var lib, book;
    lib, book, byStranger, first := FirstReturns();
    assert lib.Copies(1) == {book};
    second := lib.ReturnBook(30, 1);
    assert lib.Copies(1) == {book};
    assert book.borrowedBy == Some(20) && book.reservationHeap.Items() == multiset{};
    third := lib.ReturnBook(20, 1);
    assert lib.Copies(1) == {book};
    again := lib.ReturnBook(20, 1);
  }

  /** A library holding books 10 and 20, both available. */
  method TwoBooks() returns (lib: GatorLibrary, b10: Book, b20: Book)
    ensures fresh(lib) && lib.Valid() && lib.Shelf() == {b10, b20}
    ensures b10.bookId == 10 && b20.bookId == 20
  {
    lib := new GatorLibrary();
    lib.InsertBook(10, "Ten", "Author", "Yes");
    b10 := Lookup(lib.bookTree.root, 10).value;
    lib.InsertBook(20, "Twenty", "Author", "Yes");
    b20 := Lookup(lib.bookTree.root, 20).value;
  }

  /** Target 15 lies as far from 10 as from 20, so both books are reported. */
  method ClosestTie() returns (tie: seq<Book>)
    ensures |tie| == 2 && {tie[0].bookId, tie[1].bookId} == {10, 20}
  {
    var lib, b10, b20 := TwoBooks();
    tie := lib.FindClosestBook(15);
    assert Nearest(15, b10, lib.Shelf()) && Nearest(15, b20, lib.Shelf());
    ExactlyTwo(tie, b10, b20);
  }

  /** Target 12 is nearest to 10 alone, and a target that is present is reported alone. */
  method ClosestSingles() returns (near: seq<Book>, exact: seq<Book>)
    ensures |near| == 1 && near[0].bookId == 10
    ensures |exact| == 1 && exact[0].bookId == 20
  {
    var lib, b10, b20 := TwoBooks();
    near := lib.FindClosestBook(12);
    assert !Nearest(12, b20, lib.Shelf()) by {
      assert b10 in lib.Shelf();
    }
    ExactlyOne(near, b10, b20);
    exact := lib.FindClosestBook(20);
  }

  /** A list of distinct ids drawn from two books and holding both has length two. */
  lemma ExactlyTwo(s: seq<Book>, a: Book, b: Book)
    requires a in s && b in s && a.bookId != b.bookId
    requires forall y :: y in s ==> y == a || y == b
    requires forall i, j :: 0 <= i < j < |s| ==> s[i].bookId != s[j].bookId
    ensures |s| == 2 && {s[0].bookId, s[1].bookId} == {a.bookId, b.bookId}
  {
    assert |s| >= 2;
    var k := if |s| > 2 then 2 else 1;
    assert s[0] in s && s[1] in s && s[k] in s;
  }

  /** A non-empty list of distinct ids drawn from two books and missing the second holds
      just the first. */
  lemma ExactlyOne(s: seq<Book>, a: Book, b: Book)
    requires s != [] && b !in s
    requires forall y :: y in s ==> y == a || y == b
    requires forall i, j :: 0 <= i < j < |s| ==> s[i].bookId != s[j].bookId
    ensures |s| == 1 && s[0] == a
  {
    var k := if |s| > 1 then 1 else 0;
    assert s[0] in s && s[k] in s;
  }

  /** Two reservations, the first preceding the second, drained in extraction order. */
  lemma TwoInOrder(drained: seq<Reservation>, a: Reservation, b: Reservation)
    requires multiset(drained) == multiset{b, a} && Precedes(a, b)
    requires forall i, j :: 0 <= i < j < |drained| ==> NoLater(drained[i], drained[j])
    ensures drained == [a, b]
  {
    assert |drained| == 2;
    assert drained[0] in multiset(drained) && drained[1] in multiset(drained);
  }
}
