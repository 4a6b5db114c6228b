/** The lending rules of the library and the nearest-id search, over the tree of books and
    each book's reservation heap. */
module Library {
  import opened Wrappers
  import opened MinHeaps
  import opened Records
  import opened Llrb
  import opened RedBlackTrees

  datatype BorrowOutcome = Lent | Reserved | BookMissing

  datatype ReturnOutcome = Rejected | NowAvailable | Reallocated(next: Reservation)

  function Abs(x: int): nat {
    if x < 0 then -x else x
  }

  ghost function HeapsOf(books: set<Book>): set<MinHeap> {
    set y | y in books :: y.reservationHeap
  }

  /** Every book's heap is a heap and no two books share one. */
  ghost predicate HeapsReady(books: set<Book>)
    reads HeapsOf(books)
  {
    && (forall y :: y in books ==> y.reservationHeap.Valid())
    && (forall y, z :: y in books && z in books && y != z ==> y.reservationHeap != z.reservationHeap)
  }

  /** Fewer books keep the heaps ready. */
  lemma ReadySubset(books: set<Book>, fewer: set<Book>)
    requires fewer <= books && HeapsReady(books)
    ensures HeapsReady(fewer)
  {
  }

  /** A ready set of books splits into one book and the rest, whose heaps do not include
      that book's heap. */
  lemma ReadySplit(books: set<Book>, y: Book)
    requires y in books && HeapsReady(books)
    ensures HeapsReady(books - {y}) && y.reservationHeap !in HeapsOf(books - {y})
    ensures y.reservationHeap.Valid()
  {
  }

  /** The converse of the split: a book whose heap is ready and is not among the others' joins
      them. */
  lemma ReadyJoin(books: set<Book>, y: Book)
    requires HeapsReady(books) && y.reservationHeap !in HeapsOf(books) && y.reservationHeap.Valid()
    ensures HeapsReady(books + {y})
  {
  }

  /** The split undone: a book of `books` whose heap is ready again and still not among the
      others' makes the whole set ready. */
  lemma ReadyRejoin(books: set<Book>, y: Book)
    requires y in books && HeapsReady(books - {y}) && y.reservationHeap !in HeapsOf(books - {y})
    requires y.reservationHeap.Valid()
    ensures HeapsReady(books)
  {
    assert books == books - {y} + {y};
    ReadyJoin(books - {y}, y);
  }

  /** Heaps that did not change keep the books ready. */
  twostate lemma ReadyKept(books: set<Book>)
    requires old(HeapsReady(books))
    requires forall y :: y in books ==> old(allocated(y.reservationHeap)) && unchanged(y.reservationHeap)
    ensures HeapsReady(books)
  {
  }

  /** No book of `books` has an id closer to `target` than `y` has. */
  ghost predicate Nearest(target: int, y: Book, books: set<Book>) {
    forall z :: z in books ==> Abs(target - y.bookId) <= Abs(target - z.bookId)
  }

  class GatorLibrary {
    const bookTree: RedBlackTree
    /** Arrival order of reservations; stands in for the wall clock. */
    var clock: nat

    /** The books the tree holds. */
    ghost function Shelf(): set<Book>
      reads this, bookTree
    {
      Books(bookTree.root)
    }

    /** The books the tree holds under id `id` (at most one in a valid library). */
    ghost function Copies(id: int): set<Book>
      reads this, bookTree
    {
      set y | y in Shelf() && y.bookId == id
    }

    /** The tree is a search tree and the heaps of its books are ready for lending. */
    ghost predicate Valid()
      reads this, bookTree, HeapsOf(Shelf())
    {
      bookTree.Valid() && HeapsReady(Shelf())
    }

    constructor ()
      ensures Valid() && fresh(bookTree) && Shelf() == {} && clock == 0
      ensures bookTree.colorFlips == 0
    {
      bookTree := new RedBlackTree();
      clock := 0;
    }

    /** `insert_book`: a new book with an empty heap and no borrower is put into the tree; an
        id already present keeps its book. */
    method InsertBook(bookId: int, bookName: string, authorName: string, availabilityStatus: string)
      requires Valid()
      modifies bookTree
      ensures Valid()
      ensures Keys(bookTree.root) == old(Keys(bookTree.root)) + {bookId}
      ensures bookId in old(Keys(bookTree.root)) ==>
        Shelf() == old(Shelf()) && Lookup(bookTree.root, bookId) == old(Lookup(bookTree.root, bookId))
      ensures bookId !in old(Keys(bookTree.root)) ==>
        && Lookup(bookTree.root, bookId).Some?
        && var y := Lookup(bookTree.root, bookId).value;
        && fresh(y) && fresh(y.reservationHeap) && Shelf() == old(Shelf()) + {y}
        && y.bookName == bookName && y.authorName == authorName
        && y.availabilityStatus == availabilityStatus && y.borrowedBy == None
        && y.reservationHeap.Valid() && y.reservationHeap.Items() == multiset{}
      ensures bookTree.colorFlips >= old(bookTree.colorFlips)
    {
      BooksAllocated(bookTree.root);
      ghost var shelf := Shelf();
      var book := new Book(bookId, bookName, authorName, availabilityStatus);
      ghost var after := if bookId in Keys(bookTree.root) then shelf else shelf + {book};
      ReadyJoin(shelf, book);
      label BeforePut:
      bookTree.Put(book);
      assert Shelf() == after;
      ReadyKept@BeforePut(after);
    }

    /** `borrow_book`: an available book is lent to the patron; otherwise the request joins
        the book's heap with the next arrival number. An absent id, where library.py fails on
        a missing node, changes nothing. */
    method BorrowBook(patronId: int, bookId: int, priority: int) returns (outcome: BorrowOutcome)
      requires Valid()
      modifies this, Copies(bookId), HeapsOf(Copies(bookId))
      ensures Valid() && Shelf() == old(Shelf())
      ensures outcome == BookMissing <==> bookId !in Keys(bookTree.root)
      ensures outcome == BookMissing ==> clock == old(clock)
      ensures forall y :: y in Copies(bookId) && old(y.availabilityStatus) == "Yes" ==>
        && outcome == Lent && clock == old(clock)
        && y.availabilityStatus == "No" && y.borrowedBy == Some(patronId)
        && y.reservationHeap.heap == old(y.reservationHeap.heap)
      ensures forall y :: y in Copies(bookId) && old(y.availabilityStatus) != "Yes" ==>
        && outcome == Reserved && clock == old(clock) + 1
        && y.availabilityStatus == old(y.availabilityStatus) && y.borrowedBy == old(y.borrowedBy)
        && y.reservationHeap.Items() ==
           old(y.reservationHeap.Items()) + multiset{Reservation(patronId, priority, old(clock))}
    {
      LookupCorrect(bookTree.root, bookId);
      BooksAllocated(bookTree.root);
      var found := bookTree.Get(bookId);
      ReadyKept(Shelf());
      if found.Some? && found.value.availabilityStatus == "Yes" {
        var book := found.value;
        book.availabilityStatus := "No";
        book.borrowedBy := Some(patronId);
        outcome := Lent;
      } else if found.Some? {
        var book := found.value;
        ReadySplit(Shelf(), book);
        label Split:
        book.reservationHeap.Insert(Reservation(patronId, priority, clock));
        clock := clock + 1;
        ReadyKept@Split(Shelf() - {book});
        ReadyRejoin(Shelf(), book);
        outcome := Reserved;
      } else {
        outcome := BookMissing;
      }
    }

    /** `return_book`: only the current borrower of a lent book may return it; the book then
        goes straight to the best reservation, or becomes available when there is none. */
    method ReturnBook(patronId: int, bookId: int) returns (outcome: ReturnOutcome)
      requires Valid()
      modifies Copies(bookId), HeapsOf(Copies(bookId))
      ensures Valid() && Shelf() == old(Shelf())
      ensures bookId !in Keys(bookTree.root) ==> outcome == Rejected
      ensures forall y :: y in Copies(bookId) ==>
        (outcome != Rejected <==> old(y.availabilityStatus) == "No" && old(y.borrowedBy) == Some(patronId))
      ensures forall y :: y in Copies(bookId) && outcome == Rejected ==>
        && y.availabilityStatus == old(y.availabilityStatus) && y.borrowedBy == old(y.borrowedBy)
        && y.reservationHeap.heap == old(y.reservationHeap.heap)
      ensures forall y :: y in Copies(bookId) && outcome == NowAvailable ==>
        && old(y.reservationHeap.Items()) == multiset{}
        && y.availabilityStatus == "Yes" && y.borrowedBy == old(y.borrowedBy)
        && y.reservationHeap.heap == old(y.reservationHeap.heap)
      ensures forall y :: y in Copies(bookId) && outcome.Reallocated? ==>
        && outcome.next in old(y.reservationHeap.Items())
        && (forall r :: r in old(y.reservationHeap.Items()) ==> NoLater(outcome.next, r))
        && y.reservationHeap.Items() == old(y.reservationHeap.Items()) - multiset{outcome.next}
        && y.availabilityStatus == "No" && y.borrowedBy == Some(outcome.next.patronId)
    {
      LookupCorrect(bookTree.root, bookId);
      BooksAllocated(bookTree.root);
      var found := bookTree.Get(bookId);
      ReadyKept(Shelf());
      if found.Some? && found.value.availabilityStatus == "No" && found.value.borrowedBy == Some(patronId) {
        var book := found.value;
        ReadySplit(Shelf(), book);
        label Split:
        outcome := HandOn(book);
        ReadyKept@Split(Shelf() - {book});
        ReadyRejoin(Shelf(), book);
      } else {
        outcome := Rejected;
      }
    }

    /** The accepted half of `return_book`: the book goes straight to the best reservation,
        or becomes available when there is none. */
    method HandOn(book: Book) returns (outcome: ReturnOutcome)
      requires book.reservationHeap.Valid()
      modifies book, book.reservationHeap
      ensures book.reservationHeap.Valid() && outcome != Rejected
      ensures outcome == NowAvailable ==>
        && old(book.reservationHeap.Items()) == multiset{}
        && book.availabilityStatus == "Yes" && book.borrowedBy == old(book.borrowedBy)
        && book.reservationHeap.heap == old(book.reservationHeap.heap)
      ensures outcome.Reallocated? ==>
        && outcome.next in old(book.reservationHeap.Items())
        && (forall r :: r in old(book.reservationHeap.Items()) ==> NoLater(outcome.next, r))
        && book.reservationHeap.Items() == old(book.reservationHeap.Items()) - multiset{outcome.next}
        && book.availabilityStatus == "No" && book.borrowedBy == Some(outcome.next.patronId)
    {
      book.availabilityStatus := "Yes";
      // library.py clears the borrower on the tree node here, not on the book.
      if !book.reservationHeap.IsEmpty() {
        var next := book.reservationHeap.ExtractMin();
        book.availabilityStatus := "No";
        book.borrowedBy := Some(next.value.patronId);
        outcome := Reallocated(next.value);
      } else {
        outcome := NowAvailable;
      }
    }

    /** `delete_book`: drains the book's heap in extraction order, collecting the patrons of
        the cancelled reservations, then deletes the id from the tree. An absent id changes
        nothing. */
    method DeleteBook(bookId: int) returns (cancelled: Option<seq<int>>, ghost drained: seq<Reservation>)
      requires Valid()
      modifies bookTree, HeapsOf(Copies(bookId))
      ensures Valid()
      ensures cancelled.None? <==> bookId !in old(Keys(bookTree.root))
      ensures cancelled.None? ==>
        bookTree.root == old(bookTree.root) && bookTree.colorFlips == old(bookTree.colorFlips)
      ensures Keys(bookTree.root) == old(Keys(bookTree.root)) - {bookId}
      ensures forall y :: y in Shelf() ==> y in old(Shelf()) && y.bookId != bookId
      ensures forall y :: y in old(Shelf()) && y.bookId != bookId ==> y in Shelf()
      ensures cancelled.Some? ==>
        && |cancelled.value| == |drained|
        && (forall i :: 0 <= i < |drained| ==> cancelled.value[i] == drained[i].patronId)
        && (forall i, j :: 0 <= i < j < |drained| ==> NoLater(drained[i], drained[j]))
      ensures forall y :: y in old(Copies(bookId)) ==>
        && y.reservationHeap.Valid() && y.reservationHeap.Items() == multiset{}
        && multiset(drained) == old(y.reservationHeap.Items())
      ensures bookTree.colorFlips >= old(bookTree.colorFlips)
    {
      LookupCorrect(bookTree.root, bookId);
      BooksAllocated(bookTree.root);
      var found := bookTree.Get(bookId);
      ReadyKept(Shelf());
      if found.None? {
        return None, [];
      }
      var book := found.value;
      ReadySplit(Shelf(), book);
      ghost var rest := Shelf() - {book};
      label Split:
      var patrons;
      patrons, drained := Drain(book.reservationHeap);
      bookTree.Delete(bookId);
      ReadyKept@Split(rest);
      ReadySubset(rest, Shelf());
      cancelled := Some(patrons);
    }

    /** `find_closest_book`, without the printing: the books at the smallest id distance
        from `targetId`. */
    method FindClosestBook(targetId: int) returns (closest: seq<Book>)
      requires Valid()
      ensures closest != [] <==> bookTree.root.Node?
      ensures forall y :: y in closest ==> y in Shelf() && Nearest(targetId, y, Shelf())
      ensures forall y :: y in Shelf() && Nearest(targetId, y, Shelf()) ==> y in closest
      ensures forall i, j :: 0 <= i < j < |closest| ==> closest[i].bookId != closest[j].bookId
      ensures targetId in Keys(bookTree.root) ==> |closest| == 1 && closest[0].bookId == targetId
    {
      closest := ClosestIn(bookTree.root, targetId);
    }
  }

  /** The search of `find_closest_book`: one path from the root towards the target,
      keeping every book seen at the smallest distance so far. */
  method ClosestIn(root: Tree, targetId: int) returns (closest: seq<Book>)
    requires Bst(root)
    ensures closest != [] <==> root.Node?
    ensures forall y :: y in closest ==> y in Books(root) && Nearest(targetId, y, Books(root))
    ensures forall y :: y in Books(root) && Nearest(targetId, y, Books(root)) ==> y in closest
    ensures forall i, j :: 0 <= i < j < |closest| ==> closest[i].bookId != closest[j].bookId
    ensures targetId in Keys(root) ==> |closest| == 1 && closest[0].bookId == targetId
  {
    closest := [];
    var distance: Option<nat> := None;
    var node := root;
    while node.Node?
      invariant Bst(node) && Books(node) <= Books(root)
      invariant Searching(Books(root), Keys(root), targetId, Keys(node), closest, distance)
      decreases node.Node?, node
    {
      ghost var (here, seen, best) := (node, closest, distance);
      var d := Abs(targetId - node.book.bookId);
      if distance.None? || d < distance.value {
        closest := [node.book];
        distance := Some(d);
      } else if d == distance.value {
        closest := closest + [node.book];
      }
      if targetId < node.book.bookId {
        node := node.left;
      } else if targetId > node.book.bookId {
        node := node.right;
      } else {
        // the Python code stops at an exact match
        node := Leaf;
      }
      VisitOnPath(root, here, targetId, node);
      SearchStep(Books(root), Keys(root), targetId, here.book, Keys(here), seen, best,
                 Keys(node), closest, distance);
    }
    SearchDone(Books(root), Keys(root), targetId, closest, distance);
  }

  /** The loop state of the search over the books `all` with ids `allKeys`: `ahead` holds the
      ids still below the current node, `distance` is the smallest distance among the books
      passed, and `closest` lists every passed book at that distance. */
  ghost predicate Searching(all: set<Book>, allKeys: set<int>, target: int, ahead: set<int>,
                            closest: seq<Book>, distance: Option<nat>)
  {
    (forall y :: y in all ==> y.bookId in allKeys) &&
    (distance.None? <==> closest == []) &&
    (distance.None? ==> ahead == allKeys) &&
    (ahead != {} ==> distance != Some(0)) &&
    (distance == Some(0) ==> |closest| == 1 && closest[0].bookId == target) &&
    (target in allKeys ==> target in ahead || distance == Some(0)) &&
    (forall y :: y in closest ==>
      y in all && y.bookId !in ahead && Abs(target - y.bookId) == distance.value) &&
    (forall i, j :: 0 <= i < j < |closest| ==> closest[i].bookId != closest[j].bookId) &&
    (distance.Some? ==> forall y :: y in all && y.bookId !in ahead ==>
      distance.value <= Abs(target - y.bookId) &&
      (distance.value == Abs(target - y.bookId) ==> y in closest))
  }

  /** What a visit of book `x` may rely on: it is one of the books, no two books share an id,
      and every id the path leaves behind is `x`'s own or farther from the target. */
  ghost predicate Visit(all: set<Book>, target: int, x: Book, ahead: set<int>, ahead': set<int>) {
    x in all && x.bookId in ahead && x.bookId !in ahead' && ahead' <= ahead &&
    (x.bookId == target ==> ahead' == {}) &&
    (forall y, z :: y in all && z in all && y.bookId == z.bookId ==> y == z) &&
    (forall k :: k in ahead && k !in ahead' ==>
      k == x.bookId || Abs(target - x.bookId) < Abs(target - k))
  }

  /** One visit of the search keeps its loop state. */
  lemma SearchStep(all: set<Book>, allKeys: set<int>, target: int, x: Book,
                   ahead: set<int>, closest: seq<Book>, distance: Option<nat>,
                   ahead': set<int>, closest': seq<Book>, distance': Option<nat>)
    requires Searching(all, allKeys, target, ahead, closest, distance)
    requires Visit(all, target, x, ahead, ahead')
    requires var d := Abs(target - x.bookId);
      if distance.None? || d < distance.value then closest' == [x] && distance' == Some(d)
      else if d == distance.value then closest' == closest + [x] && distance' == distance
      else closest' == closest && distance' == distance
    ensures Searching(all, allKeys, target, ahead', closest', distance')
  {
    var d := Abs(target - x.bookId);
    if distance.None? || d < distance.value {
      StepCloser(all, allKeys, target, x, ahead, closest, distance, ahead', closest', distance');
    } else if d == distance.value {
      StepTie(all, allKeys, target, x, ahead, closest, distance, ahead', closest', distance');
    }
  }

  /** The visited book is strictly nearer than every book passed before it. */
  lemma StepCloser(all: set<Book>, allKeys: set<int>, target: int, x: Book,
                   ahead: set<int>, closest: seq<Book>, distance: Option<nat>,
                   ahead': set<int>, closest': seq<Book>, distance': Option<nat>)
    requires Searching(all, allKeys, target, ahead, closest, distance)
    requires Visit(all, target, x, ahead, ahead')
    requires var d := Abs(target - x.bookId);
      (distance.None? || d < distance.value) && closest' == [x] && distance' == Some(d)
    ensures Searching(all, allKeys, target, ahead', closest', distance')
  {
    forall y | y in all && y.bookId !in ahead'
      ensures distance'.value <= Abs(target - y.bookId)
      ensures distance'.value == Abs(target - y.bookId) ==> y in closest'
    {
      if y.bookId == x.bookId {
        assert y == x;
      }
    }
  }

  /** The visited book ties with the nearest books passed before it. */
  lemma StepTie(all: set<Book>, allKeys: set<int>, target: int, x: Book,
                ahead: set<int>, closest: seq<Book>, distance: Option<nat>,
                ahead': set<int>, closest': seq<Book>, distance': Option<nat>)
    requires Searching(all, allKeys, target, ahead, closest, distance)
    requires Visit(all, target, x, ahead, ahead')
    requires distance.Some? && Abs(target - x.bookId) == distance.value
    requires closest' == closest + [x] && distance' == distance
    ensures Searching(all, allKeys, target, ahead', closest', distance')
  {
    forall y | y in all && y.bookId !in ahead'
      ensures distance'.value <= Abs(target - y.bookId)
      ensures distance'.value == Abs(target - y.bookId) ==> y in closest'
    {
      if y.bookId == x.bookId {
        assert y == x;
      }
    }
  }

  /** Once no ids are ahead, the state says what `find_closest_book` reports. */
  lemma SearchDone(all: set<Book>, allKeys: set<int>, target: int, closest: seq<Book>,
                   distance: Option<nat>)
    requires Searching(all, allKeys, target, {}, closest, distance)
    ensures closest != [] <==> allKeys != {}
    ensures forall y :: y in closest ==> y in all && Nearest(target, y, all)
    ensures forall y :: y in all && Nearest(target, y, all) ==> y in closest
    ensures forall i, j :: 0 <= i < j < |closest| ==> closest[i].bookId != closest[j].bookId
    ensures target in allKeys ==> |closest| == 1 && closest[0].bookId == target
  {
    if closest != [] {
      assert closest[0] in closest;
    }
  }

  /** A node of the tree, as the search visits it. */
  lemma VisitOnPath(root: Tree, node: Tree, target: int, next: Tree)
    requires Bst(root) && node.Node? && Bst(node) && Books(node) <= Books(root)
    requires next == if target < node.book.bookId then node.left
      else if target > node.book.bookId then node.right else Leaf
    ensures Visit(Books(root), target, node.book, Keys(node), Keys(next))
    ensures Bst(next) && Books(next) <= Books(root)
  {
    BstUniqueIds(root);
    NextOnPath(node, target);
  }

  /** Where the search goes after `node`: every id it leaves behind is the node's own or
      strictly farther from the target. */
  lemma NextOnPath(node: Tree, target: int)
    requires node.Node? && Bst(node)
    ensures var x := node.book.bookId;
      var next := if target < x then node.left else if target > x then node.right else Leaf;
      Bst(next) && x !in Keys(next) && Keys(next) <= Keys(node) && Books(next) <= Books(node) &&
      x in Keys(node) && node.book in Books(node) &&
      forall k :: k in Keys(node) && k !in Keys(next) ==> k == x || Abs(target - x) < Abs(target - k)
  {
  }

  /** The loop of `delete_book`: extract until the heap is empty, keeping each patron. */
  method Drain(heap: MinHeap) returns (patrons: seq<int>, ghost drained: seq<Reservation>)
    requires heap.Valid()
    modifies heap
    ensures heap.Valid() && heap.Items() == multiset{}
    ensures multiset(drained) == old(heap.Items())
    ensures |patrons| == |drained|
    ensures forall i :: 0 <= i < |drained| ==> patrons[i] == drained[i].patronId
    ensures forall i, j :: 0 <= i < j < |drained| ==> NoLater(drained[i], drained[j])
  {
    patrons := [];
    drained := [];
    while !heap.IsEmpty()
      invariant heap.Valid()
      invariant ListsPatrons(patrons, drained)
      invariant multiset(drained) + heap.Items() == old(heap.Items())
      invariant DrainedBefore(drained, heap.Items())
      decreases |heap.heap|
    {
      ghost var before := heap.Items();
      var next := heap.ExtractMin();
      DrainStep(patrons, drained, before, next.value, heap.Items());
      patrons := patrons + [next.value.patronId];
      drained := drained + [next.value];
    }
  }

  /** `patrons` holds the patron of each reservation of `drained`, in the same order. */
  ghost predicate ListsPatrons(patrons: seq<int>, drained: seq<Reservation>) {
    |patrons| == |drained| && forall i :: 0 <= i < |drained| ==> patrons[i] == drained[i].patronId
  }

  /** The reservations extracted so far are in extraction order and none comes after one
      still in `items`. */
  ghost predicate DrainedBefore(drained: seq<Reservation>, items: multiset<Reservation>) {
    (forall i, j :: 0 <= i < j < |drained| ==> NoLater(drained[i], drained[j])) &&
    (forall i, r :: 0 <= i < |drained| && r in items ==> NoLater(drained[i], r))
  }

  /** Appending the minimum of `items` to a sorted prefix that precedes all of `items` keeps it
      sorted, and the prefix still precedes what is left. */
  lemma DrainStep(patrons: seq<int>, drained: seq<Reservation>, items: multiset<Reservation>,
                  next: Reservation, rest: multiset<Reservation>)
    requires next in items && rest == items - multiset{next}
    requires forall r :: r in items ==> NoLater(next, r)
    requires DrainedBefore(drained, items) && ListsPatrons(patrons, drained)
    ensures DrainedBefore(drained + [next], rest)
    ensures ListsPatrons(patrons + [next.patronId], drained + [next])
    ensures multiset(drained + [next]) + rest == multiset(drained) + items
  {
  }

  /** Every book a tree value holds is an allocated object. */
  lemma {:induction false} BooksAllocated(t: Tree)
    ensures forall y :: y in Books(t) ==> allocated(y) && allocated(y.reservationHeap)
  {
    if t.Node? {
      BooksAllocated(t.left);
      BooksAllocated(t.right);
    }
  }
}
