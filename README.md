# GatorLibrary in Dafny

GatorLibrary is a small library system. Books are kept in a left-leaning red-black tree
ordered by book id. Each book has a reservation min-heap of `(patron, priority, timestamp)`
tuples. A smaller priority number wins, and an earlier timestamp breaks ties.

Patrons work with books in these ways:

- They borrow an available book.
- They reserve a book that is lent out.
- They return a lent book. It goes straight to the best reservation, or becomes available
  when nobody waits for it.
- Deleting a book cancels its reservations in heap order.
- A search reports the book or books whose ids lie closest to a target id.

The tree counts its rebalancing events in `color_flips`.

This project models redBlackTree.py, minHeap.py and library.py in Dafny. The state-changing Python classes
become Dafny classes whose methods change their fields in place:

- `RedBlackTree` keeps `root` and `colorFlips`.
- `MinHeap` keeps the Python list `heap`, with its `None` dummy at index 0.
- `Book` keeps `availabilityStatus`, `borrowedBy` and a reservation heap.
- `GatorLibrary` owns the tree.

Every method is proved against a pure specification:

- The tree methods are proved against functions of module `Llrb`:
  - `RotatedLeft`, `RotatedRight`, `Flipped` and `FixedUp` model the rebalancing steps.
  - `Inserted` models `_put` and `Deleted` models `_delete`.
  - `Lookup`, `Leftmost` and `InRange` model the searches.

  `RotatedLeft`, `RotatedRight`, `Flipped`, `FixedUp`, `Inserted` and `Deleted` each return
  the rebuilt subtree together with the exact number of counter increments.
- The heap methods are proved against the multiset `Items()` of the reservations it holds
  and the heap order `Ordered`.
- The library methods are proved against the set `Shelf()` of books in the tree.

The modules are:

| file | module | models |
|---|---|---|
| wrappers.dfy | `Wrappers` | `Option` |
| min_heap.dfy | `MinHeaps` | minHeap.py |
| book.dfy | `Records` | the `Book` class of library.py |
| llrb.dfy | `Llrb` | the pure meaning of redBlackTree.py's node operations |
| red_black_tree.dfy | `RedBlackTrees` | the `RedBlackTree` class of redBlackTree.py |
| library.dfy | `Library` | the `GatorLibrary` class of library.py |
| scenarios.dfy | `Scenarios` | concrete runs derived from the contracts |

In three places the model follows the code where a reader might expect otherwise:

- Inserting an id that is already present keeps the existing book (redBlackTree.py:64-69).
  The fix-up still runs. No duplicate-key error is raised.
- `delete` does not restore the red-black balance (redBlackTree.py:96-129).
  `Llrb.DeleteCanUnbalance` exhibits a case.
- An accepted return clears the borrower on the tree node, not on the book
  (library.py:89). The book's `borrowedBy` therefore stays as it was when nobody is waiting.

## Model

| member | source | states |
|---|---|---|
| `MinHeaps.Precedes` | minHeap.py:23-24 | `a` goes before `b` when its priority is smaller, or equal with an earlier timestamp; the same test as the child comparisons at minHeap.py:49-58 |
| `MinHeaps.PrecedesIsStrictOrder` | minHeap.py:49-58 | that comparison is a strict order that ranks any two reservations with different (priority, timestamp) pairs, so `NoLater` compares every pair |
| `MinHeaps.RootIsMinimum` | minHeap.py:29-34 | in a heap-ordered list the entry at index 1 is no later than any entry, which is why `extract_min` takes index 1 |
| `MinHeaps.SwapKeepsValues` | minHeap.py:25 | swapping two slots keeps the shape and the multiset of reservations |
| `MinHeaps.SwapUp` | minHeap.py:17-27 | swapping an entry that beats its parent moves the single broken edge one level up |
| `MinHeaps.SwapDown` | minHeap.py:43-64 | swapping an entry with the better of its children moves the broken edges one level down |
| `MinHeaps.RemoveRoot` | minHeap.py:34-37 | the removed root is no later than every reservation; moving the last entry to index 1 and popping keeps the other reservations and leaves a heap that only needs sifting down from 1 |
| `MinHeaps.MinHeap.constructor` | minHeap.py:2-4 | a new heap is `[None]` and holds no reservation |
| `MinHeaps.MinHeap.IsEmpty` | minHeap.py:66-68 | true exactly when the heap holds no reservation |
| `MinHeaps.MinHeap.Insert` | minHeap.py:6-10 | heap order is kept, the list grows by one, and the multiset gains exactly the new reservation |
| `MinHeaps.MinHeap.BubbleUp` | minHeap.py:12-27 | from a heap broken only above `start`, sifting up restores heap order without changing the reservations or the length |
| `MinHeaps.MinHeap.ExtractMin` | minHeap.py:29-40 | an empty heap gives None and is unchanged; otherwise the result is a stored reservation no later than any other, exactly one copy of it is removed, and heap order is kept |
| `MinHeaps.MinHeap.BubbleDown` | minHeap.py:42-64 | from a heap broken only below `start`, sifting down restores heap order without changing the reservations or the length |
| `Records.Book.constructor` | library.py:8-15 | a new book carries the given fields, has no borrower and an empty, valid reservation heap |
| `Llrb.IsRed` | redBlackTree.py:15-19 | a missing child counts as black; a node is red when its colour is red |
| `Llrb.Books` | redBlackTree.py:1-7 | every book stored in a tree has its id among the tree's keys |
| `Llrb.BstUniqueIds` | redBlackTree.py:61-69 | in a search tree no two stored books share an id |
| `Llrb.InorderSorted` | redBlackTree.py:145-155 | the in-order sequence lists exactly the stored books, by strictly increasing id |
| `Llrb.Lookup` | redBlackTree.py:83-94 | `get`'s descent by id; whatever it finds is a stored book with the id searched for |
| `Llrb.LookupCorrect` | redBlackTree.py:83-94 | in a search tree, `get`'s descent finds an id exactly when it is present, and then it finds the one book holding that id |
| `Llrb.Leftmost` | redBlackTree.py:131-135 | the node `_get_min` reaches holds a book of the tree |
| `Llrb.LeftmostIsMin` | redBlackTree.py:131-135 | in a search tree that book has the smallest id |
| `Llrb.RotatedLeft` | redBlackTree.py:21-30 | the right child becomes the root with the old root's colour and a red left child; order and contents are kept; at most one increment |
| `Llrb.RotatedRight` | redBlackTree.py:32-41 | the mirror image: the left child becomes the root with a red right child; order and contents are kept; at most one increment |
| `Llrb.Flipped` | redBlackTree.py:43-49 | the node becomes red and both children black; order and contents are kept; the guarded increment never fires |
| `Llrb.FixedUp` | redBlackTree.py:71-79 | the three rules keep the in-order sequence, the books and the keys |
| `Llrb.RecolorKeeps` | redBlackTree.py:57 | colouring the root black keeps its keys, its books and the search order |
| `Llrb.RotatedLeftBst` | redBlackTree.py:21-30 | a left rotation keeps a search tree a search tree |
| `Llrb.RotatedRightBst` | redBlackTree.py:32-41 | a right rotation keeps a search tree a search tree |
| `Llrb.FlippedBst` | redBlackTree.py:43-49 | recolouring keeps a search tree a search tree |
| `Llrb.FixedUpBst` | redBlackTree.py:71-79 | the fix-up keeps a search tree a search tree |
| `Llrb.Inserted` | redBlackTree.py:59-81 | `_put` always returns a node |
| `Llrb.Blacken` | redBlackTree.py:57 | colouring the new root black leaves a non-red root with the same in-order sequence, books and keys |
| `Llrb.InsertedLeftStep` | redBlackTree.py:64-65 | a node whose left child was rebuilt by insertion is a search tree holding the old keys plus the new id |
| `Llrb.InsertedRightStep` | redBlackTree.py:66-67 | the same for the right child |
| `Llrb.InsertedFixedUp` | redBlackTree.py:71-79 | the fix-up after an insertion keeps what the insertion promised |
| `Llrb.ChildReplacedBst` | redBlackTree.py:65-67 | replacing a child by a search tree whose ids stay on the child's side keeps the search order |
| `Llrb.InsertedContents` | redBlackTree.py:59-81 | insertion keeps a search tree, adds exactly the new id, and adds the book only when its id was absent; an existing book stays |
| `Llrb.Deleted` | redBlackTree.py:100-129 | `_delete`, including the one-child returns without fix-up and the successor copy; on any tree it never adds a key or a book |
| `Llrb.DeletedLeftStep` | redBlackTree.py:104-105 | a node whose left child was rebuilt by deletion is a search tree without the id, losing only the book that held it |
| `Llrb.DeletedRightStep` | redBlackTree.py:106-107 | the same for the right child |
| `Llrb.DeletedFixedUp` | redBlackTree.py:119-127 | the fix-up after a deletion keeps what the deletion promised |
| `Llrb.DeletedSuccessorStep` | redBlackTree.py:113-117 | replacing a two-child node's book by its in-order successor and deleting the successor from the right subtree removes exactly the node's id and book |
| `Llrb.SuccessorBst` | redBlackTree.py:114-117 | the successor's id lies between the left subtree and what is left of the right one |
| `Llrb.DeletedContents` | redBlackTree.py:100-129 | deletion keeps a search tree, removes exactly the id, and removes exactly the book that held it |
| `Llrb.LLHeight` | redBlackTree.py:51-81 | a valid left-leaning shape of black height `h` has `h` black nodes on its leftmost path, which lets `put` read off the height of the tree it rebuilds |
| `Llrb.FixedUpValid` | redBlackTree.py:71-79 | on a valid shape no fix-up rule fires and no increment is made |
| `Llrb.FixedUpBlack` | redBlackTree.py:71-79 | fixing up a black node after one child was rebuilt by insertion yields a valid shape |
| `Llrb.FixedUpRed` | redBlackTree.py:71-79 | fixing up a red node after insertion into one of its non-red children yields a red node that leans at most one red link to the left |
| `Llrb.InsertedShape` | redBlackTree.py:59-81 | insertion keeps a valid shape and its black height below a black root, and leaves a red-leaning shape below a red one |
| `Llrb.PutKeepsShape` | redBlackTree.py:51-57 | `put` turns a valid left-leaning red-black tree into one with a black root |
| `Llrb.PutSecond` | redBlackTree.py:51-81 | putting ids 1 and then 2 gives a black 2 with a red left child 1 |
| `Llrb.PutThird` | redBlackTree.py:51-81 | putting id 3 next gives three black nodes rooted at 2 |
| `Llrb.DeleteFirst` | redBlackTree.py:100-129 | deleting 1 from that tree fires no fix-up rule |
| `Llrb.DeleteCanUnbalance` | redBlackTree.py:96-129 | after putting ids 1, 2, 3 the tree is valid, and after deleting 1 it is not |
| `Llrb.InRange` | redBlackTree.py:151-152 | the range test applied to a sequence: the result is no longer than the input and holds only its books with ids in `[lo, hi]` |
| `Llrb.InRangeMembers` | redBlackTree.py:151-152 | the range filter keeps exactly the books whose ids lie in `[lo, hi]` |
| `Llrb.InRangeConcat` | redBlackTree.py:145-155 | filtering distributes over concatenation |
| `Llrb.InRangeSorted` | redBlackTree.py:137-143 | filtering a strictly increasing sequence leaves a strictly increasing one |
| `RedBlackTrees.RedBlackTree.constructor` | redBlackTree.py:11-13 | a new tree is empty and its counter is 0 |
| `RedBlackTrees.RedBlackTree.RotateLeft` | redBlackTree.py:21-30 | returns the rotated subtree and adds its increment to the counter; the root is untouched |
| `RedBlackTrees.RedBlackTree.RotateRight` | redBlackTree.py:32-41 | the same for the right rotation |
| `RedBlackTrees.RedBlackTree.FlipColors` | redBlackTree.py:43-49 | returns the recoloured node, red with black children, and leaves the counter unchanged |
| `RedBlackTrees.RedBlackTree.FixUp` | redBlackTree.py:71-79 | returns the fixed-up subtree and adds every increment of the rules and rotations |
| `RedBlackTrees.RedBlackTree.PutAt` | redBlackTree.py:59-81 | returns the subtree `_put` builds and adds all of its increments |
| `RedBlackTrees.RedBlackTree.Put` | redBlackTree.py:51-57 | the root becomes black; the tree stays a search tree; the key set gains the id; a new id adds the book and makes it what a lookup of the id finds, while a present id keeps its book; a valid shape stays valid; the counter never decreases |
| `RedBlackTrees.RedBlackTree.Get` | redBlackTree.py:83-94 | returns what the descent finds; in a search tree that is a book exactly when the id is present, and it is the stored book with that id |
| `RedBlackTrees.RedBlackTree.GetMin` | redBlackTree.py:131-135 | returns the leftmost book, which is stored in the subtree and has its smallest id |
| `RedBlackTrees.RedBlackTree.DeleteAt` | redBlackTree.py:100-129 | returns the subtree `_delete` builds and adds all of its increments |
| `RedBlackTrees.RedBlackTree.Delete` | redBlackTree.py:96-98 | the tree stays a search tree; exactly the id leaves the key set, and exactly the book holding it leaves the tree; the counter never decreases |
| `RedBlackTrees.RedBlackTree.InorderTraversal` | redBlackTree.py:137-143 | returns exactly the stored books with ids in `[start_key, end_key]`, by strictly increasing id, and nothing when the range is empty |
| `RedBlackTrees.InorderFrom` | redBlackTree.py:145-155 | appends to `nodes` the in-order books of the subtree that lie in the range, in order |
| `RedBlackTrees.InRangeSplit` | redBlackTree.py:148-155 | a node's range scan splits into its left side, itself and its right side, and a side beyond the range contributes nothing, so the pruning is sound |
| `RedBlackTrees.NoneInRange` | redBlackTree.py:141-143 | a range no book falls into selects nothing |
| `RedBlackTrees.RedBlackTree.GetColorFlips` | redBlackTree.py:157-158 | returns the counter |
| `Library.ReadySplit` | library.py:15 | every book builds its own `MinHeap()`, and `insert_book` builds a new book each time (library.py:30), so the heaps of distinct books are distinct objects and one book's heap can change alone |
| `Library.ReadyRejoin` | library.py:80 | a book whose heap is still valid joins the others again |
| `Library.GatorLibrary.constructor` | library.py:24-26 | a new library holds no book and its tree's counter is 0 |
| `Library.GatorLibrary.InsertBook` | library.py:28-31 | the id joins the key set; a new id adds a fresh book with the given fields, no borrower and an empty heap; a present id keeps its book |
| `Library.GatorLibrary.BorrowBook` | library.py:69-81 | an available book is lent to the patron, with status "No" and the heap untouched; an unavailable one gains exactly the reservation `(patron, priority, clock)` and the clock advances; an absent id is reported and changes nothing |
| `Library.GatorLibrary.ReturnBook` | library.py:83-103 | a return is accepted exactly when the book is lent to this patron; a refused return changes nothing; an accepted one either makes the book available when no reservation was waiting, or lends it to a best reservation and removes exactly that one from the heap |
| `Library.GatorLibrary.HandOn` | library.py:88-100 | the accepted half of `return_book`: available when the heap was empty, otherwise lent to a best reservation, which leaves the heap |
| `Library.GatorLibrary.DeleteBook` | library.py:105-126 | an absent id changes nothing, neither the tree nor its counter; otherwise the book's heap is emptied, the cancelled patrons are listed in extraction order, and exactly that book and id leave the tree |
| `Library.Drain` | library.py:110-114 | empties the heap, returning its reservations in non-decreasing (priority, timestamp) order, together with their patrons |
| `Library.DrainStep` | library.py:111-114 | one extraction keeps the drained prefix ordered and no later than what remains |
| `Library.GatorLibrary.FindClosestBook` | library.py:128-156 | the result is empty exactly when the library is; it lists, without repeating an id, exactly the books at the smallest distance from the target; a present target is reported alone |
| `Library.ClosestIn` | library.py:130-156 | the descent of `search_closest` over a search tree finds exactly the nearest books, although it visits only one path |
| `Library.SearchStep` | library.py:140-147 | visiting one node keeps the search invariant: the list holds exactly the nearest books seen so far, and unvisited ids lie on the side the descent continues into |
| `Library.StepCloser` | library.py:143-145 | a strictly closer book replaces the list |
| `Library.StepTie` | library.py:146-147 | a book at the current distance is appended |
| `Library.SearchDone` | library.py:156 | once the descent has left the tree, the list is exactly the nearest books |
| `Library.VisitOnPath` | library.py:150-153 | every id the descent leaves behind at a node is that node's own or strictly farther from the target, and the descent stays inside the tree |
| `Library.NextOnPath` | library.py:150-153 | the child the descent moves to is a search tree without the node's id, and every other id of the node is farther from the target |
| `Scenarios.HeapOrdersByPriorityThenArrival` | minHeap.py:23-24 | reservations `(1, 2, 0)`, `(2, 1, 1)`, `(3, 1, 2)` come out as patrons 2, 3, 1, then None |
| `Scenarios.DeleteCancelsInHeapOrder` | library.py:105-121 | a book lent to 10 and reserved by 20 (priority 2) and then 30 (priority 1) cancels 30 before 20 when deleted |
| `Scenarios.ReturnsHandOnInHeapOrder` | library.py:83-103 | for that book, a return by 20 is refused; 10's return goes to 30, 30's to 20, and 20's makes the book available; a further return by 20 is refused |
| `Scenarios.ClosestTie` | library.py:143-147 | with books 10 and 20, target 15 reports both |
| `Scenarios.ClosestSingles` | library.py:143-153 | with books 10 and 20, target 12 reports only 10 and target 20 reports only 20 |

## Left out

- Output is not modelled: the lines written to `output_file`, and `print_book`, `print_books`
  and the printing half of `find_closest_book` (library.py:157 onward). The program's command
  parsing and file handling are not part of this model either.
- `time.time()` (library.py:79) becomes the library's `clock`, a counter that increases by one
  per reservation. The model does not carry a claim that timestamps are unique.
- Nodes are immutable values inside the tree, not shared objects. The aliasing of Python
  `Node` objects is not modelled. This includes the stray `borrowed_by` attribute that
  library.py:89 writes onto a node.
- `RedBlackTrees.RedBlackTree.PutAt`: on a present id, redBlackTree.py:69 writes a stray
  `value` attribute (here always `None`) onto the stored `Book` (`node.key`). `Book` is a
  class in the model, but that attribute has no field and the write is not modelled; the
  rest of the book is left as it was.
- `Book` records are objects shared between the tree and the library, as in the Python code. The
  library reaches a book only through the tree.
- `Library.GatorLibrary.BorrowBook`: on an absent id library.py fails with an attribute error
  at library.py:80. The model reports `BookMissing` and changes nothing.
- `Library.GatorLibrary.ReturnBook`: the borrower is not cleared on the book, following
  library.py:89. After a return with nobody waiting, `borrowedBy` still names the last
  borrower.
- `RedBlackTrees.RedBlackTree.Delete`: it promises search order and contents, not red-black
  balance, because `_delete` does not keep balance. `Llrb.DeleteCanUnbalance` shows this.
- `RedBlackTrees.RedBlackTree.InorderTraversal`: the recursive `_inorder_traversal` appends
  into a list passed by reference. The model returns the extended sequence. The same holds
  for the nested `search_closest` (modelled as a loop down one path) and the recursive
  `_bubble_up` and `_bubble_down` (modelled as loops).
- The availability status is kept as a string compared with "Yes" and "No", as in the code.
  `Book.__str__` is part of the output that is not modelled.
- Insertion of a present id follows the code: the existing book stays. No duplicate-key
  error is raised or modelled.
