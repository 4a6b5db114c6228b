/** The left-leaning red-black tree as owned values: the shapes the tree's methods build,
    the rebalancing steps with the counter increments each one makes, and what they keep. */
module Llrb {
  import opened Wrappers
  import opened Records

  datatype Color = Red | Black

  /** A node owns its two subtrees; its key is the stored book's id. */
  datatype Tree = Leaf | Node(color: Color, left: Tree, book: Book, right: Tree)

  /** A rebuilt subtree and the number of increments made to the flip counter on the way. */
  datatype Fix = Fix(tree: Tree, events: nat)

  /** `is_red`: a missing child counts as black. */
  predicate IsRed(t: Tree) {
    t.Node? && t.color == Red
  }

  function Keys(t: Tree): set<int> {
    match t
    case Leaf => {}
    case Node(_, l, x, r) => Keys(l) + {x.bookId} + Keys(r)
  }

  function Books(t: Tree): (bs: set<Book>)
    ensures forall y :: y in bs ==> y.bookId in Keys(t)
  {
    match t
    case Leaf => {}
    case Node(_, l, x, r) => Books(l) + {x} + Books(r)
  }

  /** The books in left-to-right order. */
  function Inorder(t: Tree): seq<Book> {
    match t
    case Leaf => []
    case Node(_, l, x, r) => Inorder(l) + [x] + Inorder(r)
  }

  /** Ordering by book id: smaller ids to the left, larger to the right. */
  ghost predicate Bst(t: Tree) {
    match t
    case Leaf => true
    case Node(_, l, x, r) =>
      Bst(l) && Bst(r) &&
      (forall k :: k in Keys(l) ==> k < x.bookId) &&
      (forall k :: k in Keys(r) ==> x.bookId < k)
  }

  ghost predicate StrictlyIncreasing(s: seq<Book>) {
    forall i, j :: 0 <= i < j < |s| ==> s[i].bookId < s[j].bookId
  }

  /** Every book of a search tree is the only one with its id. */
  lemma {:induction false} BstUniqueIds(t: Tree)
    requires Bst(t)
    ensures forall y, z :: y in Books(t) && z in Books(t) && y.bookId == z.bookId ==> y == z
  {
    if t.Node? {
      BstUniqueIds(t.left);
      BstUniqueIds(t.right);
    }
  }

  /** The in-order sequence lists exactly the books, by strictly increasing id. */
  lemma {:induction false} InorderSorted(t: Tree)
    requires Bst(t)
    ensures StrictlyIncreasing(Inorder(t))
    ensures forall y :: y in Inorder(t) ==> y in Books(t)
    ensures forall y :: y in Books(t) ==> y in Inorder(t)
  {
    if t.Node? {
      InorderSorted(t.left);
      InorderSorted(t.right);
      var s := Inorder(t);
      var sl, sr := Inorder(t.left), Inorder(t.right);
      var nl := |sl|;
      assert s[nl] == t.book;
      forall i, j | 0 <= i < j < |s| ensures s[i].bookId < s[j].bookId {
        if j < nl {
          assert s[i] == sl[i] && s[j] == sl[j];
        } else if i > nl {
          assert s[i] == sr[i - nl - 1] && s[j] == sr[j - nl - 1];
        } else {
          if i < nl {
            assert s[i] == sl[i] && sl[i] in sl;
            assert s[i] in Books(t.left) && s[i].bookId in Keys(t.left);
          }
          if j > nl {
            assert s[j] == sr[j - nl - 1] && sr[j - nl - 1] in sr;
            assert s[j] in Books(t.right) && s[j].bookId in Keys(t.right);
          }
        }
      }
    }
  }

  /** The search that `get` performs, as a function; whatever it finds is a stored book with
      the id searched for. */
  function Lookup(t: Tree, k: int): (found: Option<Book>)
    ensures found.Some? ==> found.value in Books(t) && found.value.bookId == k
  {
    match t
    case Leaf => None
    case Node(_, l, x, r) =>
      if k == x.bookId then Some(x)
      else if k < x.bookId then Lookup(l, k)
      else Lookup(r, k)
  }

  /** In a search tree the search finds a key exactly when it is present, and then the book
      holding it. */
  lemma {:induction false} LookupCorrect(t: Tree, k: int)
    requires Bst(t)
    ensures Lookup(t, k).Some? <==> k in Keys(t)
    ensures Lookup(t, k).Some? ==> Lookup(t, k).value in Books(t) && Lookup(t, k).value.bookId == k
    ensures forall y :: y in Books(t) && y.bookId == k ==> Lookup(t, k) == Some(y)
  {
    if t.Node? {
      LookupCorrect(t.left, k);
      LookupCorrect(t.right, k);
    }
  }

  /** The book `_get_min` reaches by following left links. */
  function Leftmost(t: Tree): (b: Book)
    requires t.Node?
    ensures b in Books(t)
  {
    if t.left.Leaf? then t.book else Leftmost(t.left)
  }

  /** In a search tree the leftmost book has the smallest id. */
  lemma {:induction false} LeftmostIsMin(t: Tree)
    requires t.Node? && Bst(t)
    ensures forall k :: k in Keys(t) ==> Leftmost(t).bookId <= k
  {
    if t.left.Node? {
      LeftmostIsMin(t.left);
    }
  }

  // ---------------------------------------------------------------------------------------
  // Rebalancing steps

  /** `rotate_left`: the right child becomes the root and takes the old root's colour; the old
      root becomes its red left child. One increment when the lowered node then has a red right
      child and a non-red left child. */
  function RotatedLeft(t: Tree): (f: Fix)
    requires t.Node? && t.right.Node?
    ensures f.tree.Node? && f.tree.color == t.color && IsRed(f.tree.left)
    ensures f.events <= 1
    ensures Inorder(f.tree) == Inorder(t)
    ensures Books(f.tree) == Books(t) && Keys(f.tree) == Keys(t)
  {
    var lower := Node(Red, t.left, t.book, t.right.left);
    Fix(Node(t.color, lower, t.right.book, t.right.right),
        if IsRed(lower.right) && !IsRed(lower.left) then 1 else 0)
  }

  /** `rotate_right`: the mirror image; one increment when the lowered node then has a red
      left child whose own left child is red. */
  function RotatedRight(t: Tree): (f: Fix)
    requires t.Node? && t.left.Node?
    ensures f.tree.Node? && f.tree.color == t.color && IsRed(f.tree.right)
    ensures f.events <= 1
    ensures Inorder(f.tree) == Inorder(t)
    ensures Books(f.tree) == Books(t) && Keys(f.tree) == Keys(t)
  {
    var lower := Node(Red, t.left.right, t.book, t.right);
    Fix(Node(t.color, t.left.left, t.left.book, lower),
        if IsRed(lower.left) && IsRed(lower.left.left) then 1 else 0)
  }

  /** `flip_colors`: the node turns red, both children black. Its own increment is guarded by
      "both children red", which has just been made false, so it never fires. */
  function Flipped(t: Tree): (f: Fix)
    requires t.Node? && t.left.Node? && t.right.Node?
    ensures f.events == 0
    ensures f.tree.Node? && IsRed(f.tree) && !IsRed(f.tree.left) && !IsRed(f.tree.right)
    ensures Inorder(f.tree) == Inorder(t)
    ensures Books(f.tree) == Books(t) && Keys(f.tree) == Keys(t)
  {
    var l, r := t.left.(color := Black), t.right.(color := Black);
    Fix(Node(Red, l, t.book, r), if IsRed(l) && IsRed(r) then 1 else 0)
  }

  /** The three fix-up rules of `_put` and `_delete`, in order, each followed by its own
      increment of the counter. */
  function FixedUp(t: Tree): (f: Fix)
    requires t.Node?
    ensures f.tree.Node?
    ensures Inorder(f.tree) == Inorder(t)
    ensures Books(f.tree) == Books(t) && Keys(f.tree) == Keys(t)
  {
    var a := if IsRed(t.right) && !IsRed(t.left)
      then var g := RotatedLeft(t); Fix(g.tree, g.events + 1)
      else Fix(t, 0);
    var b := if IsRed(a.tree.left) && IsRed(a.tree.left.left)
      then var g := RotatedRight(a.tree); Fix(g.tree, a.events + g.events + 1)
      else a;
    if IsRed(b.tree.left) && IsRed(b.tree.right)
      then var g := Flipped(b.tree); Fix(g.tree, b.events + g.events + 1)
      else b
  }

  /** Recolouring a node keeps its keys, books and ordering. */
  lemma RecolorKeeps(t: Tree, c: Color)
    requires t.Node?
    ensures Keys(t.(color := c)) == Keys(t) && Books(t.(color := c)) == Books(t)
    ensures Bst(t) ==> Bst(t.(color := c))
  {
  }

  lemma RotatedLeftBst(t: Tree)
    requires t.Node? && t.right.Node? && Bst(t)
    ensures Bst(RotatedLeft(t).tree)
  {
    var r := t.right;
    assert Keys(r) == Keys(r.left) + {r.book.bookId} + Keys(r.right);
    var lower := Node(Red, t.left, t.book, r.left);
    assert Bst(lower);
    assert Keys(lower) == Keys(t.left) + {t.book.bookId} + Keys(r.left);
  }

  lemma RotatedRightBst(t: Tree)
    requires t.Node? && t.left.Node? && Bst(t)
    ensures Bst(RotatedRight(t).tree)
  {
    var l := t.left;
    assert Keys(l) == Keys(l.left) + {l.book.bookId} + Keys(l.right);
    var lower := Node(Red, l.right, t.book, t.right);
    assert Bst(lower);
    assert Keys(lower) == Keys(l.right) + {t.book.bookId} + Keys(t.right);
  }

  lemma FlippedBst(t: Tree)
    requires t.Node? && t.left.Node? && t.right.Node? && Bst(t)
    ensures Bst(Flipped(t).tree)
  {
    RecolorKeeps(t.left, Black);
    RecolorKeeps(t.right, Black);
  }

  /** The fix-up keeps a search tree a search tree. */
  lemma FixedUpBst(t: Tree)
    requires t.Node? && Bst(t)
    ensures Bst(FixedUp(t).tree)
  {
    var a := if IsRed(t.right) && !IsRed(t.left) then RotatedLeft(t).tree else t;
    if IsRed(t.right) && !IsRed(t.left) { RotatedLeftBst(t); }
    var b := if IsRed(a.left) && IsRed(a.left.left) then RotatedRight(a).tree else a;
    if IsRed(a.left) && IsRed(a.left.left) { RotatedRightBst(a); }
    if IsRed(b.left) && IsRed(b.right) { FlippedBst(b); }
  }

  // ---------------------------------------------------------------------------------------
  // Insertion and deletion

  /** `_put`: descend by id, make a red leaf for a new id, fix up every node on the way back.
      An id already present changes no payload. */
  function Inserted(t: Tree, b: Book): (f: Fix)
    ensures f.tree.Node?
    decreases t
  {
    match t
    case Leaf => Fix(Node(Red, Leaf, b, Leaf), 0)
    case Node(c, l, x, r) =>
      if b.bookId < x.bookId then
        var d := Inserted(l, b);
        var g := FixedUp(Node(c, d.tree, x, r));
        Fix(g.tree, d.events + g.events)
      else if b.bookId > x.bookId then
        var d := Inserted(r, b);
        var g := FixedUp(Node(c, l, x, d.tree));
        Fix(g.tree, d.events + g.events)
      else
        FixedUp(t)
  }

  /** `put` colours the new root black. */
  function Blacken(t: Tree): (b: Tree)
    ensures !IsRed(b) && Inorder(b) == Inorder(t)
    ensures Books(b) == Books(t) && Keys(b) == Keys(t)
  {
    if t.Node? then t.(color := Black) else t
  }

  /** What insertion into a search tree promises about the rebuilt subtree `n` of `t`. */
  ghost predicate InsertedAs(t: Tree, b: Book, n: Tree) {
    Bst(n) && Keys(n) == Keys(t) + {b.bookId} &&
    Books(n) == if b.bookId in Keys(t) then Books(t) else Books(t) + {b}
  }

  /** A node whose left child was rebuilt by insertion keeps the promise; fixing it up is
      left to `InsertedFixedUp`. */
  lemma InsertedLeftStep(c: Color, l: Tree, x: Book, r: Tree, b: Book, d: Tree)
    requires Bst(Node(c, l, x, r)) && b.bookId < x.bookId && InsertedAs(l, b, d)
    ensures InsertedAs(Node(c, l, x, r), b, Node(c, d, x, r))
  {
    assert b.bookId !in Keys(r);
    ChildReplacedBst(c, l, x, r, d, true);
  }

  /** A node whose right child was rebuilt by insertion keeps the promise. */
  lemma InsertedRightStep(c: Color, l: Tree, x: Book, r: Tree, b: Book, d: Tree)
    requires Bst(Node(c, l, x, r)) && b.bookId > x.bookId && InsertedAs(r, b, d)
    ensures InsertedAs(Node(c, l, x, r), b, Node(c, l, x, d))
  {
    assert b.bookId !in Keys(l);
    ChildReplacedBst(c, l, x, r, d, false);
  }

  /** The fix-up rules keep the promise of insertion. */
  lemma InsertedFixedUp(t: Tree, b: Book, n: Tree)
    requires n.Node? && InsertedAs(t, b, n)
    ensures InsertedAs(t, b, FixedUp(n).tree)
  {
    FixedUpBst(n);
  }

  /** A search tree stays one when a child is replaced by a search tree whose ids all lie
      on the same side of the node's id. */
  lemma ChildReplacedBst(c: Color, l: Tree, x: Book, r: Tree, d: Tree, left: bool)
    requires Bst(Node(c, l, x, r)) && Bst(d)
    requires left ==> forall k :: k in Keys(d) ==> k < x.bookId
    requires !left ==> forall k :: k in Keys(d) ==> x.bookId < k
    ensures Bst(if left then Node(c, d, x, r) else Node(c, l, x, d))
  {
  }

  /** Insertion into a search tree keeps it a search tree, adds exactly the id, and adds the
      book only when its id was absent (an existing book stays in place). */
  lemma {:induction false} InsertedContents(t: Tree, b: Book)
    requires Bst(t)
    ensures InsertedAs(t, b, Inserted(t, b).tree)
    decreases t
  {
    match t
    case Leaf =>
    case Node(c, l, x, r) =>
      if b.bookId < x.bookId {
        InsertedContents(l, b);
        InsertedLeftStep(c, l, x, r, b, Inserted(l, b).tree);
        InsertedFixedUp(t, b, Node(c, Inserted(l, b).tree, x, r));
      } else if b.bookId > x.bookId {
        InsertedContents(r, b);
        InsertedRightStep(c, l, x, r, b, Inserted(r, b).tree);
        InsertedFixedUp(t, b, Node(c, l, x, Inserted(r, b).tree));
      } else {
        FixedUpBst(t);
      }
  }

  /** `_delete`: descend by id; a node with a missing child is replaced by the other child;
      a node with two children takes its in-order successor's book and the successor is
      deleted from the right subtree; every node kept on the way back is fixed up. */
  function Deleted(t: Tree, k: int): (f: Fix)
    ensures Keys(f.tree) <= Keys(t) && Books(f.tree) <= Books(t)
    decreases t
  {
    match t
    case Leaf => Fix(Leaf, 0)
    case Node(c, l, x, r) =>
      if k < x.bookId then
        var d := Deleted(l, k);
        var g := FixedUp(Node(c, d.tree, x, r));
        Fix(g.tree, d.events + g.events)
      else if k > x.bookId then
        var d := Deleted(r, k);
        var g := FixedUp(Node(c, l, x, d.tree));
        Fix(g.tree, d.events + g.events)
      else if l.Leaf? then
        Fix(r, 0)
      else if r.Leaf? then
        Fix(l, 0)
      else
        var s := Leftmost(r);
        var d := Deleted(r, s.bookId);
        var g := FixedUp(Node(c, l, s, d.tree));
        Fix(g.tree, d.events + g.events)
  }

  /** What deletion of `k` from a search tree promises about the rebuilt subtree `n` of `t`. */
  ghost predicate DeletedAs(t: Tree, k: int, n: Tree) {
    Bst(n) && Keys(n) == Keys(t) - {k} &&
    (forall y :: y in Books(n) ==> y in Books(t) && y.bookId != k) &&
    (forall y :: y in Books(t) && y.bookId != k ==> y in Books(n))
  }

  /** A node whose left child was rebuilt by deletion keeps the promise; fixing it up is
      left to `DeletedFixedUp`. */
  lemma DeletedLeftStep(c: Color, l: Tree, x: Book, r: Tree, k: int, d: Tree)
    requires Bst(Node(c, l, x, r)) && k < x.bookId && DeletedAs(l, k, d)
    ensures DeletedAs(Node(c, l, x, r), k, Node(c, d, x, r))
  {
    ChildReplacedBst(c, l, x, r, d, true);
  }

  /** A node whose right child was rebuilt by deletion keeps the promise. */
  lemma DeletedRightStep(c: Color, l: Tree, x: Book, r: Tree, k: int, d: Tree)
    requires Bst(Node(c, l, x, r)) && k > x.bookId && DeletedAs(r, k, d)
    ensures DeletedAs(Node(c, l, x, r), k, Node(c, l, x, d))
  {
    ChildReplacedBst(c, l, x, r, d, false);
  }

  /** The fix-up rules keep the promise of deletion. */
  lemma DeletedFixedUp(t: Tree, k: int, n: Tree)
    requires n.Node? && DeletedAs(t, k, n)
    ensures DeletedAs(t, k, FixedUp(n).tree)
  {
    FixedUpBst(n);
  }

  /** Replacing the deleted node's book by its successor `s`, taken out of the right
      subtree, keeps the promise. */
  lemma DeletedSuccessorStep(c: Color, l: Tree, x: Book, r: Tree, d: Tree)
    requires Bst(Node(c, l, x, r)) && r.Node?
    requires DeletedAs(r, Leftmost(r).bookId, d)
    ensures DeletedAs(Node(c, l, x, r), x.bookId, Node(c, l, Leftmost(r), d))
  {
    var t := Node(c, l, x, r);
    var n := Node(c, l, Leftmost(r), d);
    SuccessorBst(c, l, x, r, d);
    BstUniqueIds(r);
    assert Keys(n) == Keys(t) - {x.bookId};
  }

  /** The successor of the deleted node's book sits between the left subtree and what is
      left of the right one. */
  lemma SuccessorBst(c: Color, l: Tree, x: Book, r: Tree, d: Tree)
    requires Bst(Node(c, l, x, r)) && r.Node?
    requires Bst(d) && Keys(d) == Keys(r) - {Leftmost(r).bookId}
    ensures Bst(Node(c, l, Leftmost(r), d))
  {
    var s := Leftmost(r);
    LeftmostIsMin(r);
    assert s.bookId in Keys(r);
    forall k | k in Keys(l)
      ensures k < s.bookId
    {
    }
    forall k | k in Keys(d)
      ensures s.bookId < k
    {
      assert k in Keys(r) - {s.bookId};
    }
  }

  /** Deletion from a search tree keeps it a search tree, removes exactly the id and, with
      it, exactly the book that held it; an absent id leaves the key set as it was. */
  lemma {:induction false} DeletedContents(t: Tree, k: int)
    requires Bst(t)
    ensures DeletedAs(t, k, Deleted(t, k).tree)
    decreases t
  {
    match t
    case Leaf =>
    case Node(c, l, x, r) =>
      if k < x.bookId {
        DeletedContents(l, k);
        DeletedLeftStep(c, l, x, r, k, Deleted(l, k).tree);
        DeletedFixedUp(t, k, Node(c, Deleted(l, k).tree, x, r));
      } else if k > x.bookId {
        DeletedContents(r, k);
        DeletedRightStep(c, l, x, r, k, Deleted(r, k).tree);
        DeletedFixedUp(t, k, Node(c, l, x, Deleted(r, k).tree));
      } else if l.Leaf? {
      } else if r.Leaf? {
      } else {
        DeletedContents(r, Leftmost(r).bookId);
        DeletedSuccessorStep(c, l, x, r, Deleted(r, Leftmost(r).bookId).tree);
        DeletedFixedUp(t, k, Node(c, l, Leftmost(r), Deleted(r, Leftmost(r).bookId).tree));
      }
  }

  // ---------------------------------------------------------------------------------------
  // Left-leaning red-black shape

  /** `t` has no red right link, no red node with a red left child, and `h` black nodes on
      every path from its root to a missing child. */
  ghost predicate LL(t: Tree, h: nat) {
    match t
    case Leaf => h == 0
    case Node(Black, l, _, r) => h >= 1 && !IsRed(r) && LL(l, h - 1) && LL(r, h - 1)
    case Node(Red, l, _, r) => !IsRed(l) && !IsRed(r) && LL(l, h) && LL(r, h)
  }

  /** The black nodes on the leftmost path. */
  function BlackHeight(t: Tree): nat {
    match t
    case Leaf => 0
    case Node(c, l, _, _) => BlackHeight(l) + (if c == Black then 1 else 0)
  }

  ghost predicate IsLlrb(t: Tree) {
    LL(t, BlackHeight(t))
  }

  /** The black height a valid shape has is the one on its leftmost path. */
  lemma {:induction false} LLHeight(t: Tree, h: nat)
    requires LL(t, h)
    ensures BlackHeight(t) == h
  {
    if t.Node? {
      LLHeight(t.left, if t.color == Black then h - 1 else h);
    }
  }

  /** A red node that may have a red left child: the shape insertion returns from a red node. */
  ghost predicate RedLeaning(t: Tree, h: nat) {
    t.Node? && t.color == Red && !IsRed(t.right) && LL(t.left, h) && LL(t.right, h)
  }

  /** On a valid shape no fix-up rule applies. */
  lemma FixedUpValid(t: Tree, h: nat)
    requires t.Node? && LL(t, h)
    ensures FixedUp(t) == Fix(t, 0)
  {
  }

  /** Fixing up a black node after one child was rebuilt by insertion yields a valid shape. */
  lemma FixedUpBlack(l: Tree, x: Book, r: Tree, h: nat)
    requires h >= 1 && LL(r, h - 1)
    requires LL(l, h - 1) || (RedLeaning(l, h - 1) && !IsRed(r))
    ensures LL(FixedUp(Node(Black, l, x, r)).tree, h)
  {
    var t := Node(Black, l, x, r);
    if RedLeaning(l, h - 1) && IsRed(l.left) {
      var g := RotatedRight(t).tree;
      assert g == Node(Black, l.left, l.book, Node(Red, l.right, x, r));
      assert LL(l.left.(color := Black), h);
    } else if IsRed(r) && !IsRed(l) {
      var g := RotatedLeft(t).tree;
      assert g == Node(Black, Node(Red, l, x, r.left), r.book, r.right);
    } else if IsRed(r) && IsRed(l) {
      assert LL(l.(color := Black), h);
      assert LL(r.(color := Black), h);
    }
  }

  /** Fixing up a red node after one of its non-red children was rebuilt by insertion yields
      a red-leaning shape. */
  lemma FixedUpRed(l: Tree, x: Book, r: Tree, h: nat)
    requires LL(l, h) && LL(r, h) && (!IsRed(l) || !IsRed(r))
    ensures RedLeaning(FixedUp(Node(Red, l, x, r)).tree, h)
  {
    var t := Node(Red, l, x, r);
    if IsRed(r) {
      var g := RotatedLeft(t).tree;
      assert g == Node(Red, Node(Red, l, x, r.left), r.book, r.right);
    }
  }

  /** Insertion into a valid shape of black height `h` returns a valid shape of the same
      height when the subtree's root was not red, and a red-leaning shape when it was. */
  lemma {:induction false} InsertedShape(t: Tree, b: Book, h: nat)
    requires LL(t, h)
    ensures if IsRed(t) then RedLeaning(Inserted(t, b).tree, h) else LL(Inserted(t, b).tree, h)
    decreases t
  {
    match t
    case Leaf =>
    case Node(c, l, x, r) =>
      var hc := if c == Black then h - 1 else h;
      if b.bookId < x.bookId {
        InsertedShape(l, b, hc);
        if c == Black { FixedUpBlack(Inserted(l, b).tree, x, r, h); }
        else { FixedUpRed(Inserted(l, b).tree, x, r, h); }
      } else if b.bookId > x.bookId {
        InsertedShape(r, b, hc);
        if c == Black { FixedUpBlack(l, x, Inserted(r, b).tree, h); }
        else { FixedUpRed(l, x, Inserted(r, b).tree, h); }
      } else {
        FixedUpValid(t, h);
      }
  }

  /** `put` (insert, then blacken the root) turns a valid shape into a valid shape. */
  lemma PutKeepsShape(t: Tree, b: Book)
    requires IsLlrb(t)
    ensures IsLlrb(Blacken(Inserted(t, b).tree))
    ensures !IsRed(Blacken(Inserted(t, b).tree))
  {
    var h := BlackHeight(t);
    InsertedShape(t, b, h);
    var n := Inserted(t, b).tree;
    if IsRed(t) || IsRed(n) {
      assert LL(Blacken(n), h + 1);
      LLHeight(Blacken(n), h + 1);
    } else {
      LLHeight(Blacken(n), h);
    }
  }

  /** Putting id 2 after id 1 rotates the new red right child to the root. */
  lemma PutSecond(a: Book, b: Book)
    requires a.bookId == 1 && b.bookId == 2
    ensures Blacken(Inserted(Blacken(Inserted(Leaf, a).tree), b).tree) ==
      Node(Black, Node(Red, Leaf, a, Leaf), b, Leaf)
  {
    var t1 := Blacken(Inserted(Leaf, a).tree);
    assert t1 == Node(Black, Leaf, a, Leaf);
    var n2 := Node(Black, Leaf, a, Node(Red, Leaf, b, Leaf));
    assert Inserted(t1, b).tree == FixedUp(n2).tree;
    assert RotatedLeft(n2).tree == Node(Black, Node(Red, Leaf, a, Leaf), b, Leaf);
  }

  /** Putting id 3 next gives two red children, which the colour flip turns black. */
  lemma PutThird(a: Book, b: Book, c: Book)
    requires a.bookId == 1 && b.bookId == 2 && c.bookId == 3
    ensures Blacken(Inserted(Node(Black, Node(Red, Leaf, a, Leaf), b, Leaf), c).tree) ==
      Node(Black, Node(Black, Leaf, a, Leaf), b, Node(Black, Leaf, c, Leaf))
  {
    var t2 := Node(Black, Node(Red, Leaf, a, Leaf), b, Leaf);
    var n3 := Node(Black, Node(Red, Leaf, a, Leaf), b, Node(Red, Leaf, c, Leaf));
    assert Inserted(t2, c).tree == FixedUp(n3).tree;
    assert Flipped(n3).tree == Node(Red, Node(Black, Leaf, a, Leaf), b, Node(Black, Leaf, c, Leaf));
  }

  /** Deleting id 1 from that tree applies no fix-up rule and leaves a black leaf beside a
      black node. */
  lemma DeleteFirst(a: Book, b: Book, c: Book)
    requires a.bookId == 1 && b.bookId == 2 && c.bookId == 3
    ensures Deleted(Node(Black, Node(Black, Leaf, a, Leaf), b, Node(Black, Leaf, c, Leaf)), 1).tree ==
      Node(Black, Leaf, b, Node(Black, Leaf, c, Leaf))
  {
    var t3 := Node(Black, Node(Black, Leaf, a, Leaf), b, Node(Black, Leaf, c, Leaf));
    var n4 := Node(Black, Leaf, b, Node(Black, Leaf, c, Leaf));
    assert Deleted(t3, 1).tree == FixedUp(n4).tree;
  }

  /** `_delete` does not restore black balance: after putting ids 1, 2, 3 the tree is valid,
      and deleting 1 leaves a root whose left path has fewer black nodes than its right. */
  lemma DeleteCanUnbalance(a: Book, b: Book, c: Book)
    requires a.bookId == 1 && b.bookId == 2 && c.bookId == 3
    ensures var t := Blacken(Inserted(Blacken(Inserted(Blacken(Inserted(Leaf, a).tree), b).tree), c).tree);
      IsLlrb(t) && !IsLlrb(Deleted(t, 1).tree)
  {
    PutSecond(a, b);
    PutThird(a, b, c);
    DeleteFirst(a, b, c);
    var t2 := Blacken(Inserted(Blacken(Inserted(Leaf, a).tree), b).tree);
    assert t2 == Node(Black, Node(Red, Leaf, a, Leaf), b, Leaf);
    var t3 := Node(Black, Node(Black, Leaf, a, Leaf), b, Node(Black, Leaf, c, Leaf));
    assert Blacken(Inserted(t2, c).tree) == t3;
    assert LL(Node(Black, Leaf, a, Leaf), 1) && LL(Node(Black, Leaf, c, Leaf), 1);
    assert BlackHeight(t3) == 2 && LL(t3, 2);
    var n4 := Node(Black, Leaf, b, Node(Black, Leaf, c, Leaf));
    assert Deleted(t3, 1).tree == n4;
    assert BlackHeight(n4) == 1 && !LL(n4, 1);
  }

  // ---------------------------------------------------------------------------------------
  // Range scan

  /** The books of `s` whose ids lie in [lo, hi], in their order in `s`. */
  function InRange(s: seq<Book>, lo: int, hi: int): (r: seq<Book>)
    ensures |r| <= |s|
    ensures forall y :: y in r ==> y in s && lo <= y.bookId <= hi
  {
    if s == [] then []
    else (if lo <= s[0].bookId <= hi then [s[0]] else []) + InRange(s[1..], lo, hi)
  }

  /** The filter keeps exactly the books of `s` whose ids lie in [lo, hi]. */
  lemma {:induction false} InRangeMembers(s: seq<Book>, lo: int, hi: int)
    ensures forall y :: y in InRange(s, lo, hi) ==> y in s && lo <= y.bookId <= hi
    ensures forall y :: y in s && lo <= y.bookId <= hi ==> y in InRange(s, lo, hi)
    decreases |s|
  {
    if s != [] {
      InRangeMembers(s[1..], lo, hi);
      assert s == [s[0]] + s[1..];
    }
  }

  lemma {:induction false} InRangeConcat(a: seq<Book>, b: seq<Book>, lo: int, hi: int)
    ensures InRange(a + b, lo, hi) == InRange(a, lo, hi) + InRange(b, lo, hi)
    decreases |a|
  {
    if a == [] {
      assert a + b == b;
    } else {
      assert (a + b)[0] == a[0];
      assert (a + b)[1..] == a[1..] + b;
      InRangeConcat(a[1..], b, lo, hi);
    }
  }

  /** Filtering keeps the order of a strictly increasing sequence. */
  lemma {:induction false} InRangeSorted(s: seq<Book>, lo: int, hi: int)
    requires StrictlyIncreasing(s)
    ensures StrictlyIncreasing(InRange(s, lo, hi))
    decreases |s|
  {
    if s != [] {
      InRangeSorted(s[1..], lo, hi);
      InRangeMembers(s[1..], lo, hi);
      var rest := InRange(s[1..], lo, hi);
      forall y | y in rest ensures s[0].bookId < y.bookId {
        var i :| 0 <= i < |s[1..]| && s[1..][i] == y;
        assert s[i + 1] == y;
      }
    }
  }
}
