/** The tree object: its root and its rebalancing counter change in place; each method is
    proved against the function of module `Llrb` that describes its result. */
module RedBlackTrees {
  import opened Wrappers
  import opened Records
  import opened Llrb

  class RedBlackTree {
    var root: Tree
    /** `color_flips`: incremented by every fix-up rule that fires, and by the rotations'
        own checks. */
    var colorFlips: nat

    ghost predicate Valid()
      reads this
    {
      Bst(root)
    }

    constructor ()
      ensures Valid() && root == Leaf && colorFlips == 0
    {
      root := Leaf;
      colorFlips := 0;
    }

    method RotateLeft(node: Tree) returns (r: Tree)
      requires node.Node? && node.right.Node?
      modifies this
      ensures root == old(root)
      ensures r == RotatedLeft(node).tree && colorFlips == old(colorFlips) + RotatedLeft(node).events
    {
      var right := node.right;
      var lowered := Node(Red, node.left, node.book, right.left);
      r := Node(node.color, lowered, right.book, right.right);
      if IsRed(lowered.right) && !IsRed(lowered.left) {
        colorFlips := colorFlips + 1;
      }
    }

    method RotateRight(node: Tree) returns (r: Tree)
      requires node.Node? && node.left.Node?
      modifies this
      ensures root == old(root)
      ensures r == RotatedRight(node).tree && colorFlips == old(colorFlips) + RotatedRight(node).events
    {
      var left := node.left;
      var lowered := Node(Red, left.right, node.book, node.right);
      r := Node(node.color, left.left, left.book, lowered);
      if IsRed(lowered.left) && IsRed(lowered.left.left) {
        colorFlips := colorFlips + 1;
      }
    }

    /** The counter check after recolouring never fires. */
    method FlipColors(node: Tree) returns (r: Tree)
      requires node.Node? && node.left.Node? && node.right.Node?
      modifies this
      ensures root == old(root) && colorFlips == old(colorFlips)
      ensures r == Flipped(node).tree
      ensures IsRed(r) && !IsRed(r.left) && !IsRed(r.right)
    {
      r := Node(Red, node.left.(color := Black), node.book, node.right.(color := Black));
      var l, rr := r.left, r.right;
      colorFlips := colorFlips + if IsRed(l) && IsRed(rr) then 1 else 0;
    }

    /** The three rules shared by `_put` and `_delete`; each rule that fires adds one. */
    method FixUp(node: Tree) returns (r: Tree)
      requires node.Node?
      modifies this
      ensures root == old(root)
      ensures r == FixedUp(node).tree && colorFlips == old(colorFlips) + FixedUp(node).events
    {
      r := node;
      if IsRed(r.right) && !IsRed(r.left) {
        r := RotateLeft(r);
        colorFlips := colorFlips + 1;
      }
      if IsRed(r.left) && IsRed(r.left.left) {
        r := RotateRight(r);
        colorFlips := colorFlips + 1;
      }
      if IsRed(r.left) && IsRed(r.right) {
        r := FlipColors(r);
        colorFlips := colorFlips + 1;
      }
    }

    /** `_put` */
    method PutAt(node: Tree, book: Book) returns (r: Tree)
      modifies this
      ensures root == old(root)
      ensures r == Inserted(node, book).tree
      ensures colorFlips == old(colorFlips) + Inserted(node, book).events
      decreases node
    {
      if node.Leaf? {
        return Node(Red, Leaf, book, Leaf);
      }
      var n := node;
      if book.bookId < n.book.bookId {
        var l := PutAt(n.left, book);
        n := n.(left := l);
      } else if book.bookId > n.book.bookId {
        var rr := PutAt(n.right, book);
        n := n.(right := rr);
      }
      r := FixUp(n);
    }

    /** `put`: insert, then colour the root black. */
    method Put(book: Book)
      requires Valid()
      modifies this
      ensures Valid()
      ensures root == Blacken(Inserted(old(root), book).tree)
      ensures root.Node? && root.color == Black
      ensures Keys(root) == old(Keys(root)) + {book.bookId}
      ensures Books(root) == if book.bookId in old(Keys(root)) then old(Books(root)) else old(Books(root)) + {book}
      ensures Lookup(root, book.bookId) ==
        if book.bookId in old(Keys(root)) then old(Lookup(root, book.bookId)) else Some(book)
      ensures old(IsLlrb(root)) ==> IsLlrb(root)
      ensures colorFlips >= old(colorFlips)
    {
      InsertedContents(root, book);
      LookupCorrect(root, book.bookId);
      if IsLlrb(root) {
        PutKeepsShape(root, book);
      }
      var r := PutAt(root, book);
      RecolorKeeps(r, Black);
      root := r.(color := Black);
      LookupCorrect(root, book.bookId);
    }

    /** `get`: follow the ids down from the root. */
    method Get(key: int) returns (found: Option<Book>)
      ensures found == Lookup(root, key)
      ensures Valid() ==> (found.Some? <==> key in Keys(root))
      ensures Valid() && found.Some? ==> found.value in Books(root) && found.value.bookId == key
    {
      if Valid() {
        LookupCorrect(root, key);
      }
      var node := root;
      while node.Node?
        invariant Lookup(node, key) == Lookup(root, key)
        decreases node
      {
        if key == node.book.bookId {
          return Some(node.book);
        } else if key < node.book.bookId {
          node := node.left;
        } else {
          node := node.right;
        }
      }
      return None;
    }

    /** `_get_min`: follow left links to the end. */
    method GetMin(node: Tree) returns (min: Book)
      requires node.Node?
      ensures min == Leftmost(node) && min in Books(node)
      ensures Bst(node) ==> forall k :: k in Keys(node) ==> min.bookId <= k
    {
      if Bst(node) {
        LeftmostIsMin(node);
      }
      var n := node;
      while n.left.Node?
        invariant n.Node? && Leftmost(n) == Leftmost(node)
        decreases n
      {
        n := n.left;
      }
      min := n.book;
    }

    /** `_delete` */
    method DeleteAt(node: Tree, key: int) returns (r: Tree)
      modifies this
      ensures root == old(root)
      ensures r == Deleted(node, key).tree
      ensures colorFlips == old(colorFlips) + Deleted(node, key).events
      decreases node
    {
      if node.Leaf? {
        return Leaf;
      }
      var n := node;
      if key < n.book.bookId {
        var l := DeleteAt(n.left, key);
        n := n.(left := l);
      } else if key > n.book.bookId {
        var rr := DeleteAt(n.right, key);
        n := n.(right := rr);
      } else if n.left.Leaf? {
        return n.right;
      } else if n.right.Leaf? {
        return n.left;
      } else {
        var successor := GetMin(n.right);
        var rr := DeleteAt(n.right, successor.bookId);
        n := n.(book := successor, right := rr);
      }
      r := FixUp(n);
    }

    /** `delete`: the root becomes whatever `_delete` returns; it is not recoloured. */
    method Delete(key: int)
      requires Valid()
      modifies this
      ensures Valid()
      ensures root == Deleted(old(root), key).tree
      ensures Keys(root) == old(Keys(root)) - {key}
      ensures forall y :: y in Books(root) ==> y in old(Books(root)) && y.bookId != key
      ensures forall y :: y in old(Books(root)) && y.bookId != key ==> y in Books(root)
      ensures colorFlips >= old(colorFlips)
    {
      DeletedContents(root, key);
      root := DeleteAt(root, key);
    }

    /** `inorder_traversal`: exactly the books with ids in [lo, hi], by increasing id. */
    method InorderTraversal(lo: int, hi: int) returns (nodes: seq<Book>)
      requires Valid()
      ensures nodes == InRange(Inorder(root), lo, hi)
      ensures StrictlyIncreasing(nodes)
      ensures forall y :: y in nodes ==> y in Books(root) && lo <= y.bookId <= hi
      ensures forall y :: y in Books(root) && lo <= y.bookId <= hi ==> y in nodes
      ensures lo > hi ==> nodes == []
    {
      InorderSorted(root);
      InRangeSorted(Inorder(root), lo, hi);
      InRangeMembers(Inorder(root), lo, hi);
      nodes := InorderFrom(root, lo, hi, []);
      assert [] + InRange(Inorder(root), lo, hi) == InRange(Inorder(root), lo, hi);
      if lo > hi {
        NoneInRange(Inorder(root), lo, hi);
      }
    }

    method GetColorFlips() returns (flips: nat)
      ensures flips == colorFlips
    {
      flips := colorFlips;
    }
  }

  /** `_inorder_traversal`: appends to `nodes` the books of `node` whose ids lie in
      [lo, hi], visiting a side only when the range reaches past the node's id. */
  method InorderFrom(node: Tree, lo: int, hi: int, nodes: seq<Book>) returns (out: seq<Book>)
    requires Bst(node)
    ensures out == nodes + InRange(Inorder(node), lo, hi)
    decreases node
  {
    if node.Leaf? {
      return nodes;
    }
    var id := node.book.bookId;
    ghost var fromLeft := if lo < id then InRange(Inorder(node.left), lo, hi) else [];
    ghost var here: seq<Book> := if lo <= id <= hi then [node.book] else [];
    ghost var fromRight := if hi > id then InRange(Inorder(node.right), lo, hi) else [];
    InRangeSplit(node, lo, hi);
    AppendAssoc(nodes, fromLeft, here, fromRight);
    out := nodes;
    if lo < id {
      out := InorderFrom(node.left, lo, hi, out);
    }
    assert out == nodes + fromLeft;
    if lo <= id && hi >= id {
      out := out + [node.book];
    }
    assert out == nodes + fromLeft + here;
    if hi > id {
      out := InorderFrom(node.right, lo, hi, out);
    }
    assert out == nodes + fromLeft + here + fromRight;
  }

  lemma AppendAssoc(a: seq<Book>, b: seq<Book>, c: seq<Book>, d: seq<Book>)
    ensures a + (b + c + d) == a + b + c + d
  {
  }

  /** A range that no book of `s` falls into selects nothing. */
  lemma NoneInRange(s: seq<Book>, lo: int, hi: int)
    requires forall y :: y in s ==> !(lo <= y.bookId <= hi)
    ensures InRange(s, lo, hi) == []
  {
    InRangeMembers(s, lo, hi);
  }

  /** In a search tree the range scan of a node splits into the scans of its sides, and a
      side lying wholly beyond the range contributes nothing. */
  lemma InRangeSplit(t: Tree, lo: int, hi: int)
    requires t.Node? && Bst(t)
    ensures InRange(Inorder(t), lo, hi) ==
      (if lo < t.book.bookId then InRange(Inorder(t.left), lo, hi) else []) +
      (if lo <= t.book.bookId <= hi then [t.book] else []) +
      (if hi > t.book.bookId then InRange(Inorder(t.right), lo, hi) else [])
  {
    InorderSorted(t.left);
    InorderSorted(t.right);
    InRangeConcat(Inorder(t.left) + [t.book], Inorder(t.right), lo, hi);
    InRangeConcat(Inorder(t.left), [t.book], lo, hi);
    assert InRange([t.book], lo, hi) == if lo <= t.book.bookId <= hi then [t.book] else [];
    if lo >= t.book.bookId {
      NoneInRange(Inorder(t.left), lo, hi);
    }
    if hi <= t.book.bookId {
      NoneInRange(Inorder(t.right), lo, hi);
    }
  }
}
