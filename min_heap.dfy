/** A 1-indexed binary min-heap of reservations, ordered by (priority, timestamp). */
module MinHeaps {
  import opened Wrappers

  /** One reservation tuple (patron, priority, timestamp); the timestamp is an arrival number. */
  datatype Reservation = Reservation(patronId: int, priority: int, timestamp: int)

  /** The strict order both sifts use: smaller priority first, then earlier timestamp. */
  predicate Precedes(a: Reservation, b: Reservation) {
    a.priority < b.priority || (a.priority == b.priority && a.timestamp < b.timestamp)
  }

  /** `a` is not strictly after `b` in (priority, timestamp) order. */
  predicate NoLater(a: Reservation, b: Reservation) {
    !Precedes(b, a)
  }

  /** `Precedes` is a strict order, and it orders any two reservations whose (priority,
      timestamp) pairs differ; so `NoLater` compares every pair. */
  lemma PrecedesIsStrictOrder(a: Reservation, b: Reservation, c: Reservation)
    ensures !Precedes(a, a)
    ensures Precedes(a, b) && Precedes(b, c) ==> Precedes(a, c)
    ensures (a.priority, a.timestamp) != (b.priority, b.timestamp) ==> Precedes(a, b) || Precedes(b, a)
    ensures NoLater(a, b) || NoLater(b, a)
  {
  }

  /** The shape of the heap list: the dummy None at index 0, a reservation at every other index. */
  ghost predicate WellFormed(h: seq<Option<Reservation>>) {
    |h| >= 1 && h[0] == None && forall i :: 1 <= i < |h| ==> h[i].Some?
  }

  /** The reservations stored at indices 1.., in array order. */
  ghost function Values(h: seq<Option<Reservation>>): (vs: seq<Reservation>)
    requires WellFormed(h)
    ensures |vs| == |h| - 1
    ensures forall i :: 0 <= i < |vs| ==> Some(vs[i]) == h[i + 1]
  {
    seq(|h| - 1, i requires 0 <= i < |h| - 1 => h[i + 1].value)
  }

  /** The edge from the parent of `i` to `i` is in order. */
  ghost predicate EdgeOrdered(h: seq<Option<Reservation>>, i: int)
    requires WellFormed(h) && 2 <= i < |h|
  {
    NoLater(h[i / 2].value, h[i].value)
  }

  /** The heap property: every parent is no later than its children. */
  ghost predicate Ordered(h: seq<Option<Reservation>>)
    requires WellFormed(h)
  {
    forall i :: 2 <= i < |h| ==> EdgeOrdered(h, i)
  }

  /** Sift-up state at `k`: every edge holds except the one into `k`, and the parent of `k`
      is no later than the children of `k`. */
  ghost predicate SiftUpReady(h: seq<Option<Reservation>>, k: int)
    requires WellFormed(h) && 1 <= k < |h|
  {
    (forall i :: 2 <= i < |h| && i != k ==> EdgeOrdered(h, i)) &&
    (k >= 2 && 2 * k < |h| ==> NoLater(h[k / 2].value, h[2 * k].value)) &&
    (k >= 2 && 2 * k + 1 < |h| ==> NoLater(h[k / 2].value, h[2 * k + 1].value))
  }

  /** Sift-down state at `k`: every edge holds except the two out of `k`, and the parent of `k`
      is no later than the children of `k`. */
  ghost predicate SiftDownReady(h: seq<Option<Reservation>>, k: int)
    requires WellFormed(h) && 1 <= k
  {
    (forall i :: 2 <= i < |h| && i / 2 != k ==> EdgeOrdered(h, i)) &&
    (2 <= k && 2 * k < |h| ==> NoLater(h[k / 2].value, h[2 * k].value)) &&
    (2 <= k && 2 * k + 1 < |h| ==> NoLater(h[k / 2].value, h[2 * k + 1].value))
  }

  /** In a heap-ordered list the entry at index 1 is no later than any entry. */
  lemma {:induction false} RootIsMinimum(h: seq<Option<Reservation>>, i: int)
    requires WellFormed(h) && Ordered(h) && 1 <= i < |h|
    ensures NoLater(h[1].value, h[i].value)
    decreases i
  {
    if i > 1 {
      assert EdgeOrdered(h, i);
      RootIsMinimum(h, i / 2);
    }
  }

  /** Swapping two slots at indices >= 1 keeps the multiset of stored reservations. */
  lemma SwapKeepsValues(h: seq<Option<Reservation>>, i: int, j: int)
    requires WellFormed(h) && 1 <= i < |h| && 1 <= j < |h|
    ensures WellFormed(h[i := h[j]][j := h[i]])
    ensures multiset(Values(h[i := h[j]][j := h[i]])) == multiset(Values(h))
  {
    var g := h[i := h[j]][j := h[i]];
    var vs := Values(h);
    assert Values(g) == vs[i - 1 := vs[j - 1]][j - 1 := vs[i - 1]];
  }

  class MinHeap {
    /** The Python list `heap`: index 0 holds None, the entries follow. */
    var heap: seq<Option<Reservation>>

    ghost predicate Valid()
      reads this
    {
      WellFormed(heap) && Ordered(heap)
    }

    /** The multiset of reservations the heap holds. */
    ghost function Items(): multiset<Reservation>
      reads this
      requires WellFormed(heap)
    {
      multiset(Values(heap))
    }

    constructor ()
      ensures Valid() && heap == [None] && Items() == multiset{}
    {
      heap := [None];
    }

    /** True exactly when only the dummy is left. */
    function IsEmpty(): (empty: bool)
      reads this
      requires WellFormed(heap)
      ensures empty <==> Items() == multiset{}
    {
      assert |heap| > 1 ==> Values(heap)[0] in Items();
      |heap| == 1
    }

    method Insert(reservation: Reservation)
      requires Valid()
      modifies this
      ensures Valid()
      ensures heap[0] == None && |heap| == old(|heap|) + 1
      ensures Items() == old(Items()) + multiset{reservation}
    {
      ghost var h0 := heap;
      heap := heap + [Some(reservation)];
      assert Values(heap) == Values(h0) + [reservation];
      forall i | 2 <= i < |heap| && i != |heap| - 1 ensures EdgeOrdered(heap, i) {
        assert EdgeOrdered(h0, i);
      }
      BubbleUp(|heap| - 1);
    }

    /** Moves the entry at `start` towards the root while it precedes its parent. */
    method BubbleUp(start: int)
      requires WellFormed(heap) && 1 <= start < |heap| && SiftUpReady(heap, start)
      modifies this
      ensures Valid()
      ensures |heap| == old(|heap|) && Items() == old(Items())
    {
      var idx := start;
      while idx > 1
        invariant WellFormed(heap) && 1 <= idx < |heap| && SiftUpReady(heap, idx)
        invariant |heap| == old(|heap|) && Items() == old(Items())
        decreases idx
      {
        var parentIdx := idx / 2;
        if heap[parentIdx].Some? && Precedes(heap[idx].value, heap[parentIdx].value) {
          SwapUp(heap, idx);
          SwapKeepsValues(heap, parentIdx, idx);
          heap := heap[parentIdx := heap[idx]][idx := heap[parentIdx]];
          idx := parentIdx;
        } else {
          assert forall i :: 2 <= i < |heap| ==> EdgeOrdered(heap, i);
          return;
        }
      }
    }

    method ExtractMin() returns (min: Option<Reservation>)
      requires Valid()
      modifies this
      ensures Valid() && heap[0] == None
      ensures old(|heap|) <= 1 ==> min == None && heap == old(heap)
      ensures old(|heap|) > 1 ==>
        && min.Some?
        && min.value in old(Items())
        && (forall r :: r in old(Items()) ==> NoLater(min.value, r))
        && Items() == old(Items()) - multiset{min.value}
        && |heap| == old(|heap|) - 1
    {
      if |heap| <= 1 {
        return None;
      }
      min := heap[1];
      RemoveRoot(heap);
      heap := heap[1 := heap[|heap| - 1]];
      heap := heap[..|heap| - 1];
      BubbleDown(1);
    }

    /** Moves the entry at `start` away from the root while a child precedes it. */
    method BubbleDown(start: int)
      requires WellFormed(heap) && 1 <= start <= |heap| && SiftDownReady(heap, start)
      modifies this
      ensures Valid()
      ensures |heap| == old(|heap|) && Items() == old(Items())
    {
      var idx := start;
      while true
        invariant WellFormed(heap) && 1 <= idx <= |heap| && SiftDownReady(heap, idx)
        invariant |heap| == old(|heap|) && Items() == old(Items())
        decreases |heap| - idx
      {
        var smallest := idx;
        var leftIdx := 2 * idx;
        var rightIdx := 2 * idx + 1;
        if leftIdx < |heap| && heap[leftIdx].Some? {
          if Precedes(heap[leftIdx].value, heap[smallest].value) {
            smallest := leftIdx;
          }
        }
        if rightIdx < |heap| && heap[rightIdx].Some? {
          if Precedes(heap[rightIdx].value, heap[smallest].value) {
            smallest := rightIdx;
          }
        }
        if smallest == idx {
          assert forall i :: 2 <= i < |heap| ==> EdgeOrdered(heap, i);
          return;
        }
        SwapDown(heap, idx, smallest);
        SwapKeepsValues(heap, idx, smallest);
        heap := heap[idx := heap[smallest]][smallest := heap[idx]];
        idx := smallest;
      }
    }
  }

  /** The entry at index 1 is a minimum; moving the last entry to index 1 and dropping the
      last slot removes exactly that entry and leaves a sift-down state at the root. */
  lemma RemoveRoot(h: seq<Option<Reservation>>)
    requires WellFormed(h) && Ordered(h) && |h| > 1
    ensures forall r :: r in multiset(Values(h)) ==> NoLater(h[1].value, r)
    ensures WellFormed(h[1 := h[|h| - 1]][..|h| - 1])
    ensures SiftDownReady(h[1 := h[|h| - 1]][..|h| - 1], 1)
    ensures multiset(Values(h[1 := h[|h| - 1]][..|h| - 1]))
         == multiset(Values(h)) - multiset{h[1].value}
  {
    var vs := Values(h);
    forall r | r in multiset(vs) ensures NoLater(h[1].value, r) {
      var i :| 0 <= i < |vs| && vs[i] == r;
      RootIsMinimum(h, i + 1);
    }
    var last := |h| - 1;
    var g := h[1 := h[last]][..last];
    forall i | 2 <= i < |g| && i / 2 != 1 ensures EdgeOrdered(g, i) {
      assert EdgeOrdered(h, i);
    }
    assert vs == [vs[0]] + vs[1..];
    if last > 1 {
      assert Values(g) == [vs[last - 1]] + vs[1..last - 1];
      assert vs[1..] == vs[1..last - 1] + [vs[last - 1]];
    } else {
      assert Values(g) == [];
    }
  }

  /** One sift-up step: swapping `k` with its parent when it precedes the parent moves
      the sift-up state to the parent. */
  lemma SwapUp(h: seq<Option<Reservation>>, k: int)
    requires WellFormed(h) && 2 <= k < |h| && SiftUpReady(h, k)
    requires Precedes(h[k].value, h[k / 2].value)
    ensures WellFormed(h[k / 2 := h[k]][k := h[k / 2]])
    ensures SiftUpReady(h[k / 2 := h[k]][k := h[k / 2]], k / 2)
  {
    var p := k / 2;
    var g := h[p := h[k]][k := h[p]];
    forall i | 2 <= i < |g| && i != p ensures EdgeOrdered(g, i) {
      if i == k {
      } else if i / 2 == k {
      } else if i / 2 == p {
        assert EdgeOrdered(h, i);
      } else {
        assert EdgeOrdered(h, i);
      }
    }
    if p >= 2 {
      assert EdgeOrdered(h, p);
      if 2 * p < |g| && 2 * p != k { assert EdgeOrdered(h, 2 * p); }
      if 2 * p + 1 < |g| && 2 * p + 1 != k { assert EdgeOrdered(h, 2 * p + 1); }
    }
  }

  /** One sift-down step: swapping `k` with its preceding child `c`, the smallest of the
      three, moves the sift-down state to `c`. */
  lemma SwapDown(h: seq<Option<Reservation>>, k: int, c: int)
    requires WellFormed(h) && 1 <= k && SiftDownReady(h, k)
    requires (c == 2 * k || c == 2 * k + 1) && c < |h|
    requires Precedes(h[c].value, h[k].value)
    requires 2 * k < |h| ==> NoLater(h[c].value, h[2 * k].value)
    requires 2 * k + 1 < |h| ==> NoLater(h[c].value, h[2 * k + 1].value)
    ensures WellFormed(h[k := h[c]][c := h[k]])
    ensures SiftDownReady(h[k := h[c]][c := h[k]], c)
  {
    var g := h[k := h[c]][c := h[k]];
    forall i | 2 <= i < |g| && i / 2 != c ensures EdgeOrdered(g, i) {
      if i == k {
      } else if i / 2 == k {
      } else if i == c {
      } else {
        assert EdgeOrdered(h, i);
      }
    }
    if 2 * c < |g| { assert EdgeOrdered(h, 2 * c); }
    if 2 * c + 1 < |g| { assert EdgeOrdered(h, 2 * c + 1); }
  }
}
