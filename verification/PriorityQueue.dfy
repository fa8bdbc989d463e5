/**
 * The min-priority queue of trees, seen from outside. Both libraries' heaps
 * are max-heaps under a comparison that the programs reverse, so the element
 * they yield is one of minimum count. Neither heap is stable and Rust fills
 * it from a randomised hash map, so `Pop` may yield ANY tree of minimum
 * count; the heap's internal layout is not modelled.
 */
module PriorityQueue {
  import opened Wrappers
  import opened HuffmanTree

  datatype Ordering = Less | Equal | Greater

  /** Rust's `usize::cmp`. */
  function CompareCounts(a: nat, b: nat): Ordering {
    if a < b then Less else if a == b then Equal else Greater
  }

  /** Rust's `Ord for Node`: compares `other.freq` to `self.freq`, so smaller counts rank higher. */
  function NodeCmp(self: Tree, other: Tree): Ordering {
    CompareCounts(other.freq, self.freq)
  }

  /** C++'s `Compare`: true when `a` ranks below `b` in the priority queue. */
  predicate CppCompare(a: Tree, b: Tree) {
    a.freq > b.freq
  }

  /** `t` is in `m` and no tree in `m` has a smaller count. */
  ghost predicate IsMinIn(t: Tree, m: multiset<Tree>) {
    t in m && forall u | u in m :: t.freq <= u.freq
  }

  /** What `BinaryHeap::pop` yields: a greatest element under `Ord`. */
  ghost predicate IsRustHeapTop(t: Tree, m: multiset<Tree>) {
    t in m && forall u | u in m :: NodeCmp(u, t) != Greater
  }

  /** What `priority_queue::top` yields: an element that ranks below no other under `Compare`. */
  ghost predicate IsCppQueueTop(t: Tree, m: multiset<Tree>) {
    t in m && forall u | u in m :: !CppCompare(t, u)
  }

  /** The reversed `Ord` makes Rust's max-heap yield a minimum-count node. */
  lemma RustTopIsMin(t: Tree, m: multiset<Tree>)
    ensures IsRustHeapTop(t, m) <==> IsMinIn(t, m)
  {
  }

  /** `Compare` makes the C++ priority queue's top a minimum-count node. */
  lemma CppTopIsMin(t: Tree, m: multiset<Tree>)
    ensures IsCppQueueTop(t, m) <==> IsMinIn(t, m)
  {
  }

  /** A non-empty queue has a position holding a minimum-count tree. */
  lemma {:induction false} MinPosition(q: seq<Tree>) returns (i: nat)
    requires q != []
    ensures i < |q| && forall j | 0 <= j < |q| :: q[i].freq <= q[j].freq
  {
    if |q| == 1 {
      return 0;
    }
    var k := MinPosition(q[1..]);
    i := if q[0].freq <= q[k + 1].freq then 0 else k + 1;
    forall j | 0 <= j < |q| ensures q[i].freq <= q[j].freq {
      if j > 0 {
        assert q[j] == q[1..][j - 1];
      }
    }
  }

  /**
   * `BinaryHeap::pop`: `None` on an empty queue; otherwise some greatest tree
   * under the reversed `Ord` (so one of minimum count) and the queue without it.
   */
  method Pop(q: seq<Tree>) returns (top: Option<Tree>, rest: seq<Tree>)
    ensures top.None? <==> q == []
    ensures top.None? ==> rest == []
    ensures top.Some? ==> IsRustHeapTop(top.value, multiset(q))
    ensures top.Some? ==> multiset(rest) == multiset(q) - multiset{top.value}
  {
    if q == [] {
      return None, [];
    }
    ghost var m := MinPosition(q);
    var i :| 0 <= i < |q| && forall j | 0 <= j < |q| :: q[i].freq <= q[j].freq;
    top := Some(q[i]);
    rest := q[..i] + q[i + 1..];
    MinAt(q, i);
    RustTopIsMin(q[i], multiset(q));
    RemovePosition(q, i);
  }

  /** A position holding a least count holds a minimum of the queue's contents. */
  lemma MinAt(q: seq<Tree>, i: nat)
    requires i < |q| && forall j | 0 <= j < |q| :: q[i].freq <= q[j].freq
    ensures IsMinIn(q[i], multiset(q))
  {
    forall u | u in multiset(q) ensures q[i].freq <= u.freq {
      var j :| 0 <= j < |q| && q[j] == u;
    }
  }

  /** Removing the tree at one position removes exactly one copy of it. */
  lemma RemovePosition(q: seq<Tree>, i: nat)
    requires i < |q|
    ensures multiset(q[..i] + q[i + 1..]) == multiset(q) - multiset{q[i]}
  {
    assert q == q[..i] + [q[i]] + q[i + 1..];
  }

  /**
   * `priority_queue::top`: some tree that ranks below no other under
   * `Compare`. On an empty queue it is undefined behaviour, so callers must
   * not reach it with one.
   */
  method Top(q: seq<Tree>) returns (top: Tree)
    requires q != []
    ensures IsCppQueueTop(top, multiset(q))
  {
    ghost var m := MinPosition(q);
    var i :| 0 <= i < |q| && forall j | 0 <= j < |q| :: q[i].freq <= q[j].freq;
    top := q[i];
    MinAt(q, i);
    CppTopIsMin(q[i], multiset(q));
  }
}
