/**
 * Tree construction: one leaf per distinct symbol is pushed onto the queue,
 * then, while more than one tree is queued, two minimum-count trees are
 * popped and a node joining them (first popped on the left) is pushed.
 *
 * The merge loop records, as a ghost trace, the pairs it merged; `IsRun`
 * says that every step merged a minimum tree with a minimum of what was
 * left, which is the whole of Huffman's rule with ties left open.
 */
module TreeBuilder {
  import opened Wrappers
  import opened HuffmanTree
  import opened FrequencyCount
  import opened PriorityQueue

  /** The leaves for the entries of `freq` whose keys are in `keys`. */
  ghost function LeavesOf(freq: map<Symbol, nat>, keys: set<Symbol>): set<Tree> {
    set k | k in freq && k in keys :: Leaf(k, freq[k])
  }

  /** The queue after the fill loop, as a collection: one leaf per map entry. */
  ghost function InitialQueue(freq: map<Symbol, nat>): multiset<Tree> {
    multiset(LeavesOf(freq, freq.Keys))
  }

  /** The entries of `freq` whose keys are in `keys`. */
  function Restrict(freq: map<Symbol, nat>, keys: set<Symbol>): map<Symbol, nat> {
    map k | k in freq && k in keys :: freq[k]
  }

  /** What the fill loop has built once the entries `done` are pushed. */
  ghost predicate Filled(freq: map<Symbol, nat>, done: set<Symbol>, q: seq<Tree>) {
    && multiset(q) == multiset(LeavesOf(freq, done))
    && |q| == |done|
    && TotalFreq(q) == SumValues(Restrict(freq, done))
    && QueueSymbols(q) == multiset(done)
    && forall t | t in q :: t.Leaf?
  }

  /**
   * The fill loop: iterates over the map in an order the model leaves open
   * (Rust's `HashMap` order is randomised) and pushes one leaf per entry.
   */
  method FillQueue(freq: map<Symbol, nat>) returns (q: seq<Tree>)
    ensures multiset(q) == InitialQueue(freq)
    ensures |q| == |freq|
    ensures TotalFreq(q) == SumValues(freq)
    ensures QueueSymbols(q) == multiset(freq.Keys)
    ensures forall t | t in q :: t.Leaf?
    ensures AllWellFormed(q)
  {
    var pending := freq.Keys;
    q := [];
    ghost var order: seq<Symbol> := [];
    while pending != {}
      invariant pending <= freq.Keys
      invariant forall k :: k in order <==> k in freq && k !in pending
      invariant NoDuplicates(order)
      invariant q == LeavesFor(freq, order)
      decreases pending
    {
      var k :| k in pending;
      q := q + [Leaf(k, freq[k])];
      assert (order + [k])[..|order|] == order;
      order := order + [k];
      pending := pending - {k};
    }
    EnumeratedLeaves(freq, order);
    assert (set x | x in order) == freq.Keys;
    FillDone(freq, freq.Keys, q);
  }

  predicate NoDuplicates(s: seq<Symbol>) {
    forall i, j | 0 <= i < j < |s| :: s[i] != s[j]
  }

  /** The leaves for the keys `order`, pushed in that order. */
  function LeavesFor(freq: map<Symbol, nat>, order: seq<Symbol>): seq<Tree>
    requires forall k | k in order :: k in freq
  {
    if order == [] then []
    else
      var k := order[|order| - 1];
      LeavesFor(freq, order[..|order| - 1]) + [Leaf(k, freq[k])]
  }

  /** Pushing the leaves of distinct keys, one by one, builds what `Filled` describes. */
  lemma {:induction false} EnumeratedLeaves(freq: map<Symbol, nat>, order: seq<Symbol>)
    requires forall k | k in order :: k in freq
    requires NoDuplicates(order)
    ensures Filled(freq, (set x | x in order), LeavesFor(freq, order))
  {
    if order == [] {
      assert Restrict(freq, {}) == map[];
      assert LeavesOf(freq, {}) == {};
    } else {
      var init, k := order[..|order| - 1], order[|order| - 1];
      assert order == init + [k];
      EnumeratedLeaves(freq, init);
      FillPush(freq, (set x | x in init), k, LeavesFor(freq, init));
      assert (set x | x in init) + {k} == (set x | x in order);
    }
  }

  /** Pushing the leaf of one more entry keeps `Filled`. */
  lemma FillPush(freq: map<Symbol, nat>, done: set<Symbol>, k: Symbol, q: seq<Tree>)
    requires k in freq && k !in done && Filled(freq, done, q)
    ensures Filled(freq, done + {k}, q + [Leaf(k, freq[k])])
  {
    var leaf := Leaf(k, freq[k]);
    var done', q' := done + {k}, q + [leaf];
    assert multiset(q') == multiset(LeavesOf(freq, done')) by {
      FillLeaves(freq, done, k);
    }
    assert |q'| == |done'|;
    assert TotalFreq(q') == SumValues(Restrict(freq, done')) by {
      FillSum(freq, done, k);
      TotalFreqAppend(q, [leaf]);
      assert TotalFreq([leaf]) == freq[k];
    }
    assert QueueSymbols(q') == multiset(done') by {
      QueueSymbolsAppend(q, [leaf]);
      assert multiset(done') == multiset(done) + multiset{k};
      assert QueueSymbols([leaf]) == multiset{k};
    }
    assert forall t | t in q' :: t.Leaf?;
  }

  /** Once every entry is pushed, the queue holds exactly the leaves of the map. */
  lemma FillDone(freq: map<Symbol, nat>, done: set<Symbol>, q: seq<Tree>)
    requires done == freq.Keys && Filled(freq, done, q)
    ensures multiset(q) == InitialQueue(freq)
    ensures |q| == |freq|
    ensures TotalFreq(q) == SumValues(freq)
    ensures QueueSymbols(q) == multiset(freq.Keys)
    ensures forall t | t in q :: t.Leaf?
    ensures AllWellFormed(q)
  {
    assert Restrict(freq, done) == freq;
    assert |freq.Keys| == |freq|;
  }

  /** Adding the entry `k` adds its count to the sum of the entries done. */
  lemma FillSum(freq: map<Symbol, nat>, done: set<Symbol>, k: Symbol)
    requires k in freq && k !in done
    ensures SumValues(Restrict(freq, done + {k})) == SumValues(Restrict(freq, done)) + freq[k]
  {
    var r := Restrict(freq, done + {k});
    SumValuesRemove(r, k);
    assert r - {k} == Restrict(freq, done);
  }

  /** Adding the entry `k` adds exactly its leaf to the leaves done. */
  lemma FillLeaves(freq: map<Symbol, nat>, done: set<Symbol>, k: Symbol)
    requires k in freq && k !in done
    ensures multiset(LeavesOf(freq, done + {k})) == multiset(LeavesOf(freq, done)) + multiset{Leaf(k, freq[k])}
  {
    var leaf := Leaf(k, freq[k]);
    assert LeavesOf(freq, done + {k}) == LeavesOf(freq, done) + {leaf};
    assert leaf !in LeavesOf(freq, done);
  }

  // The merge rule and runs of it

  /** Huffman's rule: `left` is a minimum of the queue and `right` a minimum of what is left. */
  ghost predicate LegalMerge(m: multiset<Tree>, left: Tree, right: Tree) {
    IsMinIn(left, m) && IsMinIn(right, m - multiset{left})
  }

  /** The queue after merging `left` and `right`. */
  ghost function Merged(m: multiset<Tree>, left: Tree, right: Tree): multiset<Tree> {
    m - multiset{left} - multiset{right} + multiset{Combine(left, right)}
  }

  /** The queue after applying the merges `ms` to `m`, in order. */
  ghost function After(m: multiset<Tree>, ms: seq<(Tree, Tree)>): multiset<Tree>
    decreases |ms|
  {
    if ms == [] then m
    else
      var last := ms[|ms| - 1];
      Merged(After(m, ms[..|ms| - 1]), last.0, last.1)
  }

  /** Every merge of `ms` follows Huffman's rule in the queue it is applied to. */
  ghost predicate IsRun(m: multiset<Tree>, ms: seq<(Tree, Tree)>)
    decreases |ms|
  {
    ms == [] ||
    (IsRun(m, ms[..|ms| - 1]) &&
     LegalMerge(After(m, ms[..|ms| - 1]), ms[|ms| - 1].0, ms[|ms| - 1].1))
  }

  /** Every legal merge shrinks the queue by exactly one tree. */
  lemma {:induction false} RunSize(m: multiset<Tree>, ms: seq<(Tree, Tree)>)
    requires IsRun(m, ms)
    ensures |After(m, ms)| + |ms| == |m|
    ensures ms != [] ==> |After(m, ms)| >= 1
  {
    if ms != [] {
      var init, last := ms[..|ms| - 1], ms[|ms| - 1];
      RunSize(m, init);
      var a := After(m, init);
      assert last.0 in a;
      assert last.1 in a - multiset{last.0};
      assert |a - multiset{last.0}| == |a| - 1;
      assert |a - multiset{last.0} - multiset{last.1}| == |a| - 2;
    }
  }

  /** A run can only stop once: from a single tree no merge is legal. */
  lemma {:induction false} SingleTreeRunIsEmpty(t: Tree, ms: seq<(Tree, Tree)>)
    requires IsRun(multiset{t}, ms)
    ensures ms == []
  {
    if ms != [] {
      RunSize(multiset{t}, ms[..|ms| - 1]);
      RunSize(multiset{t}, ms);
      assert false;
    }
  }

  /** One loop step: the pair popped follows the rule and the queue becomes `Merged`. */
  lemma ExtendRun(m: multiset<Tree>, ms: seq<(Tree, Tree)>, left: Tree, right: Tree)
    requires IsRun(m, ms) && LegalMerge(After(m, ms), left, right)
    ensures IsRun(m, ms + [(left, right)])
    ensures After(m, ms + [(left, right)]) == Merged(After(m, ms), left, right)
  {
    assert (ms + [(left, right)])[..|ms|] == ms;
  }

  /**
   * The merge loop: `while pq.len() > 1` (Rust), `while (pq.size() > 1)` (C++).
   * Each step pops two trees and pushes their combination.
   */
  method MergeAll(q0: seq<Tree>) returns (q: seq<Tree>, ghost merges: seq<(Tree, Tree)>)
    ensures |q0| <= 1 ==> q == q0 && merges == []
    ensures |q0| >= 1 ==> |q| == 1 && |merges| == |q0| - 1
    ensures IsRun(multiset(q0), merges) && After(multiset(q0), merges) == multiset(q)
    ensures TotalFreq(q) == TotalFreq(q0)
    ensures QueueSymbols(q) == QueueSymbols(q0)
    ensures AllWellFormed(q0) ==> AllWellFormed(q)
  {
    q, merges := q0, [];
    while |q| > 1
      invariant |q| + |merges| == |q0|
      invariant |q0| >= 1 ==> |q| >= 1
      invariant merges == [] ==> q == q0
      invariant IsRun(multiset(q0), merges) && After(multiset(q0), merges) == multiset(q)
      invariant TotalFreq(q) == TotalFreq(q0)
      invariant QueueSymbols(q) == QueueSymbols(q0)
      invariant AllWellFormed(q0) ==> AllWellFormed(q)
      decreases |q|
    {
      var left, rest := Pop(q);
      var right, rest' := Pop(rest);
      MergeStep(q, left.value, rest, right.value, rest');
      ExtendRun(multiset(q0), merges, left.value, right.value);
      q := rest' + [Combine(left.value, right.value)];
      merges := merges + [(left.value, right.value)];
    }
  }

  /** The bookkeeping of one merge step. */
  lemma MergeStep(q: seq<Tree>, left: Tree, rest: seq<Tree>, right: Tree, rest': seq<Tree>)
    requires IsRustHeapTop(left, multiset(q)) && multiset(rest) == multiset(q) - multiset{left}
    requires IsRustHeapTop(right, multiset(rest)) && multiset(rest') == multiset(rest) - multiset{right}
    ensures LegalMerge(multiset(q), left, right)
    ensures multiset(rest' + [Combine(left, right)]) == Merged(multiset(q), left, right)
    ensures |rest' + [Combine(left, right)]| == |q| - 1
    ensures TotalFreq(rest' + [Combine(left, right)]) == TotalFreq(q)
    ensures QueueSymbols(rest' + [Combine(left, right)]) == QueueSymbols(q)
    ensures AllWellFormed(q) ==> AllWellFormed(rest' + [Combine(left, right)])
  {
    RustTopIsMin(left, multiset(q));
    RustTopIsMin(right, multiset(rest));
    MergeSums(q, left, rest, right, rest');
    MergeQueue(q, left, rest, right, rest');
    if AllWellFormed(q) {
      MergeWellFormed(q, left, rest, right, rest');
    }
  }

  /** A merge step leaves the queue one tree shorter, with `Combine(left, right)` in place of the pair. */
  lemma MergeQueue(q: seq<Tree>, left: Tree, rest: seq<Tree>, right: Tree, rest': seq<Tree>)
    requires left in multiset(q) && multiset(rest) == multiset(q) - multiset{left}
    requires right in multiset(rest) && multiset(rest') == multiset(rest) - multiset{right}
    ensures multiset(rest' + [Combine(left, right)]) == Merged(multiset(q), left, right)
    ensures |rest' + [Combine(left, right)]| == |q| - 1
  {
    assert |multiset(q)| == |multiset(rest)| + 1;
    assert |multiset(rest)| == |multiset(rest')| + 1;
  }

  /** A merge step conserves the total count and the leaf symbols of the queue. */
  lemma MergeSums(q: seq<Tree>, left: Tree, rest: seq<Tree>, right: Tree, rest': seq<Tree>)
    requires left in multiset(q) && multiset(rest) == multiset(q) - multiset{left}
    requires right in multiset(rest) && multiset(rest') == multiset(rest) - multiset{right}
    ensures TotalFreq(rest' + [Combine(left, right)]) == TotalFreq(q)
    ensures QueueSymbols(rest' + [Combine(left, right)]) == QueueSymbols(q)
  {
    var merged := Combine(left, right);
    assert TotalFreq(rest' + [merged]) == TotalFreq(q) by {
      PopSums(q, left, rest);
      PopSums(rest, right, rest');
      PushSums(rest', merged);
    }
    assert QueueSymbols(rest' + [merged]) == QueueSymbols(q) by {
      PopSums(q, left, rest);
      PopSums(rest, right, rest');
      PushSums(rest', merged);
      assert LeafSymbols(merged) == LeafSymbols(left) + LeafSymbols(right);
    }
  }

  /** Pushing `t` adds its count and its leaf symbols to the queue's. */
  lemma PushSums(q: seq<Tree>, t: Tree)
    ensures TotalFreq(q + [t]) == TotalFreq(q) + t.freq
    ensures QueueSymbols(q + [t]) == QueueSymbols(q) + LeafSymbols(t)
  {
    TotalFreqAppend(q, [t]);
    QueueSymbolsAppend(q, [t]);
    assert [t][1..] == [];
  }

  /** Popping `top` off `q` leaves `rest`, whose sums lack exactly `top`'s. */
  lemma PopSums(q: seq<Tree>, top: Tree, rest: seq<Tree>)
    requires top in multiset(q) && multiset(rest) == multiset(q) - multiset{top}
    ensures TotalFreq(q) == top.freq + TotalFreq(rest)
    ensures QueueSymbols(q) == LeafSymbols(top) + QueueSymbols(rest)
  {
    assert multiset(q) == multiset([top] + rest);
    assert ([top] + rest)[1..] == rest;
    TotalFreqPerm(q, [top] + rest);
    QueueSymbolsPerm(q, [top] + rest);
  }

  /** Merging two well-formed trees of a well-formed queue keeps every tree well-formed. */
  lemma MergeWellFormed(q: seq<Tree>, left: Tree, rest: seq<Tree>, right: Tree, rest': seq<Tree>)
    requires left in multiset(q) && multiset(rest) == multiset(q) - multiset{left}
    requires right in multiset(rest) && multiset(rest') == multiset(rest) - multiset{right}
    requires AllWellFormed(q)
    ensures AllWellFormed(rest' + [Combine(left, right)])
  {
    assert left in q;
    assert right in multiset(q);
    forall t | t in rest' + [Combine(left, right)] ensures WellFormed(t) {
      if t in rest' {
        assert t in multiset(rest') && t in multiset(rest) && t in multiset(q);
      }
    }
  }

  /** A queue of one tree: its sums are that tree's. */
  lemma SingleTree(q: seq<Tree>, t: Tree)
    requires |q| == 1 && t in multiset(q)
    ensures multiset(q) == multiset{t}
    ensures TotalFreq(q) == t.freq && QueueSymbols(q) == LeafSymbols(t)
    ensures AllWellFormed(q) ==> WellFormed(t)
  {
    assert q == [t];
    assert q[1..] == [];
  }
}
