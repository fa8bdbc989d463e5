/**
 * The Huffman tree and the sums over a queue of trees that the merge loop
 * conserves.
 *
 * Both implementations build the same shape of tree: a leaf carries one
 * symbol and its count, an internal node carries the sum of its children's
 * counts and exactly two children. Shared ownership (Rust's Rc<RefCell<_>>,
 * C++'s raw pointers) is modelled as an immutable algebraic value.
 */
module HuffmanTree {

  /** One symbol of the text: a Rust `char`, a C++ `char` (byte). */
  type Symbol = char

  datatype Tree =
    | Leaf(sym: Symbol, freq: nat)
    | Node(freq: nat, left: Tree, right: Tree)

  /** The node a merge step pushes: left is the first node popped, right the second. */
  function Combine(left: Tree, right: Tree): Tree {
    Node(left.freq + right.freq, left, right)
  }

  /** Every internal node's count is the sum of its children's counts. */
  ghost predicate WellFormed(t: Tree) {
    match t
    case Leaf(_, _) => true
    case Node(f, l, r) => f == l.freq + r.freq && WellFormed(l) && WellFormed(r)
  }

  /** The symbols at the leaves of `t`, with multiplicity. */
  function LeafSymbols(t: Tree): multiset<Symbol> {
    match t
    case Leaf(c, _) => multiset{c}
    case Node(_, l, r) => LeafSymbols(l) + LeafSymbols(r)
  }

  /** The sum of the leaf counts of `t`. */
  function LeafFreqSum(t: Tree): nat {
    match t
    case Leaf(_, f) => f
    case Node(_, l, r) => LeafFreqSum(l) + LeafFreqSum(r)
  }

  /** No symbol labels two leaves. */
  ghost predicate DistinctLeaves(t: Tree) {
    forall c | c in LeafSymbols(t) :: LeafSymbols(t)[c] == 1
  }

  /** Every tree has at least one leaf. */
  lemma {:induction false} LeafSymbolsNonEmpty(t: Tree)
    ensures |LeafSymbols(t)| >= 1
    ensures t.Leaf? <==> |LeafSymbols(t)| == 1
  {
    match t
    case Leaf(_, _) =>
    case Node(_, l, r) =>
      LeafSymbolsNonEmpty(l);
      LeafSymbolsNonEmpty(r);
  }

  /** In a well-formed tree the root count is the sum of the leaf counts. */
  lemma {:induction false} RootFreqIsLeafSum(t: Tree)
    requires WellFormed(t)
    ensures t.freq == LeafFreqSum(t)
  {
    match t
    case Leaf(_, _) =>
    case Node(_, l, r) =>
      RootFreqIsLeafSum(l);
      RootFreqIsLeafSum(r);
  }

  /** A tree whose leaves carry exactly one symbol, once, is that symbol's leaf. */
  lemma OneSymbolLeaf(t: Tree, keys: set<Symbol>)
    requires LeafSymbols(t) == multiset(keys) && |keys| == 1
    ensures t.Leaf? && keys == {t.sym}
  {
    LeafSymbolsNonEmpty(t);
    assert multiset(keys) == multiset{t.sym};
    forall c | c in keys ensures c == t.sym {
      assert c in multiset(keys);
    }
    assert t.sym in multiset(keys);
  }

  /** The children of a tree with distinct leaves have distinct, disjoint leaves. */
  lemma DistinctLeavesSplit(t: Tree)
    requires t.Node? && DistinctLeaves(t)
    ensures DistinctLeaves(t.left) && DistinctLeaves(t.right)
    ensures forall c | c in LeafSymbols(t.left) :: c !in LeafSymbols(t.right)
  {
    var l, r := LeafSymbols(t.left), LeafSymbols(t.right);
    forall c | c in l ensures l[c] == 1 && c !in r {
      assert LeafSymbols(t)[c] == l[c] + r[c];
    }
    forall c | c in r ensures r[c] == 1 {
      assert LeafSymbols(t)[c] == l[c] + r[c];
    }
  }

  // Sums over a queue of trees

  /** The total count of the trees in a queue. */
  function TotalFreq(q: seq<Tree>): nat {
    if q == [] then 0 else q[0].freq + TotalFreq(q[1..])
  }

  /** The leaf symbols of all trees in a queue, with multiplicity. */
  function QueueSymbols(q: seq<Tree>): multiset<Symbol> {
    if q == [] then multiset{} else LeafSymbols(q[0]) + QueueSymbols(q[1..])
  }

  ghost predicate AllWellFormed(q: seq<Tree>) {
    forall t | t in q :: WellFormed(t)
  }

  lemma {:induction false} TotalFreqAppend(a: seq<Tree>, b: seq<Tree>)
    ensures TotalFreq(a + b) == TotalFreq(a) + TotalFreq(b)
  {
    if a != [] {
      assert (a + b)[1..] == a[1..] + b;
      TotalFreqAppend(a[1..], b);
    } else {
      assert a + b == b;
    }
  }

  lemma {:induction false} QueueSymbolsAppend(a: seq<Tree>, b: seq<Tree>)
    ensures QueueSymbols(a + b) == QueueSymbols(a) + QueueSymbols(b)
  {
    if a != [] {
      assert (a + b)[1..] == a[1..] + b;
      QueueSymbolsAppend(a[1..], b);
    } else {
      assert a + b == b;
    }
  }

  /**
   * When `b` is a permutation of `a` and `b[j]` is `a[0]`, removing position
   * `j` of `b` leaves a permutation of the rest of `a`.
   */
  lemma RemoveAt(a: seq<Tree>, b: seq<Tree>, j: nat) returns (b': seq<Tree>)
    requires a != [] && j < |b| && b[j] == a[0]
    requires multiset(a) == multiset(b)
    ensures b == b[..j] + ([b[j]] + b[j + 1..])
    ensures b' == b[..j] + b[j + 1..]
    ensures multiset(a[1..]) == multiset(b')
  {
    b' := b[..j] + b[j + 1..];
    assert b == b[..j] + ([b[j]] + b[j + 1..]);
    assert a == [a[0]] + a[1..];
    calc {
      multiset(a[1..]);
      multiset(a) - multiset{a[0]};
      multiset(b) - multiset{b[j]};
      multiset(b[..j]) + multiset{b[j]} + multiset(b[j + 1..]) - multiset{b[j]};
      multiset(b');
    }
  }

  /** The total count of a queue depends only on which trees it holds, not on their order. */
  lemma {:induction false} TotalFreqPerm(a: seq<Tree>, b: seq<Tree>)
    requires multiset(a) == multiset(b)
    ensures TotalFreq(a) == TotalFreq(b)
    decreases |a|
  {
    if a == [] {
      assert |b| == |multiset(b)| == 0;
    } else {
      assert a == [a[0]] + a[1..];
      assert a[0] in multiset(b);
      var j :| 0 <= j < |b| && b[j] == a[0];
      var b' := RemoveAt(a, b, j);
      TotalFreqPerm(a[1..], b');
      TotalFreqAppend(b[..j], [b[j]] + b[j + 1..]);
      TotalFreqAppend([b[j]], b[j + 1..]);
      TotalFreqAppend(b[..j], b[j + 1..]);
      assert TotalFreq([b[j]]) == b[j].freq;
    }
  }

  /** The leaf symbols of a queue depend only on which trees it holds, not on their order. */
  lemma {:induction false} QueueSymbolsPerm(a: seq<Tree>, b: seq<Tree>)
    requires multiset(a) == multiset(b)
    ensures QueueSymbols(a) == QueueSymbols(b)
    decreases |a|
  {
    if a == [] {
      assert |b| == |multiset(b)| == 0;
    } else {
      assert a == [a[0]] + a[1..];
      assert a[0] in multiset(b);
      var j :| 0 <= j < |b| && b[j] == a[0];
      var b' := RemoveAt(a, b, j);
      calc {
        QueueSymbols(b);
        { QueueSymbolsAppend(b[..j], [b[j]] + b[j + 1..]); }
        QueueSymbols(b[..j]) + QueueSymbols([b[j]] + b[j + 1..]);
        { QueueSymbolsAppend([b[j]], b[j + 1..]);
          assert QueueSymbols([b[j]]) == LeafSymbols(b[j]); }
        QueueSymbols(b[..j]) + (LeafSymbols(b[j]) + QueueSymbols(b[j + 1..]));
        LeafSymbols(b[j]) + (QueueSymbols(b[..j]) + QueueSymbols(b[j + 1..]));
        { QueueSymbolsAppend(b[..j], b[j + 1..]); }
        LeafSymbols(a[0]) + QueueSymbols(b');
        { QueueSymbolsPerm(a[1..], b'); }
        LeafSymbols(a[0]) + QueueSymbols(a[1..]);
      }
    }
  }
}
