/**
 * Tree serialisation (Rust's `serialize_tree`): a pre-order walk that emits
 * '0' for an internal node, then its left and right subtrees, and '1'
 * followed by the symbol itself for a leaf. Counts are not written.
 *
 * `ParseTree` is not part of either program: it is the reader the format
 * calls for, used here to show that the output determines the tree's shape
 * and symbols.
 */
module Serialization {
  import opened Wrappers
  import opened HuffmanTree

  function Serialize(t: Tree): string {
    match t
    case Leaf(c, _) => ['1', c]
    case Node(_, l, r) => ['0'] + Serialize(l) + Serialize(r)
  }

  /** A tree of n leaves serialises to 3n - 1 characters: two per leaf, one per internal node. */
  lemma {:induction false} SerializedLength(t: Tree)
    ensures |Serialize(t)| == 3 * |LeafSymbols(t)| - 1
  {
    match t
    case Leaf(_, _) =>
    case Node(_, l, r) =>
      SerializedLength(l);
      SerializedLength(r);
  }

  /** The tree with every count set to 0: what the serialised form retains. */
  function Erase(t: Tree): Tree {
    match t
    case Leaf(c, _) => Leaf(c, 0)
    case Node(_, l, r) => Node(0, Erase(l), Erase(r))
  }

  /** Reads one serialised tree from the front of `s`; returns it and what follows it. */
  function ParseTree(s: string): (r: Option<(Tree, string)>)
    ensures r.Some? ==> |r.value.1| < |s|
    decreases |s|
  {
    if s == [] then None
    else if s[0] == '1' then
      if |s| < 2 then None else Some((Leaf(s[1], 0), s[2..]))
    else if s[0] == '0' then
      match ParseTree(s[1..])
      case None => None
      case Some((l, s')) =>
        match ParseTree(s')
        case None => None
        case Some((r, s'')) => Some((Node(0, l, r), s''))
    else None
  }

  /**
   * Reading back a serialised tree gives the same shape and leaf symbols and
   * stops exactly at its end, whatever follows it and whatever the symbols
   * are (a symbol '0' or '1' included).
   */
  lemma {:induction false} ParseSerialize(t: Tree, rest: string)
    ensures ParseTree(Serialize(t) + rest) == Some((Erase(t), rest))
  {
    match t
    case Leaf(c, _) =>
      assert (Serialize(t) + rest)[2..] == rest;
    case Node(_, l, r) =>
      var s := Serialize(t) + rest;
      assert s[1..] == Serialize(l) + (Serialize(r) + rest);
      ParseSerialize(l, Serialize(r) + rest);
      ParseSerialize(r, rest);
  }
}
