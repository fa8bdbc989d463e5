/**
 * Code-table derivation (Rust's `build_code_table`): a walk from the root
 * that carries the path so far, appending '0' when it goes left and '1' when
 * it goes right, and records the path at each leaf. Later insertions replace
 * earlier ones, as `HashMap::insert` does; map union `+` keeps the right
 * operand's entry, which is the one inserted later.
 */
module CodeTable {
  import opened Wrappers
  import opened HuffmanTree

  type Code = seq<char>

  /** The table the walk inserts into, given the path `code` from the root to `t`. */
  function BuildCodeTable(t: Tree, code: Code): (table: map<Symbol, Code>)
    ensures forall c | c in table :: code <= table[c]
    ensures t.Node? ==> forall c | c in table :: |table[c]| > |code|
  {
    match t
    case Leaf(c, _) => map[c := code]
    case Node(_, l, r) => BuildCodeTable(l, code + ['0']) + BuildCodeTable(r, code + ['1'])
  }

  /** The symbol of the leaf that `path` leads to from `t`, if it ends exactly at a leaf. */
  function LeafAt(t: Tree, path: Code): Option<Symbol> {
    match t
    case Leaf(c, _) => if path == [] then Some(c) else None
    case Node(_, l, r) =>
      if path == [] then None
      else if path[0] == '0' then LeafAt(l, path[1..])
      else if path[0] == '1' then LeafAt(r, path[1..])
      else None
  }

  /** A string of '0' and '1' only. */
  predicate IsBits(s: seq<char>) {
    forall i | 0 <= i < |s| :: s[i] == '0' || s[i] == '1'
  }

  /** No code in the table is a prefix of another symbol's code. */
  ghost predicate PrefixFree(table: map<Symbol, Code>) {
    forall c, d | c in table && d in table && c != d :: !(table[c] <= table[d])
  }

  /** The table has an entry for exactly the symbols at the leaves. */
  lemma {:induction false} CodeTableKeys(t: Tree, code: Code)
    ensures forall c :: c in BuildCodeTable(t, code) <==> c in LeafSymbols(t)
  {
    match t
    case Leaf(_, _) =>
    case Node(_, l, r) =>
      CodeTableKeys(l, code + ['0']);
      CodeTableKeys(r, code + ['1']);
  }

  /** Every recorded code is `code` followed by a path from `t` to a leaf labelled with that symbol. */
  lemma {:induction false} CodesArePaths(t: Tree, code: Code, c: Symbol)
    requires c in BuildCodeTable(t, code)
    ensures LeafAt(t, BuildCodeTable(t, code)[c][|code|..]) == Some(c)
  {
    match t
    case Leaf(_, _) =>
      assert BuildCodeTable(t, code)[c][|code|..] == [];
    case Node(_, l, r) =>
      var bit, sub := ChildTable(t, code, c);
      var subCode := BuildCodeTable(sub, code + [bit])[c];
      CodesArePaths(sub, code + [bit], c);
      var path, rest := BuildCodeTable(t, code)[c][|code|..], subCode[|code| + 1..];
      assert path != [] && path[0] == bit && path[1..] == rest by {
        assert code + [bit] <= subCode;
      }
      if bit == '0' {
        assert LeafAt(t, path) == LeafAt(l, rest);
      } else {
        assert LeafAt(t, path) == LeafAt(r, rest);
      }
  }

  /** A symbol's code at a node is its code in the child it lies under, reached by `bit`. */
  lemma ChildTable(t: Tree, code: Code, c: Symbol) returns (bit: char, sub: Tree)
    requires t.Node? && c in BuildCodeTable(t, code)
    ensures (bit == '0' && sub == t.left) || (bit == '1' && sub == t.right)
    ensures c in BuildCodeTable(sub, code + [bit])
    ensures BuildCodeTable(t, code)[c] == BuildCodeTable(sub, code + [bit])[c]
  {
    if c in BuildCodeTable(t.right, code + ['1']) {
      bit, sub := '1', t.right;
    } else {
      bit, sub := '0', t.left;
    }
  }

  /** A path leads to a leaf only if that leaf's symbol is in the tree. */
  lemma {:induction false} LeafAtIsLeaf(t: Tree, path: Code, c: Symbol)
    requires LeafAt(t, path) == Some(c)
    ensures c in LeafSymbols(t)
  {
    match t
    case Leaf(_, _) =>
    case Node(_, l, r) =>
      if path[0] == '0' {
        LeafAtIsLeaf(l, path[1..], c);
      } else {
        LeafAtIsLeaf(r, path[1..], c);
      }
  }

  /**
   * When no symbol labels two leaves, every leaf gets its own path as its
   * code: the code's length is the leaf's depth.
   */
  lemma {:induction false} PathsAreCodes(t: Tree, code: Code, path: Code, c: Symbol)
    requires DistinctLeaves(t) && LeafAt(t, path) == Some(c)
    ensures c in BuildCodeTable(t, code) && BuildCodeTable(t, code)[c] == code + path
  {
    match t
    case Leaf(_, _) =>
    case Node(_, l, r) =>
      DistinctLeavesSplit(t);
      var tl, tr := BuildCodeTable(l, code + ['0']), BuildCodeTable(r, code + ['1']);
      assert code + path == code + [path[0]] + path[1..];
      if path[0] == '0' {
        PathsAreCodes(l, code + ['0'], path[1..], c);
        LeafAtIsLeaf(l, path[1..], c);
        assert c !in LeafSymbols(r);
        CodeTableKeys(r, code + ['1']);
        assert c !in tr;
      } else {
        PathsAreCodes(r, code + ['1'], path[1..], c);
      }
  }

  /** The codes form a prefix-free code: no symbol's code is a prefix of another's. */
  lemma {:induction false} CodeTablePrefixFree(t: Tree, code: Code)
    ensures PrefixFree(BuildCodeTable(t, code))
  {
    match t
    case Leaf(_, _) =>
    case Node(_, l, r) =>
      var table := BuildCodeTable(t, code);
      var tl, tr := BuildCodeTable(l, code + ['0']), BuildCodeTable(r, code + ['1']);
      CodeTablePrefixFree(l, code + ['0']);
      CodeTablePrefixFree(r, code + ['1']);
      forall c, d | c in table && d in table && c != d ensures !(table[c] <= table[d]) {
        if c in tr && d in tr {
          assert table[c] == tr[c] && table[d] == tr[d];
        } else if c !in tr && d !in tr {
          assert table[c] == tl[c] && table[d] == tl[d];
        } else {
          var k := |code|;
          assert k < |table[c]| && k < |table[d]|;
          assert table[c][k] != table[d][k] by {
            if c in tr {
              assert (code + ['1'])[k] == '1' && (code + ['0'])[k] == '0';
            } else {
              assert (code + ['0'])[k] == '0' && (code + ['1'])[k] == '1';
            }
          }
        }
      }
  }

  /** When the starting path is a bit string, so is every code. */
  lemma {:induction false} CodesAreBits(t: Tree, code: Code)
    requires IsBits(code)
    ensures forall c | c in BuildCodeTable(t, code) :: IsBits(BuildCodeTable(t, code)[c])
  {
    match t
    case Leaf(_, _) =>
    case Node(_, l, r) =>
      assert IsBits(code + ['0']) && IsBits(code + ['1']);
      CodesAreBits(l, code + ['0']);
      CodesAreBits(r, code + ['1']);
  }
}
