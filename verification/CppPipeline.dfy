/**
 * The C++ program's `main`, without its I/O, and its two recursive helpers.
 *
 * A C++ `Node` always holds a byte and two possibly-null child pointers; a
 * node is treated as a leaf when both are null, whatever its byte. Internal
 * nodes are built with the byte '\0'. The trees the merge loop builds are the
 * `Tree` values shared with the Rust model; `FromTree` gives their C++ form.
 *
 * Two behaviours of the source are kept as written: the encoding loop walks
 * the entered file NAME rather than the text read from the file, and
 * `huffmanCode[ch]` inserts an empty code for a byte that has none. An empty
 * file leaves the queue empty and `pq.top()` undefined, which callers must
 * not reach: `Run` and `BuildTree` require a non-empty input.
 */
module CppPipeline {
  import opened Wrappers
  import opened HuffmanTree
  import opened FrequencyCount
  import opened PriorityQueue
  import opened TreeBuilder
  import CT = CodeTable
  import opened Serialization
  import opened Encoding

  datatype CNode = CNode(ch: Symbol, freq: nat, left: Option<CNode>, right: Option<CNode>)

  predicate IsChildless(n: CNode) {
    n.left.None? && n.right.None?
  }

  /** `serializeTree`: nothing for a null node, "1" and the byte for a childless one, else "0" and both subtrees. */
  function SerializeTree(root: Option<CNode>): string {
    match root
    case None => []
    case Some(n) =>
      if IsChildless(n) then ['1', n.ch]
      else ['0'] + SerializeTree(n.left) + SerializeTree(n.right)
  }

  /**
   * `buildCodeTable`: nothing for a null node; a childless node records its
   * path; then both children are visited, a null one doing nothing.
   */
  function BuildCodeTable(root: Option<CNode>, code: CT.Code): map<Symbol, CT.Code> {
    match root
    case None => map[]
    case Some(n) =>
      (if IsChildless(n) then map[n.ch := code] else map[])
      + BuildCodeTable(n.left, code + ['0'])
      + BuildCodeTable(n.right, code + ['1'])
  }

  /** The C++ form of a tree: leaves are childless nodes, internal nodes carry '\0'. */
  function FromTree(t: Tree): CNode {
    match t
    case Leaf(c, f) => CNode(c, f, None, None)
    case Node(f, l, r) => CNode('\0', f, Some(FromTree(l)), Some(FromTree(r)))
  }

  /** On the trees the merge builds, `serializeTree` writes what Rust's `serialize_tree` writes. */
  lemma {:induction false} SerializeTreeAgrees(t: Tree)
    ensures SerializeTree(Some(FromTree(t))) == Serialize(t)
  {
    match t
    case Leaf(_, _) =>
    case Node(_, l, r) =>
      SerializeTreeAgrees(l);
      SerializeTreeAgrees(r);
  }

  /** On the trees the merge builds, `buildCodeTable` derives what Rust's `build_code_table` derives. */
  lemma {:induction false} CodeTableAgrees(t: Tree, code: CT.Code)
    ensures BuildCodeTable(Some(FromTree(t)), code) == CT.BuildCodeTable(t, code)
  {
    match t
    case Leaf(c, _) =>
      calc {
        BuildCodeTable(Some(FromTree(t)), code);
        map[c := code] + BuildCodeTable(None, code + ['0']) + BuildCodeTable(None, code + ['1']);
        map[c := code];
      }
    case Node(_, l, r) =>
      var left, right := BuildCodeTable(Some(FromTree(l)), code + ['0']), BuildCodeTable(Some(FromTree(r)), code + ['1']);
      assert BuildCodeTable(Some(FromTree(t)), code) == map[] + left + right;
      assert map[] + left == left;
      CodeTableAgrees(l, code + ['0']);
      CodeTableAgrees(r, code + ['1']);
  }

  /**
   * Only leaves get codes: the '\0' of an internal node never enters the
   * table, and a '\0' byte of the input does exactly when it is a leaf.
   */
  lemma CodeKeysAreLeaves(t: Tree, code: CT.Code)
    ensures forall c :: c in BuildCodeTable(Some(FromTree(t)), code) <==> c in LeafSymbols(t)
  {
    CodeTableAgrees(t, code);
    CT.CodeTableKeys(t, code);
  }

  // The encoding loop

  /** `huffmanCode[ch]`: the code of `ch`, or the empty code it default-inserts. */
  function Lookup(table: map<Symbol, CT.Code>, c: Symbol): CT.Code {
    if c in table then table[c] else []
  }

  /** The concatenated codes of `s`, a symbol without a code adding nothing. */
  function EncodeWithDefaults(s: seq<Symbol>, table: map<Symbol, CT.Code>): CT.Code {
    if s == [] then [] else Lookup(table, s[0]) + EncodeWithDefaults(s[1..], table)
  }

  /** The symbols of `s` that have a code, in order. */
  function WithCodes(s: seq<Symbol>, table: map<Symbol, CT.Code>): (r: seq<Symbol>)
    ensures forall c | c in r :: c in table
  {
    if s == [] then []
    else if s[0] in table then [s[0]] + WithCodes(s[1..], table)
    else WithCodes(s[1..], table)
  }

  lemma {:induction false} EncodeWithDefaultsAppend(a: seq<Symbol>, b: seq<Symbol>, table: map<Symbol, CT.Code>)
    ensures EncodeWithDefaults(a + b, table) == EncodeWithDefaults(a, table) + EncodeWithDefaults(b, table)
  {
    if a != [] {
      assert (a + b)[1..] == a[1..] + b;
      EncodeWithDefaultsAppend(a[1..], b, table);
    } else {
      assert a + b == b;
    }
  }

  /**
   * Symbols without a code add nothing: the output is the Rust-style
   * encoding of the symbols that have one.
   */
  lemma {:induction false} EncodeSkipsMissing(s: seq<Symbol>, table: map<Symbol, CT.Code>)
    ensures EncodeWithDefaults(s, table) == Encode(WithCodes(s, table), table)
  {
    if s != [] {
      EncodeSkipsMissing(s[1..], table);
      if s[0] in table {
        assert ([s[0]] + WithCodes(s[1..], table))[1..] == WithCodes(s[1..], table);
      }
    }
  }

  /** When every symbol has a code, nothing is skipped. */
  lemma {:induction false} WithCodesKeepsAll(s: seq<Symbol>, table: map<Symbol, CT.Code>)
    requires forall c | c in s :: c in table
    ensures WithCodes(s, table) == s
  {
    if s != [] {
      assert forall c | c in s[1..] :: c in s;
      WithCodesKeepsAll(s[1..], table);
      assert [s[0]] + s[1..] == s;
    }
  }

  /** When no symbol has a code, everything is skipped. */
  lemma {:induction false} WithCodesDropsAll(s: seq<Symbol>, table: map<Symbol, CT.Code>)
    requires forall c | c in s :: c !in table
    ensures WithCodes(s, table) == []
  {
    if s != [] {
      assert forall c | c in s[1..] :: c in s;
      WithCodesDropsAll(s[1..], table);
    }
  }

  /**
   * The loop `for (char ch : filename) encodedText += huffmanCode[ch];`,
   * which also default-inserts an empty code for each byte without one.
   */
  method EncodeFilename(filename: string, huffmanCode: map<Symbol, CT.Code>)
    returns (encodedText: CT.Code, table: map<Symbol, CT.Code>)
    ensures encodedText == EncodeWithDefaults(filename, huffmanCode)
    ensures forall c :: c in table <==> c in huffmanCode || c in filename
    ensures forall c | c in table :: table[c] == Lookup(huffmanCode, c)
  {
    encodedText, table := [], huffmanCode;
    for i := 0 to |filename|
      invariant encodedText == EncodeWithDefaults(filename[..i], huffmanCode)
      invariant forall c :: c in table <==> c in huffmanCode || c in filename[..i]
      invariant forall c | c in table :: table[c] == Lookup(huffmanCode, c)
    {
      var ch := filename[i];
      if ch !in table {
        table := table[ch := []];
      }
      encodedText := encodedText + table[ch];
      EncodeStep(filename, i, huffmanCode);
    }
    assert filename[..|filename|] == filename;
  }

  /** One turn of the encoding loop. */
  lemma EncodeStep(s: seq<Symbol>, i: nat, table: map<Symbol, CT.Code>)
    requires i < |s|
    ensures EncodeWithDefaults(s[..i + 1], table) == EncodeWithDefaults(s[..i], table) + Lookup(table, s[i])
    ensures forall c :: c in s[..i + 1] <==> c in s[..i] || c == s[i]
  {
    assert s[..i + 1] == s[..i] + [s[i]];
    EncodeWithDefaultsAppend(s[..i], [s[i]], table);
    assert EncodeWithDefaults([s[i]], table) == Lookup(table, s[i]);
  }

  // The driver

  /** The queue fill, the merge loop and `pq.top()`, which needs a non-empty queue. */
  method BuildTree(freq: map<Symbol, nat>) returns (root: Tree, ghost merges: seq<(Tree, Tree)>)
    requires freq != map[]
    ensures IsRun(InitialQueue(freq), merges) && After(InitialQueue(freq), merges) == multiset{root}
    ensures |merges| == |freq| - 1
    ensures root.freq == SumValues(freq) && WellFormed(root)
    ensures LeafSymbols(root) == multiset(freq.Keys)
  {
    var q := FillQueue(freq);
    q, merges := MergeAll(q);
    root := Top(q);
    SingleTree(q, root);
  }


  /** The C++ code table of the built tree has a code for exactly the text's symbols, the Rust one's. */
  lemma CppCodeTable(tree: Tree, keys: set<Symbol>)
    requires LeafSymbols(tree) == multiset(keys)
    ensures BuildCodeTable(Some(FromTree(tree)), []) == CT.BuildCodeTable(tree, [])
    ensures forall c :: c in CT.BuildCodeTable(tree, []) <==> c in keys
  {
    CodeTableAgrees(tree, []);
    CodeKeysAreLeaves(tree, []);
    forall c ensures c in CT.BuildCodeTable(tree, []) <==> c in keys {
      assert c in LeafSymbols(tree) <==> c in multiset(keys);
    }
  }

  /** The encoded file name, in the three cases of which of its symbols occur in the text. */
  lemma EncodedName(filename: string, table: map<Symbol, CT.Code>, text: string)
    requires forall c :: c in table <==> c in text
    ensures EncodeWithDefaults(filename, table) == Encode(WithCodes(filename, table), table)
    ensures (forall c | c in filename :: c in text) ==> EncodeWithDefaults(filename, table) == Encode(filename, table)
    ensures (forall c | c in filename :: c !in text) ==> EncodeWithDefaults(filename, table) == []
  {
    EncodeSkipsMissing(filename, table);
    if forall c | c in filename :: c in text {
      WithCodesKeepsAll(filename, table);
    }
    if forall c | c in filename :: c !in text {
      WithCodesDropsAll(filename, table);
    }
  }

  /** When every code in the table is empty, so is the output, whatever the name. */
  lemma {:induction false} EmptyCodesEncodeEmpty(s: seq<Symbol>, table: map<Symbol, CT.Code>)
    requires forall c | c in table :: table[c] == []
    ensures EncodeWithDefaults(s, table) == []
  {
    if s != [] {
      EmptyCodesEncodeEmpty(s[1..], table);
    }
  }

  /**
   * The whole pipeline on the text read from the file named `filename`: it
   * serialises the tree and encodes `filename` with the text's codes.
   * `huffmanCode` is the code table as the encoding loop leaves it.
   */
  method Run(text: string, filename: string)
    returns (treeStructure: string, encodedText: CT.Code, huffmanCode: map<Symbol, CT.Code>,
             ghost root: Tree, ghost merges: seq<(Tree, Tree)>)
    requires text != []
    ensures IsRun(InitialQueue(Frequencies(text)), merges)
    ensures After(InitialQueue(Frequencies(text)), merges) == multiset{root}
    ensures root.freq == |text| && WellFormed(root)
    ensures LeafSymbols(root) == multiset(Frequencies(text).Keys)
    ensures treeStructure == SerializeTree(Some(FromTree(root))) == Serialize(root)
    ensures |treeStructure| == 3 * |Frequencies(text)| - 1
    ensures BuildCodeTable(Some(FromTree(root)), []) == CT.BuildCodeTable(root, [])
    ensures forall c :: c in CT.BuildCodeTable(root, []) <==> c in text
    ensures encodedText == EncodeWithDefaults(filename, CT.BuildCodeTable(root, []))
    ensures encodedText == Encode(WithCodes(filename, CT.BuildCodeTable(root, [])), CT.BuildCodeTable(root, []))
    ensures (forall c | c in filename :: c in text) ==>
      encodedText == Encode(filename, CT.BuildCodeTable(root, []))
    ensures (forall c | c in filename :: c !in text) ==> encodedText == []
    ensures forall c :: c in huffmanCode <==> c in text || c in filename
    ensures forall c | c in huffmanCode :: huffmanCode[c] == Lookup(CT.BuildCodeTable(root, []), c)
    ensures |Frequencies(text)| == 1 ==>
      && root.Leaf?
      && CT.BuildCodeTable(root, []) == map[text[0] := []]
      && treeStructure == ['1', text[0]]
      && encodedText == []
  {
    var freq := CountFrequencies(text);
    var tree;
    tree, merges := BuildTree(freq);
    root := tree;
    var node := FromTree(tree);
    var table := BuildCodeTable(Some(node), []);
    CppCodeTable(tree, freq.Keys);
    encodedText, huffmanCode := EncodeFilename(filename, table);
    EncodedName(filename, table, text);
    treeStructure := SerializeTree(Some(node));
    SerializeTreeAgrees(tree);
    SerializedLength(tree);
    assert |LeafSymbols(tree)| == |freq.Keys| == |freq|;
    if |freq| == 1 {
      assert |freq.Keys| == 1;
      OneSymbolLeaf(tree, freq.Keys);
      assert text[0] in freq.Keys;
      EmptyCodesEncodeEmpty(filename, table);
    }
  }
}
