/**
 * The Rust program's `main`, without its I/O: count the text, fill the heap,
 * merge, pop the root, derive the code table, encode the text and serialise
 * the tree. An empty text leaves the heap empty and the final
 * `pq.pop().unwrap()` panics; the model returns that panic as a `Failure`.
 */
module RustPipeline {
  import opened Wrappers
  import opened HuffmanTree
  import opened FrequencyCount
  import opened PriorityQueue
  import opened TreeBuilder
  import opened CodeTable
  import opened Serialization
  import opened Encoding

  datatype Panic = UnwrapOnEmptyHeap

  /** The two lines written to the output file. */
  datatype Output = Output(treeStructure: string, encodedText: string)

  /**
   * The heap fill, the merge loop and the final pop. The root is the single
   * tree left by a run of Huffman merges from one leaf per map entry; `merges`
   * records the pairs merged, in order.
   */
  method BuildTree(freq: map<Symbol, nat>) returns (root: Result<Tree, Panic>, ghost merges: seq<(Tree, Tree)>)
    ensures root.Failure? <==> freq == map[]
    ensures root.Success? ==> IsRun(InitialQueue(freq), merges)
    ensures root.Success? ==> After(InitialQueue(freq), merges) == multiset{root.value}
    ensures root.Success? ==> |merges| == |freq| - 1
    ensures root.Success? ==> root.value.freq == SumValues(freq) && WellFormed(root.value)
    ensures root.Success? ==> LeafSymbols(root.value) == multiset(freq.Keys)
  {
    var q := FillQueue(freq);
    q, merges := MergeAll(q);
    var top, _ := Pop(q);
    if top.None? {
      assert |freq| == 0;
      return Failure(UnwrapOnEmptyHeap), merges;
    }
    SingleTree(q, top.value);
    root := Success(top.value);
  }

  /** The whole pipeline on one text. */
  method Run(text: string) returns (r: Result<Output, Panic>, ghost root: Tree, ghost merges: seq<(Tree, Tree)>)
    ensures r.Failure? <==> text == []
    ensures r.Success? ==> IsRun(InitialQueue(Frequencies(text)), merges)
    ensures r.Success? ==> After(InitialQueue(Frequencies(text)), merges) == multiset{root}
    ensures r.Success? ==> (forall c | c in text :: c in BuildCodeTable(root, []))
    ensures r.Success? ==> r.value == Output(Serialize(root), Encode(text, BuildCodeTable(root, [])))
    ensures r.Success? ==> root.freq == |text|
    ensures r.Success? ==> |r.value.treeStructure| == 3 * |Frequencies(text)| - 1
    ensures r.Success? ==> LeafSymbols(root) == multiset(Frequencies(text).Keys)
    ensures r.Success? ==> PrefixFree(BuildCodeTable(root, [])) && IsBits(r.value.encodedText)
    ensures r.Success? ==>
      |r.value.encodedText| == SumValues(Weights(Frequencies(text), BuildCodeTable(root, [])))
    ensures r.Success? && |Frequencies(text)| == 1 ==>
      r.value.treeStructure == ['1', text[0]] && r.value.encodedText == []
    ensures r.Success? && |Frequencies(text)| >= 2 ==> Decode(root, r.value.encodedText) == Some(text)
  {
    var freq := CountFrequencies(text);
    var built;
    built, merges := BuildTree(freq);
    if built.Failure? {
      return Failure(built.error), Leaf('\0', 0), merges;
    }
    var tree := built.value;
    root := tree;
    var table := BuildCodeTable(tree, []);
    CodeTableKeys(tree, []);
    var encodedText := Encode(text, table);
    var treeStructure := Serialize(tree);
    SerializedLength(tree);
    assert |LeafSymbols(tree)| == |freq.Keys| == |freq|;
    CodeTablePrefixFree(tree, []);
    CodesAreBits(tree, []);
    EncodedIsBits(text, table);
    EncodedLength(text, table);
    LeafSymbolsNonEmpty(tree);
    if |freq| == 1 {
      assert |freq.Keys| == 1;
      OneSymbolLeaf(tree, freq.Keys);
      SingleSymbol(text, tree);
    } else {
      DecodeEncode(tree, text);
    }
    r := Success(Output(treeStructure, encodedText));
  }

  /** With one distinct symbol the root is that symbol's leaf and the encoding is empty. */
  lemma SingleSymbol(text: string, root: Tree)
    requires root.Leaf? && Frequencies(text).Keys == {root.sym}
    ensures forall c | c in text :: c == root.sym
    ensures text != [] && root.sym == text[0]
    ensures Serialize(root) == ['1', text[0]]
    ensures Encode(text, BuildCodeTable(root, [])) == []
  {
    assert root.sym in Frequencies(text);
    assert text[0] in text;
    SingleLeafEncodesEmpty(root.sym, root.freq, text);
  }
}
