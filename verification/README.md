# Huffman encoder, modelled in Dafny

The repository holds two versions of one small command-line Huffman encoder:
a Rust program (`rust/src/main.rs`) and a C++ program (`cpp/sol.cpp`). Each
reads a file name, reads the file and counts how often each symbol occurs. It
then builds a Huffman tree with a min-priority queue: one leaf per distinct
symbol, and while more than one tree is queued, the two trees of smallest
count are popped and joined under a new node. From the tree it derives a
code table: '0' for a left branch, '1' for a right branch. It encodes with
that table and serialises the tree in pre-order: '0' for an internal node,
'1' plus the symbol for a leaf. Both strings are written to `encoded.txt`.

The model keeps each program's own steps, without its I/O:

- `FrequencyCount`: the counting loop, which both versions share. A `for`
  loop over the text is proved to produce exactly the occurrence count of
  every symbol.
- `PriorityQueue`: the two comparators (Rust's reversed `Ord`, C++'s
  `Compare`) and the queue operations `pop`/`top`. Both are proved to yield a
  tree of minimum count. Ties are left open, as the libraries leave them.
- `TreeBuilder`: the fill loop and the merge loop, which both versions share.
  The merge loop records a ghost trace of the pairs it joined and is proved
  to perform a run of Huffman merges. Each step joins a minimum tree with a
  minimum of the rest, first popped on the left. The loop ends with one tree
  that conserves the total count and the multiset of leaf symbols.
- `CodeTable`: Rust's `build_code_table`. Its table has a key for exactly
  the tree's leaf symbols. Every code is the path to its symbol's leaf. The
  codes are '0'/'1' strings, and the table is prefix-free.
- `Serialization`: Rust's `serialize_tree`. Its output is 3n - 1 characters
  long for n leaves. A parser that is not part of either program shows that
  the output determines the tree's shape and symbols.
- `Encoding`: Rust's encoding expression. Its length is the sum over the
  symbols of count times code length. With two or more distinct symbols, a
  greedy decoder (again not part of either program) recovers the text.
- `RustPipeline`: Rust's `main`. An empty text makes the final
  `pq.pop().unwrap()` panic; the model returns that panic as a `Failure`.
- `CppPipeline`: the C++ node type with nullable children, its
  `serializeTree` and `buildCodeTable`, and the encoding loop. On the trees
  the merge builds, the two recursive functions are proved to agree with
  their Rust counterparts. The C++ `main` requires a non-empty text, because
  `pq.top()` on an empty queue is undefined.

Both sources disagree with the natural reading of the program in places.
The model follows the code:

- The C++ encoding loop walks the entered file NAME, not the text read from
  the file (`cpp/sol.cpp:101-102`). A byte of the name with no code gets an
  empty code inserted by `huffmanCode[ch]` and adds nothing to the output.
  `CppPipeline.EncodeFilename` states the output and the table the loop
  leaves behind. `CppPipeline.Run` returns both and states them in terms of
  the text and the name. When every byte of the name occurs in the text,
  the output is the Rust-style encoding of the name.
- A text with a single distinct symbol gives a one-leaf tree, whose code is
  the empty string. The encoded text is then empty in both versions, and
  the tree string is "1" followed by the symbol.
- An empty text panics in Rust and is undefined behaviour in C++.

## Model

| member | source | states |
|---|---|---|
| `FrequencyCount.CountFrequencies` | rust/src/main.rs:72-75 | The counting loop gives a key exactly to the symbols occurring in the text. Each key's value is that symbol's number of occurrences. The values sum to the text's length. The map is empty exactly when the text is. |
| `FrequencyCount.FrequenciesCount` | cpp/sol.cpp:70-73 | `freq[ch]++` over the text leaves each symbol's counter at its multiplicity in the text. |
| `FrequencyCount.FrequenciesSum` | rust/src/main.rs:73-74 | Every character adds exactly one to one counter, so the counts sum to the text's length. |
| `PriorityQueue.RustTopIsMin` | rust/src/main.rs:16-19 | Under the reversed `Ord`, a tree that no other tree exceeds is exactly a tree of minimum count. The max-heap is therefore a min-heap on counts. |
| `PriorityQueue.CppTopIsMin` | cpp/sol.cpp:18-20 | Under `Compare`, a tree that ranks below no other is exactly a tree of minimum count. |
| `PriorityQueue.Pop` | rust/src/main.rs:88-89 | `BinaryHeap::pop` gives `None` exactly on an empty heap. Otherwise it gives a greatest tree under `Ord` and leaves the others, as a multiset. |
| `PriorityQueue.Top` | cpp/sol.cpp:94 | `top()` on a non-empty queue gives a tree that ranks below no other under `Compare`. |
| `TreeBuilder.FillQueue` | rust/src/main.rs:77-85 | Pushing one leaf per map entry, in any order, queues exactly the leaves of the map. Their counts sum to the map's total, and their symbols are its keys. |
| `TreeBuilder.MergeAll` | rust/src/main.rs:87-97 | While more than one tree is queued, two minimum trees are popped and joined, first popped on the left. The C++ loop at cpp/sol.cpp:86-92 is the same loop: its `top()` then `pop()` yields a tree that `PriorityQueue.CppTopIsMin` and `PriorityQueue.RustTopIsMin` show to be one `Pop` may return. This is a legal Huffman run that ends with one tree after n - 1 merges. It conserves total count and leaf symbols and keeps every node's count the sum of its children's. |
| `TreeBuilder.MergeStep` | rust/src/main.rs:88-96 | One turn of the merge loop: two successive pops of the heap are a legal Huffman merge, and pushing their join conserves the queue's sums. |
| `TreeBuilder.RunSize` | rust/src/main.rs:87 | Each merge shrinks the queue by one, so a run of k merges from n trees leaves n - k. |
| `TreeBuilder.SingleTreeRunIsEmpty` | rust/src/main.rs:87 | A queue holding a single tree admits no merge. |
| `HuffmanTree.RootFreqIsLeafSum` | rust/src/main.rs:92 | Because every new node's count is the sum of its children's, a root's count is the sum of its leaf counts. |
| `HuffmanTree.LeafSymbolsNonEmpty` | rust/src/main.rs:8-14 | Every tree has a leaf, and a tree is a single leaf exactly when it has one leaf. |
| `HuffmanTree.TotalFreqPerm` | rust/src/main.rs:77 | The total count of a queue does not depend on the heap's internal order. |
| `HuffmanTree.QueueSymbolsPerm` | cpp/sol.cpp:82 | The multiset of leaf symbols of a queue does not depend on the heap's internal order. |
| `RustPipeline.BuildTree` | rust/src/main.rs:77-99 | `pop().unwrap()` panics exactly when the map is empty. Otherwise the root is the one tree left by a Huffman run over the map's leaves. Its count is the map's total, and its leaf symbols are the map's keys. |
| `CppPipeline.BuildTree` | cpp/sol.cpp:82-94 | On a non-empty map, the root `top()` returns is the one tree left by a Huffman run over the map's leaves. Its count is the map's total, and its leaf symbols are the map's keys. |
| `CodeTable.CodeTableKeys` | rust/src/main.rs:28-44 | The walk gives a code to exactly the symbols at the tree's leaves. |
| `CodeTable.CodesArePaths` | rust/src/main.rs:34-41 | The code of a symbol, read as left/right turns, leads from the root to a leaf carrying that symbol. |
| `CodeTable.PathsAreCodes` | rust/src/main.rs:34-35 | When leaf symbols are distinct, every path to a leaf is that leaf's code. |
| `CodeTable.CodeTablePrefixFree` | rust/src/main.rs:37-41 | No code is a prefix of another symbol's code. |
| `CodeTable.CodesAreBits` | rust/src/main.rs:38-41 | Codes are made of '0' and '1' only. |
| `CodeTable.BuildCodeTable` | rust/src/main.rs:28-44 | Every code extends the path to the subtree, and strictly extends it below an internal node. |
| `Serialization.SerializedLength` | rust/src/main.rs:46-60 | A tree of n leaves serialises to 3n - 1 characters. |
| `Serialization.ParseSerialize` | rust/src/main.rs:48-58 | The serialisation can be parsed back to the tree's shape and symbols, with any trailing text left untouched. |
| `Encoding.EncodeAppend` | rust/src/main.rs:103 | Encoding a concatenation concatenates the encodings. |
| `Encoding.EncodedLength` | rust/src/main.rs:103 | The encoded length is the sum over symbols of count times code length. |
| `Encoding.EncodedIsBits` | rust/src/main.rs:103 | Encoding with '0'/'1' codes gives a '0'/'1' string. |
| `Encoding.SingleLeafEncodesEmpty` | rust/src/main.rs:99-103 | With a one-leaf tree, every symbol's code is empty and the encoded text is empty. |
| `Encoding.DecodeOnePath` | rust/src/main.rs:34-41 | Following a code from the root reaches its symbol and consumes exactly the code. |
| `Encoding.DecodeEncode` | rust/src/main.rs:101-103 | With at least two leaves, the encoding of a text decodes back to the text. |
| `RustPipeline.Run` | rust/src/main.rs:72-105 | Rust's `main` without I/O panics exactly on an empty text. Otherwise the two outputs are the tree's serialisation and the text's encoding under the derived table. The tree is a Huffman run over the text's counts and has a leaf for each distinct symbol. The table is prefix-free. The encoding is a '0'/'1' string of the weighted length. With one distinct symbol the outputs are "1" plus that symbol and the empty string; otherwise the encoding decodes back to the text. |
| `RustPipeline.SingleSymbol` | rust/src/main.rs:99-105 | A text with one distinct symbol serialises as "1" followed by that symbol and encodes to the empty string. |
| `CppPipeline.SerializeTreeAgrees` | cpp/sol.cpp:23-34 | On the trees the merge builds, `serializeTree` writes what Rust's `serialize_tree` writes. |
| `CppPipeline.CodeTableAgrees` | cpp/sol.cpp:37-45 | On the trees the merge builds, `buildCodeTable` derives the same table as Rust's `build_code_table`. |
| `CppPipeline.CodeKeysAreLeaves` | cpp/sol.cpp:41-42 | Only childless nodes get codes, so the '\0' of internal nodes (cpp/sol.cpp:91) never enters the table unless it is a leaf symbol. |
| `CppPipeline.EncodeFilename` | cpp/sol.cpp:100-102 | The loop concatenates the code of each byte of the file name, an absent code counting as empty. The table afterwards has an empty entry added for each absent byte and is otherwise unchanged. |
| `CppPipeline.EncodeSkipsMissing` | cpp/sol.cpp:102 | Bytes without a code add nothing: the output is the encoding of the bytes that have one. |
| `CppPipeline.EncodeWithDefaultsAppend` | cpp/sol.cpp:101-102 | Each turn of the loop appends one byte's code, so the output of a concatenation is the concatenation of outputs. |
| `CppPipeline.Run` | cpp/sol.cpp:70-105 | C++'s `main` without I/O, on a non-empty text, builds a Huffman tree over the text's counts. The tree's root count is the text's length, every node's count is the sum of its children's, and it has one leaf for each distinct symbol. The tree string is its serialisation, equal to Rust's, of length 3n - 1 for n distinct symbols. The code table built from the tree has a key exactly for the text's symbols and equals Rust's. The encoded output is the encoding of the file name's bytes that occur in the text. It equals the Rust encoding of the name when every byte of the name occurs in the text, and is empty when none does. The returned `huffmanCode` has a key for each symbol of the text or the name, holding the built code or, for a byte of the name only, the empty code. With one distinct symbol the root is a leaf whose code is empty, the tree string is "1" followed by the symbol, and the encoded output is empty. |
| `CppPipeline.EmptyCodesEncodeEmpty` | cpp/sol.cpp:100-102 | If every code in the table is empty, the loop over the file name outputs nothing. |
| `HuffmanTree.OneSymbolLeaf` | cpp/sol.cpp:86-94 | A tree holding exactly one distinct symbol is a single leaf of that symbol: with one queued tree the merge loop does not run and `top()` is that leaf. |

## Left out

- Reading the file name from standard input, opening and reading the file, and writing `encoded.txt` (rust/src/main.rs:63-70 and 107-111, cpp/sol.cpp:50-66 and 107-112) are I/O. The text and the file name are parameters, and the outputs are returned. The C++ error for a file that cannot be opened is part of this I/O.
- The internal layout of `BinaryHeap` and `priority_queue` is not modelled. The queue is a sequence, and a pop may yield any tree of minimum count. So every tie-break either library might make is covered, but the particular tree each one builds is not singled out.
- The iteration order of `HashMap` and `unordered_map` while filling the queue is left open: any order is allowed.
- Shared ownership (`Rc<RefCell<Node>>`) and raw pointers are modelled as immutable tree values. The C++ program never frees its nodes, and the model says nothing about memory.
- Symbols are one type for both versions. Rust's text is a sequence of Unicode scalar values; C++ reads bytes. No encoding or decoding between the two is modelled.
- Counts are unbounded. In C++ the counts are `int` (cpp/sol.cpp:11 and 70): `freq[ch]++` (cpp/sol.cpp:73) and `left->freq + right->freq` (cpp/sol.cpp:91) overflow, with undefined behaviour, once the text reaches 2^31 bytes, and the read loop (cpp/sol.cpp:63-65) accepts a file of any size. The C++ model therefore describes texts of fewer than 2^31 bytes; overflow beyond that is not modelled. Rust's counts are `usize`, whose overflow would need a text of 2^64 symbols on a 64-bit target.
- `CppPipeline.Run`, `CppPipeline.BuildTree`: require a non-empty text or map. In C++ an empty file leaves the queue empty and `pq.top()` is undefined behaviour, which has no defined outcome to model.
- `Encoding.Encode`: requires every symbol to have a code. In Rust a missing key makes `huffman_code[&ch]` panic, but the pipeline proves the condition always holds for the text the table was built from.
- `Serialization.ParseTree` and `Encoding.Decode` have no counterpart in either program. They exist to state that the outputs lose nothing: round trips with `Serialize` and `Encode`.
- The `Eq`/`PartialEq` derivation on Rust's `Node` compares all fields while `Ord` compares counts only. The heap uses `Ord` alone, so only `Ord` is modelled.
