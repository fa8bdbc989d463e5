/**
 * Encoding (Rust's `text.chars().map(|ch| huffman_code[&ch].clone()).collect()`):
 * the codes of the text's symbols, concatenated in text order.
 *
 * `DecodeOne` and `Decode` are not part of either program, which have no
 * decoder: they are the greedy prefix-code reader, used here to show that the
 * encoding loses nothing when the tree has at least two leaves, and what it
 * loses when it has one.
 */
module Encoding {
  import opened Wrappers
  import opened HuffmanTree
  import opened FrequencyCount
  import opened CodeTable

  /** Looking up a symbol without a code panics in Rust, so every symbol must have one. */
  function Encode(text: seq<Symbol>, table: map<Symbol, Code>): Code
    requires forall c | c in text :: c in table
  {
    if text == [] then [] else table[text[0]] + Encode(text[1..], table)
  }

  lemma {:induction false} EncodeAppend(a: seq<Symbol>, b: seq<Symbol>, table: map<Symbol, Code>)
    requires forall c | c in a + b :: c in table
    ensures Encode(a + b, table) == Encode(a, table) + Encode(b, table)
  {
    if a != [] {
      assert (a + b)[1..] == a[1..] + b;
      EncodeAppend(a[1..], b, table);
    } else {
      assert a + b == b;
    }
  }

  /** Each symbol's count times the length of its code. */
  function Weights(freq: map<Symbol, nat>, table: map<Symbol, Code>): map<Symbol, nat>
    requires forall c | c in freq :: c in table
  {
    map c | c in freq :: freq[c] * |table[c]|
  }

  /** The encoding is as long as the sum, over symbols, of count times code length. */
  lemma {:induction false} EncodedLength(text: seq<Symbol>, table: map<Symbol, Code>)
    requires forall c | c in text :: c in table
    ensures |Encode(text, table)| == SumValues(Weights(Frequencies(text), table))
    decreases |text|
  {
    if text == [] {
      assert Weights(Frequencies(text), table) == map[];
    } else {
      var p, c := text[..|text| - 1], text[|text| - 1];
      assert forall x | x in p :: x in table by {
        assert forall x | x in p :: x in text;
      }
      var f := Frequencies(p);
      var f' := f[c := (if c in f then f[c] else 0) + 1];
      assert Frequencies(text) == f';
      ghost var before, after := SumValues(Weights(f, table)), SumValues(Weights(f', table));
      assert after == before + |table[c]| by {
        WeightedSumStep(f, c, table);
      }
      assert |Encode(p, table)| == before by {
        EncodedLength(p, table);
      }
      assert |Encode(text, table)| == |Encode(p, table)| + |table[c]| by {
        EncodeLast(text, table);
      }
    }
  }

  /** Encoding one more symbol appends its code. */
  lemma EncodeLast(text: seq<Symbol>, table: map<Symbol, Code>)
    requires text != [] && forall c | c in text :: c in table
    ensures |Encode(text, table)| == |Encode(text[..|text| - 1], table)| + |table[text[|text| - 1]]|
  {
    var p, c := text[..|text| - 1], text[|text| - 1];
    assert text == p + [c];
    EncodeAppend(p, [c], table);
    assert Encode([c], table) == table[c];
  }

  /** Counting one more `c` adds the length of its code to the weighted sum. */
  lemma WeightedSumStep(f: map<Symbol, nat>, c: Symbol, table: map<Symbol, Code>)
    requires c in table && forall x | x in f :: x in table
    ensures SumValues(Weights(f[c := (if c in f then f[c] else 0) + 1], table))
         == SumValues(Weights(f, table)) + |table[c]|
  {
    var n := (if c in f then f[c] else 0) + 1;
    var w := Weights(f, table);
    var v := WeightsUpdate(f, c, n, table);
    SumValuesUpdate(w, c, v);
    if c in f {
      MulSucc(f[c], |table[c]|);
    }
  }

  lemma MulSucc(a: nat, b: nat)
    ensures (a + 1) * b == a * b + b
  {
  }

  /** Setting the count of `c` to `n` sets its weight to `n` times its code length. */
  lemma WeightsUpdate(f: map<Symbol, nat>, c: Symbol, n: nat, table: map<Symbol, Code>) returns (v: nat)
    requires c in table && forall x | x in f :: x in table
    ensures v == n * |table[c]|
    ensures Weights(f[c := n], table) == Weights(f, table)[c := v]
  {
    v := n * |table[c]|;
    var lhs, rhs := Weights(f[c := n], table), Weights(f, table)[c := v];
    assert lhs.Keys == rhs.Keys;
    forall x | x in lhs ensures lhs[x] == rhs[x] {
      if x != c {
        assert f[c := n][x] == f[x];
      }
    }
  }

  /** When every code is a bit string, so is the encoding. */
  lemma {:induction false} EncodedIsBits(text: seq<Symbol>, table: map<Symbol, Code>)
    requires forall c | c in text :: c in table && IsBits(table[c])
    ensures IsBits(Encode(text, table))
  {
    if text != [] {
      EncodedIsBits(text[1..], table);
      var a, b := table[text[0]], Encode(text[1..], table);
      forall i | 0 <= i < |a + b| ensures (a + b)[i] == '0' || (a + b)[i] == '1' {
        if i < |a| { assert (a + b)[i] == a[i]; } else { assert (a + b)[i] == b[i - |a|]; }
      }
    }
  }

  /**
   * With a single leaf the table maps its symbol to the empty code, so any
   * text made of that symbol encodes to the empty string: "a" and "aa" give
   * the same output.
   */
  lemma {:induction false} SingleLeafEncodesEmpty(c: Symbol, f: nat, text: seq<Symbol>)
    requires forall x | x in text :: x == c
    ensures Encode(text, BuildCodeTable(Leaf(c, f), [])) == []
  {
    if text != [] {
      assert text[0] == c by { assert text[0] in text; }
      assert forall x | x in text[1..] :: x in text;
      SingleLeafEncodesEmpty(c, f, text[1..]);
    }
  }

  // The reader the format calls for

  /** Follows bits from the root of `t` down to a leaf; returns its symbol and the bits left. */
  function DecodeOne(t: Tree, bits: Code): (r: Option<(Symbol, Code)>)
    ensures r.Some? ==> |r.value.1| <= |bits|
    ensures r.Some? && t.Node? ==> |r.value.1| < |bits|
  {
    match t
    case Leaf(c, _) => Some((c, bits))
    case Node(_, l, r) =>
      if bits == [] then None
      else if bits[0] == '0' then DecodeOne(l, bits[1..])
      else if bits[0] == '1' then DecodeOne(r, bits[1..])
      else None
  }

  /** Reads symbols until the bits run out; needs a tree whose every code is non-empty. */
  function Decode(t: Tree, bits: Code): Option<seq<Symbol>>
    requires t.Node?
    decreases |bits|
  {
    if bits == [] then Some([])
    else
      match DecodeOne(t, bits)
      case None => None
      case Some((c, rest)) =>
        match Decode(t, rest)
        case None => None
        case Some(cs) => Some([c] + cs)
  }

  /** A path to a leaf is read back as that leaf's symbol. */
  lemma {:induction false} DecodeOnePath(t: Tree, path: Code, c: Symbol, rest: Code)
    requires LeafAt(t, path) == Some(c)
    ensures DecodeOne(t, path + rest) == Some((c, rest))
  {
    match t
    case Leaf(_, _) =>
      assert path + rest == rest;
    case Node(_, l, r) =>
      assert (path + rest)[1..] == path[1..] + rest;
      if path[0] == '0' {
        DecodeOnePath(l, path[1..], c, rest);
      } else {
        DecodeOnePath(r, path[1..], c, rest);
      }
  }

  /** When the root is an internal node, decoding the encoding gives back the text. */
  lemma {:induction false} DecodeEncode(t: Tree, text: seq<Symbol>)
    requires t.Node?
    requires forall c | c in text :: c in BuildCodeTable(t, [])
    ensures Decode(t, Encode(text, BuildCodeTable(t, []))) == Some(text)
  {
    if text != [] {
      var table := BuildCodeTable(t, []);
      var c := text[0];
      var tail := Encode(text[1..], table);
      CodesArePaths(t, [], c);
      assert table[c][0..] == table[c];
      DecodeOnePath(t, table[c], c, tail);
      DecodeEncode(t, text[1..]);
      assert [c] + text[1..] == text;
    }
  }
}
