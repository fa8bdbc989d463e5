/**
 * Frequency counting: one pass over the text increments a per-symbol counter
 * that starts at zero (Rust's `*freq.entry(ch).or_insert(0) += 1`, C++'s
 * `freq[ch]++`). Both versions behave the same, so one method models both.
 */
module FrequencyCount {
  import opened HuffmanTree

  /**
   * The counts of `text`, taken symbol by symbol: each symbol's entry is
   * created at 0 and incremented. `FrequenciesCount` says what they mean.
   */
  function Frequencies(text: seq<Symbol>): (freq: map<Symbol, nat>)
    ensures forall c :: c in freq <==> c in text
    decreases |text|
  {
    if text == [] then map[]
    else
      var f, c := Frequencies(text[..|text| - 1]), text[|text| - 1];
      f[c := (if c in f then f[c] else 0) + 1]
  }

  /** The sum of the values of a map (order-free, so it is defined by choice). */
  ghost function SumValues(m: map<Symbol, nat>): nat
    decreases |m|
  {
    if m == map[] then 0
    else
      var k :| k in m;
      assert |m - {k}| < |m| by { MapRemoveSize(m, k); }
      m[k] + SumValues(m - {k})
  }

  lemma MapRemoveSize<V>(m: map<Symbol, V>, k: Symbol)
    requires k in m
    ensures |m - {k}| == |m| - 1
  {
    assert (m - {k}).Keys == m.Keys - {k};
  }

  /** The sum does not depend on the key the definition happens to pick. */
  lemma {:induction false} SumValuesRemove(m: map<Symbol, nat>, k: Symbol)
    requires k in m
    ensures SumValues(m) == m[k] + SumValues(m - {k})
    decreases |m|
  {
    var j :| j in m && SumValues(m) == m[j] + SumValues(m - {j});
    if j != k {
      var mj, mk := m - {j}, m - {k};
      MapRemoveSize(m, j);
      MapRemoveSize(m, k);
      SumValuesRemove(mj, k);
      SumValuesRemove(mk, j);
      assert mj - {k} == mk - {j};
    }
  }

  /** Setting one entry changes the sum by the difference. */
  lemma SumValuesUpdate(m: map<Symbol, nat>, k: Symbol, v: nat)
    ensures SumValues(m[k := v]) == v + SumValues(m - {k})
    ensures k in m ==> SumValues(m[k := v]) + m[k] == SumValues(m) + v
    ensures k !in m ==> SumValues(m[k := v]) == SumValues(m) + v
  {
    SumValuesRemove(m[k := v], k);
    assert m[k := v] - {k} == m - {k};
    if k in m {
      SumValuesRemove(m, k);
    } else {
      assert m - {k} == m;
    }
  }

  /** Counting one more symbol increments (or creates) exactly its entry. */
  lemma FrequenciesStep(text: seq<Symbol>, c: Symbol)
    ensures Frequencies(text + [c])
         == Frequencies(text)[c := if c in Frequencies(text) then Frequencies(text)[c] + 1 else 1]
  {
    assert (text + [c])[..|text|] == text;
  }

  /** Each symbol of the text is mapped to its number of occurrences. */
  lemma {:induction false} FrequenciesCount(text: seq<Symbol>)
    ensures forall c | c in Frequencies(text) :: Frequencies(text)[c] == multiset(text)[c]
    decreases |text|
  {
    if text != [] {
      var p, c := text[..|text| - 1], text[|text| - 1];
      assert text == p + [c];
      FrequenciesCount(p);
      FrequenciesStep(p, c);
      assert multiset(text) == multiset(p) + multiset{c};
    }
  }

  /** The counts sum to the length of the text. */
  lemma {:induction false} FrequenciesSum(text: seq<Symbol>)
    ensures SumValues(Frequencies(text)) == |text|
    decreases |text|
  {
    if text == [] {
      assert Frequencies(text) == map[];
    } else {
      var p, c := text[..|text| - 1], text[|text| - 1];
      var f := Frequencies(p);
      var n := if c in f then f[c] + 1 else 1;
      FrequenciesSum(p);
      assert Frequencies(text) == f[c := n];
      SumValuesUpdate(f, c, n);
    }
  }

  /**
   * The counting loop: a single pass over the text. The map starts empty,
   * and each symbol's entry is created at 0 and incremented.
   */
  method CountFrequencies(text: seq<Symbol>) returns (freq: map<Symbol, nat>)
    ensures freq == Frequencies(text)
    ensures forall c :: c in freq <==> c in text
    ensures forall c | c in freq :: freq[c] == multiset(text)[c] > 0
    ensures SumValues(freq) == |text|
    ensures freq == map[] <==> text == []
  {
    freq := map[];
    for i := 0 to |text|
      invariant freq == Frequencies(text[..i])
    {
      var c := text[i];
      var n := if c in freq then freq[c] else 0;
      freq := freq[c := n + 1];
      FrequenciesStep(text[..i], c);
      assert text[..i + 1] == text[..i] + [c];
    }
    assert text[..|text|] == text;
    FrequenciesSum(text);
    FrequenciesCount(text);
    if text != [] {
      assert text[0] in freq;
    }
  }
}
