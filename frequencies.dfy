/** The byte → count table of `countFrequencies` and the sums over it that
    `byteSize` and the tree builder rely on. */
module ByteCounts {
  import opened HuffmanTree

  /** `byteMap.get(b)`, with a missing entry read as 0. */
  function Get(m: map<Byte, nat>, b: Byte): nat
  {
    if b in m then m[b] else 0
  }

  /** The sum of the entries of `m` for the bytes below `n`; with `n` = 256
      it is the sum of all the map's values, in whatever order they are visited. */
  function SumBelow(m: map<Byte, nat>, n: nat): nat
    requires n <= 256
  {
    if n == 0 then 0 else SumBelow(m, n - 1) + Get(m, n - 1)
  }

  /** Setting one entry changes the sum by the difference of the two values. */
  lemma {:induction false} SumBelowUpdate(m: map<Byte, nat>, k: Byte, v: nat, n: nat)
    requires n <= 256
    ensures SumBelow(m[k := v], n) == SumBelow(m, n) + (if k < n then v - Get(m, k) else 0)
  {
    if n > 0 {
      SumBelowUpdate(m, k, v, n - 1);
    }
  }

  lemma {:induction false} SumBelowEmpty(n: nat)
    requires n <= 256
    ensures SumBelow(map[], n) == 0
  {
    if n > 0 {
      SumBelowEmpty(n - 1);
    }
  }

  /** A non-empty sequence is its front followed by its last element. */
  lemma SplitLast<T>(s: seq<T>)
    requires s != []
    ensures s == s[..|s| - 1] + [s[|s| - 1]]
  {
  }

  /** The table `countFrequencies` holds after the first |data| bytes: one
      entry per byte, put one more than its previous count (or 1). */
  function Frequencies(data: seq<Byte>): map<Byte, nat>
  {
    if data == [] then map[]
    else
      var m := Frequencies(data[..|data| - 1]);
      var x := data[|data| - 1];
      m[x := Get(m, x) + 1]
  }

  /** The keys are exactly the bytes occurring in `data`, and each maps to its
      number of occurrences (so empty data gives an empty table). */
  lemma {:induction false} FrequenciesCount(data: seq<Byte>)
    ensures forall b :: b in Frequencies(data) <==> b in data
    ensures forall b :: Get(Frequencies(data), b) == multiset(data)[b]
  {
    if data != [] {
      var init := data[..|data| - 1];
      FrequenciesCount(init);
      assert data == init + [data[|data| - 1]];
    }
  }

  /** The counts add up to the length of the data. */
  lemma {:induction false} FrequenciesTotal(data: seq<Byte>)
    ensures SumBelow(Frequencies(data), 256) == |data|
  {
    if data == [] {
      SumBelowEmpty(256);
    } else {
      var init := data[..|data| - 1];
      var x := data[|data| - 1];
      FrequenciesTotal(init);
      var m := Frequencies(init);
      SumBelowUpdate(m, x, Get(m, x) + 1, 256);
    }
  }

  /** For each byte of the table, its count times the length of its code:
      the terms `byteSize` adds up. */
  function Weights(freq: map<Byte, nat>, cm: map<Byte, Bits>): (w: map<Byte, nat>)
    requires freq.Keys <= cm.Keys
    ensures w.Keys == freq.Keys
  {
    map b | b in freq :: freq[b] * |cm[b]|
  }
}
