/** The payload section of HuffmanCodes.java: the bits `encode` writes for
    the input bytes, `reverseByteMap`, and the accumulator loop of `decode`. */
module PayloadCodec {
  import opened HuffmanTree
  import opened ByteCounts

  /** The code `encode` writes for one byte; it skips a byte the table lacks
      (`codeMap.containsKey`), which never happens for a table built from the
      same data. */
  function CodeOf(cm: map<Byte, Bits>, b: Byte): Bits
  {
    if b in cm then cm[b] else []
  }

  /** The payload: the codes of the input bytes, in input order. */
  function Payload(cm: map<Byte, Bits>, data: seq<Byte>): Bits
  {
    if data == [] then [] else Payload(cm, data[..|data| - 1]) + CodeOf(cm, data[|data| - 1])
  }

  /** The payload is as long as `byteSize` says: the count of each byte times
      the length of its code, summed over the frequency table. */
  lemma {:induction false} PayloadLength(cm: map<Byte, Bits>, data: seq<Byte>)
    requires Frequencies(data).Keys <= cm.Keys
    ensures |Payload(cm, data)| == SumBelow(Weights(Frequencies(data), cm), 256)
  {
    if data == [] {
      assert Weights(Frequencies(data), cm) == map[];
      SumBelowEmpty(256);
    } else {
      var init := data[..|data| - 1];
      var x := data[|data| - 1];
      var f := Frequencies(init);
      assert Frequencies(data) == f[x := Get(f, x) + 1];
      PayloadLength(cm, init);
      WeightsStep(f, cm, x);
    }
  }

  /** Counting one more `x` adds the length of its code to the weighted sum. */
  lemma WeightsStep(f: map<Byte, nat>, cm: map<Byte, Bits>, x: Byte)
    requires f.Keys <= cm.Keys && x in cm
    ensures SumBelow(Weights(f[x := Get(f, x) + 1], cm), 256) == SumBelow(Weights(f, cm), 256) + |cm[x]|
  {
    var c, len := Get(f, x), |cm[x]|;
    var w := Weights(f, cm);
    assert Weights(f[x := c + 1], cm) == w[x := (c + 1) * len];
    SumBelowUpdate(w, x, (c + 1) * len, 256);
    assert Get(w, x) == c * len;
    MulSucc(c, len);
  }

  lemma MulSucc(c: nat, len: nat)
    ensures (c + 1) * len == c * len + len
  {
  }

  /** The decoder's loop as a function: each bit is appended to the
      accumulator `acc`; when the accumulator is a code of `dm` its byte is
      emitted and the accumulator cleared. Gives the bytes emitted and the
      accumulator left at the end. */
  function DecodeFrom(dm: map<Bits, Byte>, acc: Bits, bits: Bits): (seq<Byte>, Bits)
    decreases |bits|
  {
    if bits == [] then ([], acc)
    else
      var a := acc + [bits[0]];
      if a in dm then
        var (out, left) := DecodeFrom(dm, [], bits[1..]);
        ([dm[a]] + out, left)
      else DecodeFrom(dm, a, bits[1..])
  }

  /** Decoding two pieces in turn, carrying the accumulator over, is decoding
      their concatenation. */
  lemma {:induction false} DecodeAppend(dm: map<Bits, Byte>, acc: Bits, s1: Bits, s2: Bits)
    ensures var (o1, a1) := DecodeFrom(dm, acc, s1);
            var (o2, a2) := DecodeFrom(dm, a1, s2);
            DecodeFrom(dm, acc, s1 + s2) == (o1 + o2, a2)
    decreases |s1|
  {
    if s1 == [] {
      assert s1 + s2 == s2;
      var (o2, a2) := DecodeFrom(dm, acc, s2);
      assert [] + o2 == o2;
    } else {
      assert (s1 + s2)[0] == s1[0];
      assert (s1 + s2)[1..] == s1[1..] + s2;
      var a := acc + [s1[0]];
      if a in dm {
        DecodeAppend(dm, [], s1[1..], s2);
        var (o1, a1) := DecodeFrom(dm, [], s1[1..]);
        var (o2, a2) := DecodeFrom(dm, a1, s2);
        assert [dm[a]] + (o1 + o2) == ([dm[a]] + o1) + o2;
      } else {
        DecodeAppend(dm, a, s1[1..], s2);
      }
    }
  }

  /** When `acc + s` is a code and no shorter extension of `acc` by a prefix
      of `s` is, decoding `s` emits exactly that code's byte and leaves an
      empty accumulator. */
  lemma {:induction false} DecodeOneCode(dm: map<Bits, Byte>, acc: Bits, s: Bits)
    requires s != [] && acc + s in dm
    requires forall k :: 0 < k < |s| ==> acc + s[..k] !in dm
    ensures DecodeFrom(dm, acc, s) == ([dm[acc + s]], [])
    decreases |s|
  {
    var a := acc + [s[0]];
    if |s| == 1 {
      assert a == acc + s;
      assert s[1..] == [];
      assert DecodeFrom(dm, [], s[1..]) == ([], []);
      assert [dm[a]] + [] == [dm[a]];
    } else {
      assert a == acc + s[..1];
      assert a + s[1..] == acc + s;
      forall k | 0 < k < |s[1..]| ensures a + s[1..][..k] !in dm {
        assert a + s[1..][..k] == acc + s[..k + 1];
      }
      DecodeOneCode(dm, a, s[1..]);
    }
  }

  ghost predicate Injective(cm: map<Byte, Bits>)
  {
    forall b1, b2 :: b1 in cm && b2 in cm && b1 != b2 ==> cm[b1] != cm[b2]
  }

  /** `dm` inverts `cm`: its keys are the codes of `cm`, and each maps back to
      a byte whose code it is. */
  ghost predicate InvertsOnto(cm: map<Byte, Bits>, dm: map<Bits, Byte>)
  {
    && (forall b :: b in cm ==> cm[b] in dm)
    && (forall c :: c in dm ==> dm[c] in cm && cm[dm[c]] == c)
  }

  /** `reverseByteMap`: puts (code, byte) for every entry, visiting the
      entries in an order the model leaves open. For an injective table the
      result maps each code back to its own byte whatever the order. */
  method ReverseByteMap(inputMap: map<Byte, Bits>) returns (mapToReturn: map<Bits, Byte>)
    ensures InvertsOnto(inputMap, mapToReturn)
    ensures mapToReturn.Keys == inputMap.Values
    ensures Injective(inputMap) ==>
              forall b :: b in inputMap ==> mapToReturn[inputMap[b]] == b
  {
    mapToReturn := map[];
    var entries := inputMap.Keys;
    while entries != {}
      invariant entries <= inputMap.Keys
      invariant forall b :: b in inputMap && b !in entries ==> inputMap[b] in mapToReturn
      invariant forall c :: c in mapToReturn ==> mapToReturn[c] in inputMap && inputMap[mapToReturn[c]] == c
      decreases entries
    {
      var k :| k in entries;
      mapToReturn := mapToReturn[inputMap[k] := k];
      entries := entries - {k};
    }
  }

  /** For a prefix-free table of non-empty codes and any inverse of it, the
      decoder loop run over the payload of `data` emits exactly `data` and
      ends with an empty accumulator. */
  lemma {:induction false} DecodePayload(cm: map<Byte, Bits>, dm: map<Bits, Byte>, data: seq<Byte>)
    requires PrefixFree(cm) && InvertsOnto(cm, dm)
    requires forall b :: b in cm ==> cm[b] != []
    requires forall i :: 0 <= i < |data| ==> data[i] in cm
    ensures DecodeFrom(dm, [], Payload(cm, data)) == (data, [])
  {
    if data != [] {
      var init := data[..|data| - 1];
      var x := data[|data| - 1];
      var c := cm[x];
      DecodePayload(cm, dm, init);
      assert Payload(cm, data) == Payload(cm, init) + c;
      DecodeAppend(dm, [], Payload(cm, init), c);
      DecodeCode(cm, dm, x);
      SplitLast(data);
    }
  }

  /** Under a prefix-free table of non-empty codes, decoding the code of `x`
      from an empty accumulator emits `x` alone. */
  lemma DecodeCode(cm: map<Byte, Bits>, dm: map<Bits, Byte>, x: Byte)
    requires PrefixFree(cm) && InvertsOnto(cm, dm)
    requires x in cm && cm[x] != []
    ensures DecodeFrom(dm, [], cm[x]) == ([x], [])
  {
    var c := cm[x];
    forall k | 0 < k < |c| ensures [] + c[..k] !in dm {
      assert [] + c[..k] == c[..k];
      if c[..k] in dm {
        var b' := dm[c[..k]];
        assert IsPrefix(cm[b'], c);
      }
    }
    assert [] + c == c;
    assert IsPrefix(cm[dm[c]], c);
    DecodeOneCode(dm, [], c);
  }

  /** When every code of the table is empty the payload is empty. */
  lemma {:induction false} PayloadOfEmptyCodes(cm: map<Byte, Bits>, data: seq<Byte>)
    requires forall b :: b in cm ==> cm[b] == []
    ensures Payload(cm, data) == []
  {
    if data != [] {
      PayloadOfEmptyCodes(cm, data[..|data| - 1]);
    }
  }

  /** As written, `getAllCodes` gives a lone ValueNode root the empty code,
      so for data made of one repeated byte the payload is empty and the
      decoder loop emits nothing: the data does not come back. */
  lemma SingleByteRoundTripFails(v: Byte, c: nat, data: seq<Byte>, dm: map<Bits, Byte>)
    requires data != [] && forall i :: 0 <= i < |data| ==> data[i] == v
    requires InvertsOnto(GetAllCodes(Leaf(v, c)), dm)
    ensures Payload(GetAllCodes(Leaf(v, c)), data) == []
    ensures DecodeFrom(dm, [], Payload(GetAllCodes(Leaf(v, c)), data)) == ([], [])
    ensures DecodeFrom(dm, [], Payload(GetAllCodes(Leaf(v, c)), data)).0 != data
  {
    PayloadOfEmptyCodes(GetAllCodes(Leaf(v, c)), data);
  }
}
