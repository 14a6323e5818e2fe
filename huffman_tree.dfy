/** The code tree of HuffmanCodes.java: its two node kinds, the count order
    the priority queue uses, and the code table read off the tree by
    `getAllCodes`/`putCodes`. */
module HuffmanTree {
  import opened Wrappers

  /** A byte value. The source keeps it in a signed Java `byte`; only its
      eight bits matter, so the model uses 0..255. */
  type Byte = b: int | 0 <= b < 256

  /** A bit stream or a code, first bit first; `true` is the bit 1
      (the character '1' of a code string). */
  type Bits = seq<bool>

  /** `ValueNode(value, count)` and `DecisionNode(left, right)` with its count. */
  datatype Node = Leaf(value: Byte, count: nat) | Internal(left: Node, right: Node, count: nat)

  /** `Node.compareTo`: nodes are ordered by their counts alone, so nodes of
      equal count compare as equal and the queue may take either. */
  function CompareTo(a: Node, b: Node): (r: int)
    ensures -1 <= r <= 1
    ensures r < 0 <==> a.count < b.count
    ensures r == 0 <==> a.count == b.count
    ensures r > 0 <==> a.count > b.count
  {
    if a.count > b.count then 1 else if a.count == b.count then 0 else -1
  }

  /** The byte values stored at the leaves, with multiplicity. */
  function ValueBag(t: Node): multiset<Byte>
  {
    match t
    case Leaf(v, _) => multiset{v}
    case Internal(l, r, _) => ValueBag(l) + ValueBag(r)
  }

  /** Every DecisionNode's count is the sum of its children's counts
      (HuffmanCodes.java:51). */
  ghost predicate Weighted(t: Node)
  {
    match t
    case Leaf(_, _) => true
    case Internal(l, r, c) => c == l.count + r.count && Weighted(l) && Weighted(r)
  }

  /** Every leaf carries the frequency that `m` records for its byte. */
  ghost predicate LeavesFrom(t: Node, m: map<Byte, nat>)
  {
    match t
    case Leaf(v, c) => v in m && m[v] == c
    case Internal(l, r, _) => LeavesFrom(l, m) && LeavesFrom(r, m)
  }

  /** The tree with every count 0: what the decoder rebuilds, since the
      constructors it uses never set a count. */
  function Strip(t: Node): Node
  {
    match t
    case Leaf(v, _) => Leaf(v, 0)
    case Internal(l, r, _) => Internal(Strip(l), Strip(r), 0)
  }

  /** Dropping the counts keeps the shape of the root and the leaf values. */
  lemma {:induction false} StripKeepsValues(t: Node)
    ensures ValueBag(Strip(t)) == ValueBag(t)
    ensures Strip(t).Leaf? == t.Leaf?
  {
    match t
    case Leaf(_, _) =>
    case Internal(l, r, _) =>
      StripKeepsValues(l);
      StripKeepsValues(r);
  }

  /** Follows `path` from the root (false = left, true = right) and yields the
      byte of the leaf it ends on, or None when it stops early or runs past a leaf. */
  function Walk(t: Node, path: Bits): Option<Byte>
  {
    match t
    case Leaf(v, _) => if path == [] then Some(v) else None
    case Internal(l, r, _) =>
      if path == [] then None else Walk(if path[0] then r else l, path[1..])
  }

  predicate IsPrefix(p: Bits, c: Bits)
  {
    |p| <= |c| && c[..|p|] == p
  }

  /** No code of the table is a prefix of the code of another byte. */
  ghost predicate PrefixFree(cm: map<Byte, Bits>)
  {
    forall b1, b2 :: b1 in cm && b2 in cm && b1 != b2 ==> !IsPrefix(cm[b1], cm[b2])
  }

  /** `putCodes(table, bits)`: a ValueNode puts `bits` for its value; a
      DecisionNode recurses left with "0" appended, then right with "1"
      appended, into the same table, so a later put overrides an earlier one. */
  function PutCodes(t: Node, table: map<Byte, Bits>, bits: Bits): (r: map<Byte, Bits>)
    ensures forall b :: b in r <==> b in table || b in ValueBag(t)
    ensures forall b :: b in table && b !in ValueBag(t) ==> r[b] == table[b]
  {
    match t
    case Leaf(v, _) => table[v := bits]
    case Internal(l, rt, _) => PutCodes(rt, PutCodes(l, table, bits + [false]), bits + [true])
  }

  /** `getAllCodes`: the code table of a tree, starting from the empty path. */
  function GetAllCodes(t: Node): (r: map<Byte, Bits>)
    ensures forall b :: b in r <==> b in ValueBag(t)
    ensures t.Leaf? ==> r == map[t.value := []]
  {
    PutCodes(t, map[], [])
  }

  lemma PrefixShorten(p: Bits, x: bool, c: Bits)
    requires IsPrefix(p + [x], c)
    ensures IsPrefix(p, c) && c[|p|] == x
  {
    assert c[..|p|] == c[..|p| + 1][..|p|];
    assert c[|p|] == c[..|p| + 1][|p|];
  }

  /** Every byte below the node gets a code that starts with `bits`. */
  lemma {:induction false} PutCodesPrefix(t: Node, table: map<Byte, Bits>, bits: Bits, b: Byte)
    requires b in ValueBag(t)
    ensures IsPrefix(bits, PutCodes(t, table, bits)[b])
  {
    match t
    case Leaf(_, _) =>
    case Internal(l, r, _) =>
      var inner := PutCodes(l, table, bits + [false]);
      var c := PutCodes(t, table, bits)[b];
      assert c == PutCodes(r, inner, bits + [true])[b];
      if b in ValueBag(r) {
        PutCodesPrefix(r, inner, bits + [true], b);
        PrefixShorten(bits, true, c);
      } else {
        PutCodesPrefix(l, table, bits + [false], b);
        assert c == inner[b];
        PrefixShorten(bits, false, c);
      }
  }

  /** A step down from a DecisionNode: a 0 goes to the left child and a 1 to
      the right child. */
  lemma WalkStep(t: Node, x: bool, path: Bits)
    requires t.Internal?
    ensures Walk(t, [x] + path) == Walk(if x then t.right else t.left, path)
  {
    assert ([x] + path)[1..] == path;
  }

  lemma AppendEmpty(path: Bits)
    ensures [] + path == path
  {
  }

  lemma AppendBit(bits: Bits, x: bool, path: Bits)
    ensures bits + [x] + path == bits + ([x] + path)
  {
  }

  /** The code `putCodes` gives a byte is the prefix it started from followed
      by a path from the node down to a leaf holding that byte. When a byte
      sits at two leaves, the later (rightmost) put wins and the path leads
      there. */
  lemma {:induction false} PutCodesPath(t: Node, table: map<Byte, Bits>, bits: Bits, b: Byte)
    requires b in ValueBag(t)
    ensures exists path :: PutCodes(t, table, bits)[b] == bits + path && Walk(t, path) == Some(b)
  {
    var c := PutCodes(t, table, bits)[b];
    match t
    case Leaf(v, _) =>
      assert c == bits + [] && Walk(t, []) == Some(b);
    case Internal(l, r, _) =>
      var inner := PutCodes(l, table, bits + [false]);
      assert c == PutCodes(r, inner, bits + [true])[b];
      var x := b in ValueBag(r);
      var path: Bits;
      if x {
        PutCodesPath(r, inner, bits + [true], b);
        path :| c == bits + [true] + path && Walk(r, path) == Some(b);
        AppendBit(bits, true, path);
      } else {
        assert c == inner[b];
        PutCodesPath(l, table, bits + [false], b);
        path :| c == bits + [false] + path && Walk(l, path) == Some(b);
        AppendBit(bits, false, path);
      }
      WalkStep(t, x, path);
      assert c == bits + ([x] + path);
  }

  /** Each code of `getAllCodes` is exactly the root-to-leaf path of its byte,
      so its length is the depth of that leaf. */
  lemma CodesAreLeafPaths(t: Node)
    ensures forall b :: b in GetAllCodes(t) ==> Walk(t, GetAllCodes(t)[b]) == Some(b)
  {
    forall b | b in GetAllCodes(t) ensures Walk(t, GetAllCodes(t)[b]) == Some(b) {
      PutCodesPath(t, map[], [], b);
      var path :| GetAllCodes(t)[b] == [] + path && Walk(t, path) == Some(b);
      AppendEmpty(path);
    }
  }

  /** A path that ends on a leaf cannot be continued to end on another leaf. */
  lemma {:induction false} WalkPrefix(t: Node, c: Bits, d: Bits)
    requires Walk(t, c).Some? && Walk(t, c + d).Some?
    ensures d == []
  {
    match t
    case Leaf(_, _) =>
      assert c == [];
      assert c + d == d;
    case Internal(l, r, _) =>
      assert (c + d)[0] == c[0];
      assert (c + d)[1..] == c[1..] + d;
      WalkPrefix(if c[0] then r else l, c[1..], d);
  }

  /** The code set of any tree is prefix-free (and so injective): each code
      ends on a leaf, and no path can go on past a leaf. */
  lemma CodesPrefixFree(t: Node)
    ensures PrefixFree(GetAllCodes(t))
  {
    var cm := GetAllCodes(t);
    CodesAreLeafPaths(t);
    forall b1, b2 | b1 in cm && b2 in cm && IsPrefix(cm[b1], cm[b2]) ensures b1 == b2 {
      var d := cm[b2][|cm[b1]|..];
      assert cm[b2] == cm[b1] + d;
      assert Walk(t, cm[b1]) == Some(b1) && Walk(t, cm[b1] + d) == Some(b2);
      WalkPrefix(t, cm[b1], d);
      assert cm[b1] + d == cm[b1];
    }
  }

  /** Below a DecisionNode root every code is at least one bit long. */
  lemma InternalRootCodesNonEmpty(t: Node)
    requires t.Internal?
    ensures forall b :: b in GetAllCodes(t) ==> GetAllCodes(t)[b] != []
  {
    var inner := PutCodes(t.left, map[], [false]);
    assert GetAllCodes(t) == PutCodes(t.right, inner, [true]) by {
      assert [] + [false] == [false] && [] + [true] == [true];
    }
    forall b | b in GetAllCodes(t) ensures GetAllCodes(t)[b] != [] {
      if b in ValueBag(t.right) {
        PutCodesPrefix(t.right, inner, [true], b);
        PrefixShorten([], true, GetAllCodes(t)[b]);
      } else {
        PutCodesPrefix(t.left, map[], [false], b);
        assert GetAllCodes(t)[b] == inner[b];
        PrefixShorten([], false, inner[b]);
      }
    }
  }

  /** The code table does not depend on the counts, so the tree the decoder
      rebuilds gives the encoder's codes. */
  lemma {:induction false} PutCodesIgnoresCounts(t: Node, table: map<Byte, Bits>, bits: Bits)
    ensures PutCodes(Strip(t), table, bits) == PutCodes(t, table, bits)
  {
    match t
    case Leaf(_, _) =>
    case Internal(l, r, _) =>
      PutCodesIgnoresCounts(l, table, bits + [false]);
      PutCodesIgnoresCounts(r, PutCodes(l, table, bits + [false]), bits + [true]);
  }

  /** The code table with the one evident correction to `getAllCodes`: a
      lone ValueNode root gets the one-bit code "0" instead of the empty
      code, so that each occurrence of its byte is written as one bit. */
  function CodeTable(t: Node): (r: map<Byte, Bits>)
    ensures forall b :: b in r <==> b in ValueBag(t)
    ensures t.Internal? ==> r == GetAllCodes(t)
  {
    if t.Leaf? then map[t.value := [false]] else GetAllCodes(t)
  }

  /** The corrected table is prefix-free and has no empty code, whatever
      the shape of the root. */
  lemma CodeTableDecodable(t: Node)
    ensures PrefixFree(CodeTable(t))
    ensures forall b :: b in CodeTable(t) ==> CodeTable(t)[b] != []
  {
    if t.Internal? {
      CodesPrefixFree(t);
      InternalRootCodesNonEmpty(t);
    }
  }

  /** The corrected table does not depend on the counts either. */
  lemma CodeTableIgnoresCounts(t: Node)
    ensures CodeTable(Strip(t)) == CodeTable(t)
  {
    PutCodesIgnoresCounts(t, map[], []);
  }
}
