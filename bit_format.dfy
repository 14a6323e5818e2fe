/** The on-stream bit formats of HuffmanCodes.java: the 8-bit and 32-bit
    fields written by `writeByte`/`writeInt`, the preorder tree grammar
    written by `writeTree`, and its reader `DecisionNode.remakeTree`. */
module BitFormat {
  import opened Wrappers
  import opened HuffmanTree

  /** Why a decode stops: the stream ended inside a field that had to be read. */
  datatype FormatError = Truncated

  function Pow2(n: nat): (r: nat)
    ensures r >= 1
  {
    if n == 0 then 1 else 2 * Pow2(n - 1)
  }

  /** The low `width` bits of `n`, most significant first. */
  function NatToBits(n: nat, width: nat): (r: Bits)
    ensures |r| == width
  {
    if width == 0 then [] else NatToBits(n / 2, width - 1) + [n % 2 == 1]
  }

  /** The unsigned number a bit field denotes, most significant bit first. */
  function BitsToNat(s: Bits): (r: nat)
    ensures r < Pow2(|s|)
  {
    if s == [] then 0 else 2 * BitsToNat(s[..|s| - 1]) + (if s[|s| - 1] then 1 else 0)
  }

  /** Writing a field and reading it back gives the number, when it fits. */
  lemma {:induction false} BitsRoundTrip(n: nat, width: nat)
    requires n < Pow2(width)
    ensures BitsToNat(NatToBits(n, width)) == n
  {
    if width > 0 {
      var s := NatToBits(n, width);
      assert s[..|s| - 1] == NatToBits(n / 2, width - 1);
      BitsRoundTrip(n / 2, width - 1);
    }
  }

  /** `writeByte`: the eight bits of a byte. */
  function ByteBits(b: Byte): (r: Bits)
    ensures |r| == 8
  {
    NatToBits(b, 8)
  }

  /** `readByte`: the byte an 8-bit field denotes. */
  function ByteOf(s: Bits): (r: Byte)
    requires |s| == 8
  {
    assert Pow2(8) == 256;
    BitsToNat(s)
  }

  /** Every 8-bit field is the field written for the byte it denotes. */
  lemma ByteBitsOfByteOf(s: Bits)
    requires |s| == 8
    ensures ByteBits(ByteOf(s)) == s
  {
    NatToBitsOfBitsToNat(s);
  }

  lemma {:induction false} NatToBitsOfBitsToNat(s: Bits)
    ensures NatToBits(BitsToNat(s), |s|) == s
  {
    if s != [] {
      var init := s[..|s| - 1];
      NatToBitsOfBitsToNat(init);
      var n := BitsToNat(s);
      assert n / 2 == BitsToNat(init);
      assert s == init + [s[|s| - 1]];
    }
  }

  /** Reading back the 8 bits written for a byte gives that byte. */
  lemma ByteRoundTrip(b: Byte)
    ensures ByteOf(ByteBits(b)) == b
  {
    assert Pow2(8) == 256;
    BitsRoundTrip(b, 8);
  }

  /** `writeInt` of a Java int holding `n`: an int keeps `n` modulo 2^32, and
      its 32 bits are written most significant first. */
  function IntBits(n: nat): (r: Bits)
    ensures |r| == 32
  {
    NatToBits(n % Pow2(32), 32)
  }

  function LeafCount(t: Node): nat
  {
    match t
    case Leaf(_, _) => 1
    case Internal(l, r, _) => LeafCount(l) + LeafCount(r)
  }

  function InternalCount(t: Node): nat
  {
    match t
    case Leaf(_, _) => 0
    case Internal(l, r, _) => 1 + InternalCount(l) + InternalCount(r)
  }

  /** The bits `writeTree` sends to the stream: in preorder, a 0 for a
      DecisionNode followed by its left and then its right subtree, and a 1
      followed by the 8-bit value for a ValueNode. */
  function TreeBits(t: Node): (r: Bits)
    ensures r != []
  {
    match t
    case Leaf(v, _) => [true] + ByteBits(v)
    case Internal(l, rt, _) => [false] + TreeBits(l) + TreeBits(rt)
  }

  /** One tag bit per node and eight value bits per ValueNode; the first bit
      tells the two node kinds apart. */
  lemma {:induction false} TreeBitsShape(t: Node)
    ensures |TreeBits(t)| == InternalCount(t) + 9 * LeafCount(t)
    ensures TreeBits(t)[0] == t.Leaf?
  {
    match t
    case Leaf(_, _) =>
    case Internal(l, r, _) =>
      TreeBitsShape(l);
      TreeBitsShape(r);
  }

  /** The string `writeTree` returns: the tag characters alone, one per node. */
  function TagString(t: Node): (r: string)
    ensures |r| == InternalCount(t) + LeafCount(t)
    ensures forall i :: 0 <= i < |r| ==> r[i] == '0' || r[i] == '1'
  {
    match t
    case Leaf(_, _) => "1"
    case Internal(l, rt, _) => "0" + TagString(l) + TagString(rt)
  }

  /** `writeTree(outStream, root)`: appends the serialised tree to the stream
      and returns the tag string. */
  method WriteTree(outStream: Bits, root: Node) returns (out: Bits, stringToReturn: string)
    ensures out == outStream + TreeBits(root)
    ensures stringToReturn == TagString(root)
    decreases root
  {
    match root
    case Internal(l, r, _) =>
      stringToReturn := "0";
      out := outStream + [false];
      var ls, rs;
      out, ls := WriteTree(out, l);
      out, rs := WriteTree(out, r);
      stringToReturn := stringToReturn + ls + rs;
      assert out == outStream + ([false] + TreeBits(l) + TreeBits(r));
    case Leaf(v, _) =>
      stringToReturn := "1";
      out := outStream + [true];
      out := out + ByteBits(v);
      assert out == outStream + ([true] + ByteBits(v));
  }

  /** The tree grammar read from the front of the unread stream `s`: the node
      there and the number of bits it takes, or None when the stream ends
      first. Nodes read back carry count 0. */
  function ParseNode(s: Bits): (r: Option<(Node, nat)>)
    ensures r.Some? ==> 0 < r.value.1 <= |s|
    decreases |s|, 1
  {
    if s == [] then None
    else if !s[0] then
      match ParseChildren(s[1..])
      case None => None
      case Some((l, rt, n)) => Some((Internal(l, rt, 0), 1 + n))
    else if 9 <= |s| then Some((Leaf(ByteOf(s[1..9]), 0), 9))
    else None
  }

  /** The two children of a DecisionNode whose 0 tag is already consumed,
      and the number of bits they take. */
  function ParseChildren(s: Bits): (r: Option<(Node, Node, nat)>)
    ensures r.Some? ==> 0 < r.value.2 <= |s|
    decreases |s|, 2
  {
    match ParseNode(s)
    case None => None
    case Some((l, n1)) =>
      match ParseNode(s[n1..])
      case None => None
      case Some((rt, n2)) => Some((l, rt, n1 + n2))
  }

  /** `DecisionNode.remakeTree`: reads the left and then the right child of
      a DecisionNode from the unread stream `input` and returns them with
      `bitNum`, the number of bits read (2 for the two tags, plus 8 for each
      ValueNode child and the count of each DecisionNode child's own
      `remakeTree`); the stream left afterwards is `input[bitNum..]`. */
  method RemakeTree(input: Bits) returns (r: Result<(Node, Node, nat), FormatError>)
    ensures ParseChildren(input).None? <==> r.Err?
    ensures ParseChildren(input).Some? ==> r == Ok(ParseChildren(input).value)
    decreases |input|, 2
  {
    var bitNum := 2;
    var leftRead := ReadChild(input);
    if leftRead.Err? {
      return Err(leftRead.error);
    }
    var (left, n1) := leftRead.value;
    bitNum := bitNum + (n1 - 1);
    var rightRead := ReadChild(input[n1..]);
    if rightRead.Err? {
      return Err(rightRead.error);
    }
    var (right, n2) := rightRead.value;
    bitNum := bitNum + (n2 - 1);
    return Ok((left, right, bitNum));
  }

  /** One of the two blocks of `remakeTree`: reads a tag bit, then either a
      DecisionNode's children (tag 0) or a ValueNode's byte (tag 1), and
      returns the child with the bits it took, the tag included. Running out
      of stream is the `IOException` of the source. */
  method ReadChild(input: Bits) returns (r: Result<(Node, nat), FormatError>)
    ensures ParseNode(input).None? <==> r.Err?
    ensures ParseNode(input).Some? ==> r == Ok(ParseNode(input).value)
    decreases |input|, 1
  {
    if input == [] {
      return Err(Truncated);
    }
    var bit := input[0];
    if !bit {
      var sub := RemakeTree(input[1..]);
      if sub.Err? {
        return Err(sub.error);
      }
      var (l, rt, n) := sub.value;
      return Ok((Internal(l, rt, 0), 1 + n));
    }
    if |input| < 9 {
      return Err(Truncated);
    }
    return Ok((Leaf(ByteOf(input[1..9]), 0), 9));
  }

  /** Reading back what `writeTree` wrote, followed by anything, rebuilds the
      tree (with counts 0) and consumes exactly the written bits. */
  lemma {:induction false} TreeRoundTrip(t: Node, rest: Bits)
    ensures ParseNode(TreeBits(t) + rest) == Some((Strip(t), |TreeBits(t)|))
  {
    match t
    case Leaf(_, _) => LeafRoundTrip(t, rest);
    case Internal(l, r, c) =>
      TreeRoundTrip(l, TreeBits(r) + rest);
      TreeRoundTrip(r, rest);
      InternalRoundTrip(l, r, c, rest);
  }

  /** On the bits `writeTree` wrote for a DecisionNode, past its leading 0,
      `remakeTree` rebuilds both subtrees and counts one bit less than was
      written, the 0 that `decode` counts itself. */
  lemma RemakeTreeCount(l: Node, r: Node, c: nat, rest: Bits)
    ensures ParseChildren(TreeBits(Internal(l, r, c))[1..] + rest) ==
            Some((Strip(l), Strip(r), |TreeBits(Internal(l, r, c))| - 1))
  {
    var tl, tr := TreeBits(l), TreeBits(r);
    assert TreeBits(Internal(l, r, c)) == [false] + tl + tr;
    TreeRoundTrip(l, tr + rest);
    TreeRoundTrip(r, rest);
    ChildrenRoundTrip(Strip(l), Strip(r), tl, tr, rest, [false] + tl + tr + rest);
    Regroup(tl, tr, rest);
    TagDropped(tl, tr, rest);
  }

  lemma TagDropped(tl: Bits, tr: Bits, rest: Bits)
    ensures ([false] + tl + tr)[1..] + rest == tl + (tr + rest)
    ensures |[false] + tl + tr| - 1 == |tl| + |tr|
  {
    assert ([false] + tl + tr)[1..] == tl + tr;
  }

  lemma InternalRoundTrip(l: Node, r: Node, c: nat, rest: Bits)
    requires ParseNode(TreeBits(l) + (TreeBits(r) + rest)) == Some((Strip(l), |TreeBits(l)|))
    requires ParseNode(TreeBits(r) + rest) == Some((Strip(r), |TreeBits(r)|))
    ensures ParseNode(TreeBits(Internal(l, r, c)) + rest) ==
            Some((Strip(Internal(l, r, c)), |TreeBits(Internal(l, r, c))|))
  {
    ChildrenRoundTrip(Strip(l), Strip(r), TreeBits(l), TreeBits(r), rest, TreeBits(Internal(l, r, c)) + rest);
  }

  /** A ValueNode's nine bits read back as that byte. */
  lemma LeafRoundTrip(t: Node, rest: Bits)
    requires t.Leaf?
    ensures ParseNode(TreeBits(t) + rest) == Some((Strip(t), |TreeBits(t)|))
  {
    var s := TreeBits(t) + rest;
    assert TreeBits(t) == [true] + ByteBits(t.value);
    assert s[1..9] == ByteBits(t.value);
    ByteRoundTrip(t.value);
  }

  /** The step of `TreeRoundTrip` for a DecisionNode: when the bits `tl` of
      the left child read back as `l` and the bits `tr` of the right child as
      `r`, a 0 followed by both reads back as the DecisionNode, and
      `remakeTree`'s part (everything after the leading 0) is the two
      children. */
  lemma ChildrenRoundTrip(l: Node, r: Node, tl: Bits, tr: Bits, rest: Bits, s: Bits)
    requires s == [false] + tl + tr + rest
    requires ParseNode(tl + (tr + rest)) == Some((l, |tl|))
    requires ParseNode(tr + rest) == Some((r, |tr|))
    ensures ParseChildren(s[1..]) == Some((l, r, |tl| + |tr|))
    ensures ParseNode(s) == Some((Internal(l, r, 0), 1 + |tl| + |tr|))
  {
    Regroup(tl, tr, rest);
  }

  lemma Regroup(tl: Bits, tr: Bits, rest: Bits)
    ensures ([false] + tl + tr + rest)[0] == false
    ensures ([false] + tl + tr + rest)[1..] == tl + (tr + rest)
    ensures (tl + (tr + rest))[|tl|..] == tr + rest
  {
  }
}
