# Huffman codec and argument registry, modelled in Dafny

This project models two parts of a small Java repository and proves
properties of the model.

1. **The Huffman codec of `HuffmanCodes.java`.** Its parts are:
   - frequency counting;
   - the priority-queue build of the code tree: the first tree taken out becomes the right child, and any tree of least count may be taken;
   - the code table read off the tree;
   - `byteSize`;
   - the preorder tree format written by `writeTree` and read back by `DecisionNode.remakeTree`;
   - `reverseByteMap`;
   - the two payload passes of `encode` and `decode`.

   The `HuffmanCodes` object is a class whose methods update its fields
   `byteMap`, `forest`, `rootNode`, `codeMap` and `decodeMap`. The queue is a
   sequence of trees, and bit streams are `seq<bool>`. The tree is a datatype
   of `ValueNode` leaves and `DecisionNode` inner nodes.

2. **The option and operand registry of `ArgsParser.java`.** It covers:
   - `optional`, `require` and `requireOneOf`, with their duplicate checks;
   - the "exactly one of these" rule `RequiredMode.followsRule`;
   - `Bindings.bindOperand`, `getOperand` and `getOperands`;
   - the usage line built by `usageStatement`.

   `Option` and `Operand` are opaque types compared with `==`.
   `convertArgument` and an operand's default value are functions given to
   the `Bindings` object.

The HashMap and PriorityQueue visiting orders are left open. Loops over a map
pick any remaining key, and the queue removes any tree of least count. Every
contract holds whatever those choices are.

The main results:
- as written, the bits `encode` writes, before any padding `BitOutputStream` adds, decode back to the input whenever the input holds two or more distinct bytes, and decodes to nothing when it holds one repeated byte. This is `EncodeThenDecode`;
- with the corrected code table (see Findings), every non-empty input comes back. This is `CorrectedRoundTrip`;
- the code set of any tree is prefix-free;
- `byteSize` is the payload length;
- the tree format round-trips.

Files:
- `wrappers.dfy`: `Option`, `Result` and `Outcome`.
- `huffman_tree.dfy`: nodes, `compareTo` and the code table.
- `frequencies.dfy`: the frequency table and its sums.
- `bit_format.dfy`: bit fields, `writeTree` and `remakeTree`.
- `payload_codec.dfy`: the payload, `reverseByteMap` and the decoder loop.
- `huffman_codes.dfy`: the `HuffmanCodes` class.
- `args_parser.dfy`: the ArgsParser registry.

## Model

| member | source | states |
|---|---|---|
| HuffmanTree.CompareTo | HuffmanCodes.java:283-298 | the result is -1, 0 or 1, and its sign is exactly the order of the two counts; nodes of equal count compare equal |
| HuffmanTree.PutCodes | HuffmanCodes.java:326-329 | the table afterwards holds the old keys plus every byte of the subtree; entries for bytes outside the subtree are unchanged |
| HuffmanTree.GetAllCodes | HuffmanCodes.java:274-278 | the keys are exactly the leaf bytes; a lone ValueNode root gets the empty code |
| HuffmanTree.StripKeepsValues | HuffmanCodes.java:404-406 | the decoder's count-free copy of a tree has the same leaf values and root kind |
| HuffmanTree.PutCodesPrefix | HuffmanCodes.java:326-329 | every code put below a node starts with the bits that node was given |
| HuffmanTree.PutCodesPath | HuffmanCodes.java:413-415 | a byte's code is the starting bits followed by a path from the node that ends on a leaf holding that byte, whenever some leaf holds it |
| HuffmanTree.CodesAreLeafPaths | HuffmanCodes.java:274-278 | following any byte's code from the root ends on a leaf holding that byte, so code length is leaf depth |
| HuffmanTree.WalkPrefix | HuffmanCodes.java:326-329 | a path that ends on a leaf cannot be continued to another leaf |
| HuffmanTree.CodesPrefixFree | HuffmanCodes.java:274-278 | no code of any tree is a prefix of another byte's code |
| HuffmanTree.InternalRootCodesNonEmpty | HuffmanCodes.java:326-329 | below a DecisionNode root every code has at least one bit |
| HuffmanTree.PutCodesIgnoresCounts | HuffmanCodes.java:326-329 | the codes do not depend on the counts, so the rebuilt tree gives the encoder's codes |
| HuffmanTree.CodeTable | HuffmanCodes.java:274-278 | covers exactly the leaf bytes and equals `getAllCodes` for a DecisionNode root; a lone ValueNode gets the code "0" (finding below) |
| HuffmanTree.CodeTableDecodable | HuffmanCodes.java:274-278 | the corrected table is prefix-free and has no empty code, for every root |
| HuffmanTree.CodeTableIgnoresCounts | HuffmanCodes.java:274-278 | the corrected table is the same for the rebuilt count-free tree |
| ByteCounts.FrequenciesCount | HuffmanCodes.java:14-23 | the table's keys are exactly the bytes of the data, each mapped to its number of occurrences |
| ByteCounts.FrequenciesTotal | HuffmanCodes.java:14-23 | the counts add up to the data length |
| ByteCounts.SumBelowUpdate | HuffmanCodes.java:21 | putting one entry changes the total by the difference of the old and new values |
| HuffmanCodec.TableEmpty | HuffmanCodes.java:14-23 | the table is empty exactly for empty data |
| HuffmanCodec.HuffmanCodes.constructor | HuffmanCodes.java:5-12 | Java's default constructor: every field starts out null, here `None` and empty |
| HuffmanCodec.HuffmanCodes.CountFrequencies | HuffmanCodes.java:14-23 | the loop leaves `byteMap` equal to the counting function of the whole data |
| HuffmanCodec.LeafForestStep | HuffmanCodes.java:28-32 | queueing the ValueNode of one more entry keeps the forest holding one leaf, with its count, per visited entry |
| HuffmanCodec.HuffmanCodes.BuildForest | HuffmanCodes.java:25-33 | fails exactly for an empty table, since a queue's initial capacity `byteMap.size()` must be at least one, leaving the queue unassigned; otherwise the queue holds one ValueNode per table entry, carrying that entry's count; its values are the keys, each once, and its counts sum to the table total |
| HuffmanCodec.RemoveMin | HuffmanCodes.java:40-41 | `forest.remove()` takes out a node whose count is at most every remaining count; the rest keep the other trees, values and counts |
| HuffmanCodec.MergeRound | HuffmanCodes.java:40-52 | one iteration: the first removed node is of least count and becomes the right child; the second is of least count among the rest and becomes the left child; the DecisionNode count is their sum; the queue shrinks by one and keeps its values and total; together these are a least-count round (`MinStep`) |
| HuffmanCodec.HuffmanCodes.MergeAll | HuffmanCodes.java:38-53 | the loop ends with at most one tree, keeps the forest of the table, and its history is a run of least-count rounds from the leaf queue |
| HuffmanCodec.LeafQueueStarts | HuffmanCodes.java:25-38 | the queue `buildForest` leaves is a forest of the table, where a run of rounds starts |
| HuffmanCodec.RunStep | HuffmanCodes.java:38-53 | one more least-count round extends the run |
| HuffmanCodec.RunDone | HuffmanCodes.java:54 | a run that ends with one tree shows that tree is built by least-count rounds |
| HuffmanCodec.LastRound | HuffmanCodes.java:54 | the tree of the last `forest.remove()` is the root of the table and is built by least-count rounds |
| HuffmanCodec.LeastMergesExample | HuffmanCodes.java:38-54 | for the table {1: 2, 2: 3, 3: 4} the tree that merges bytes 1 and 2 first, byte 1 as the right child, is built by least-count rounds |
| HuffmanCodec.RoundOrder | HuffmanCodes.java:40-41 | both removed nodes have counts at most every count left, and the first's is at most the second's |
| HuffmanCodec.MergeKeepsForest | HuffmanCodes.java:50-52 | after a round the queue still holds every byte once; counts still sum to the total; every DecisionNode's count is its children's sum |
| HuffmanCodec.ForestEmpty | HuffmanCodes.java:38-54 | the queue is empty exactly when the table is, so after a successful `buildForest` the final `forest.remove()` always finds a tree |
| HuffmanCodec.RootShape | HuffmanCodes.java:38 | a tree holding each byte of the table once is a lone ValueNode exactly when the table has one byte |
| HuffmanCodec.LastTree | HuffmanCodes.java:54 | the last tree removed is a root that holds every byte once and has the total count; it is a lone ValueNode exactly for a one-byte table |
| HuffmanCodec.HuffmanCodes.BuildTree | HuffmanCodes.java:35-55 | fails exactly on an empty table, in `buildForest`, changing neither the queue nor the root; otherwise the root holds every byte once at a leaf with that byte's count, its count is the total, each DecisionNode's count is its children's sum, it is a lone ValueNode exactly for a one-byte table, and it is the end of a run of least-count rounds from one ValueNode per entry: in every round the node removed first is of least count and becomes the right child, and the second is of least count among the rest |
| HuffmanCodec.HuffmanCodes.ByteSize | HuffmanCodes.java:176-182 | the result is the sum over the table of count times code length |
| PayloadCodec.WeightsStep | HuffmanCodes.java:179 | counting one more occurrence of a byte adds its code length to that sum |
| PayloadCodec.PayloadLength | HuffmanCodes.java:85-106 | the payload has exactly as many bits as `byteSize` reports |
| HuffmanCodec.RootFacts | HuffmanCodes.java:72-73 | the root's count is the data length; it is a lone ValueNode exactly for single-byte data |
| HuffmanCodec.PayloadFacts | HuffmanCodes.java:77-80 | a code table covering the tree's bytes covers every byte of the data, and `byteSize` under it equals the payload length |
| HuffmanCodec.HuffmanCodes.WriteStream | HuffmanCodes.java:79-106 | writes the 32-bit payload length, the serialised tree, and the code of every input byte in order |
| HuffmanCodec.WritePayload | HuffmanCodes.java:85-106 | the loops append, in input order, the code of every byte, a 1 for each "1" and a 0 otherwise |
| BitFormat.BitsRoundTrip | HuffmanCodes.java:203 | a field written in a width the number fits reads back as that number |
| BitFormat.NatToBitsOfBitsToNat | HuffmanCodes.java:383 | every field is the one written for the number it denotes |
| BitFormat.ByteRoundTrip | HuffmanCodes.java:203 | the eight bits written for a byte read back as that byte |
| BitFormat.ByteBitsOfByteOf | HuffmanCodes.java:383 | any eight bits read as a byte are the bits written for it |
| BitFormat.ByteBits | HuffmanCodes.java:203 | a byte is written as eight bits |
| BitFormat.TreeBits | HuffmanCodes.java:191-204 | a serialised tree is never empty |
| BitFormat.IntBits | HuffmanCodes.java:79 | the header is 32 bits wide |
| BitFormat.TreeBitsShape | HuffmanCodes.java:191-204 | the tree takes one bit per node plus eight per ValueNode; the first bit tells the node kind |
| BitFormat.TagString | HuffmanCodes.java:193-199 | the returned string has one character, '0' or '1', per node |
| BitFormat.WriteTree | HuffmanCodes.java:184-245 | appends the preorder encoding (0, left, right for a DecisionNode; 1 and the 8-bit value for a ValueNode) and returns the tag string |
| BitFormat.ParseNode | HuffmanCodes.java:137-152 | a node read from the stream takes at least one bit and no more bits than the stream holds |
| BitFormat.ParseChildren | HuffmanCodes.java:374-396 | two children read take at least one bit and no more than the stream holds |
| BitFormat.ReadChild | HuffmanCodes.java:375-385 | reading one child fails exactly when the stream ends inside it, and otherwise gives the node and the bits it took |
| BitFormat.RemakeTree | HuffmanCodes.java:362-397 | fails exactly when the stream ends inside either child; otherwise gives both children and `bitNum`, the bits taken after the parent's tag |
| BitFormat.TreeRoundTrip | HuffmanCodes.java:362-397 | reading back what `writeTree` wrote, followed by anything, rebuilds the tree without counts and takes exactly the written bits |
| BitFormat.LeafRoundTrip | HuffmanCodes.java:148-151 | a ValueNode's nine bits read back as that byte |
| BitFormat.InternalRoundTrip | HuffmanCodes.java:137-146 | if both subtrees read back, so does the DecisionNode over them |
| BitFormat.ChildrenRoundTrip | HuffmanCodes.java:374-396 | the two children's bits after a 0 read back as both children and as the DecisionNode |
| BitFormat.RemakeTreeCount | HuffmanCodes.java:374-396 | past the leading 0 of a written DecisionNode, `remakeTree` rebuilds both subtrees and counts one bit less than was written |
| PayloadCodec.ReverseByteMap | HuffmanCodes.java:255-261 | every code of the table maps to a byte whose code it is, and the keys are exactly the codes; for an injective table each code maps back to its own byte |
| PayloadCodec.DecodeAppend | HuffmanCodes.java:159-171 | the decoder loop over two pieces in turn, carrying the accumulator over, is the loop over their concatenation |
| PayloadCodec.DecodeOneCode | HuffmanCodes.java:159-171 | if the accumulator first hits the table at the end of a piece, the loop emits that one byte and clears the accumulator |
| PayloadCodec.DecodeCode | HuffmanCodes.java:167-170 | under a prefix-free table of non-empty codes, the loop over one byte's code emits exactly that byte |
| PayloadCodec.DecodePayload | HuffmanCodes.java:159-171 | the loop over the payload of any data emits exactly the data and ends with an empty accumulator |
| PayloadCodec.PayloadOfEmptyCodes | HuffmanCodes.java:85-106 | with only empty codes the payload is empty |
| PayloadCodec.SingleByteRoundTripFails | HuffmanCodes.java:274-278 | with the code table as written, one repeated byte gives an empty payload, and decoding it gives nothing back |
| HuffmanCodec.MergeValues | HuffmanCodes.java:50-52 | a round keeps the multiset of leaf values in the queue |
| HuffmanCodec.MergeWeight | HuffmanCodes.java:50-52 | a round keeps the total count in the queue |
| HuffmanCodec.MergeShapes | HuffmanCodes.java:50-52 | a round keeps every tree's DecisionNode counts as sums and every leaf's count from the table |
| HuffmanCodec.HuffmanCodes.Encode | HuffmanCodes.java:72-106 | fails exactly for empty data; otherwise the root is built by least-count rounds from the counting table, the code table is `getAllCodes` of the root, and the output is the 32-bit payload length, the tree and the payload; for one repeated byte the header is 0 and nothing follows the tree |
| HuffmanCodec.HuffmanCodes.EncodeCorrected | HuffmanCodes.java:72-106 | the same, with the corrected code table of the finding below |
| HuffmanCodec.DecodeLoop | HuffmanCodes.java:156-171 | the accumulator loop run to the end of the stream emits what the decoder function gives for the rest of the stream |
| HuffmanCodec.HuffmanCodes.ReadTree | HuffmanCodes.java:130-152 | fails exactly when the stream ends inside the header or the tree; otherwise the root is the tree read and the result is the number of bits read |
| HuffmanCodec.HuffmanCodes.Decode | HuffmanCodes.java:130-171 | fails exactly when the stream ends inside the header or the tree; otherwise the root is the tree read, the decode table inverts its `getAllCodes` table, and the output is the loop over the remaining bits |
| HuffmanCodec.HuffmanCodes.DecodeCorrected | HuffmanCodes.java:130-171 | the same, with the corrected code table of the finding below |
| HuffmanCodec.StreamParses | HuffmanCodes.java:79-82 | after the 32-bit header, the stream reads back as the tree, followed by exactly the payload |
| HuffmanCodec.PayloadDecodes | HuffmanCodes.java:154-171 | with the rebuilt tree's table, the payload decodes to the data |
| HuffmanCodec.EncodeThenDecode | HuffmanCodes.java:61-174 | as written, decoding with a fresh object the bits that `encode` wrote gives back the data when it holds two or more distinct bytes, whatever order the queue and the maps use, and gives nothing back for one repeated byte |
| HuffmanCodec.CorrectedRoundTrip | HuffmanCodes.java:61-174 | with the corrected code table, decoding the bits written for any non-empty data gives back the data |
| ArgsRegistry.ConvertAllMeaning | ArgsParser.java:67-76 | converting all lexemes succeeds exactly when each converts, giving each value at its own position |
| ArgsRegistry.ConvertAllPrefix | ArgsParser.java:71-73 | if a prefix fails to convert, so does the whole list |
| ArgsRegistry.RequiredMode.constructor | ArgsParser.java:473-477 | `modes` is exactly the set of the given options |
| ArgsRegistry.RequiredMode.FollowsRule | ArgsParser.java:480-503 | true exactly when some member of `modes` occurs and all occurring members are the same option |
| ArgsRegistry.Bindings.constructor | ArgsParser.java:101-106 | no options and no operand bindings |
| ArgsRegistry.Bindings.BindOperand | ArgsParser.java:82-99 | on success the lexeme is appended to that operand's list; a failed conversion is an error and leaves the (possibly new, empty) list; no other operand changes |
| ArgsRegistry.Bindings.GetOperands | ArgsParser.java:67-76 | the converted lexemes in binding order, empty for an unbound operand; always succeeds when every stored lexeme converts |
| ArgsRegistry.Bindings.GetOperand | ArgsParser.java:53-65 | the single binding's value; an unbound operand's default; an error for zero or several bindings, even with a default, for a single binding that fails to convert, and for an unbound operand without one |
| ArgsRegistry.ArgsParser.constructor | ArgsParser.java:456-463 | nothing registered |
| ArgsRegistry.ArgsParser.Optional | ArgsParser.java:332-340 | rejects an already registered option, changing nothing; otherwise records it as "Optional" |
| ArgsRegistry.ArgsParser.FindInModes | ArgsParser.java:355-359 | true exactly when some required mode holds the option |
| ArgsRegistry.ArgsParser.Require | ArgsParser.java:350-365 | rejects an option already registered or in a required mode, changing nothing; otherwise appends one new singleton mode and records it as "Required" |
| ArgsRegistry.ArgsParser.RequireOneOf | ArgsParser.java:377-395 | if any given option is registered or in a mode, fails and changes nothing; otherwise each given option is "Exclusive", the rest of the table is kept, and one new mode holding exactly these options is appended |
| ArgsRegistry.ArgsParser.RequiredOperand | ArgsParser.java:401-405 | records the operand as "Required" |
| ArgsRegistry.ArgsParser.OptionalOperand | ArgsParser.java:412-416 | records the operand as "Optional" |
| ArgsRegistry.ArgsParser.OneOrMoreOperands | ArgsParser.java:428-432 | records the operand as "OneOrMore" |
| ArgsRegistry.ArgsParser.ZeroOrMoreOperands | ArgsParser.java:443-447 | records the operand as "ZeroOrMore" |
| ArgsRegistry.CountOptions | ArgsParser.java:511-521 | counts "Required" and "Exclusive" options as required, and "Optional" ones as optional |
| ArgsRegistry.OptionsTalliedStep | ArgsParser.java:512-520 | visiting one more option adds one to the counter of its kind |
| ArgsRegistry.CountOperands | ArgsParser.java:522-535 | counts required operands as 1 and OneOrMore as 2, and optional ones as 1 and ZeroOrMore as 2 |
| ArgsRegistry.TalliedStep | ArgsParser.java:523-534 | visiting one more operand adds its weight to each counter |
| ArgsRegistry.OperandStep | ArgsParser.java:523-534 | one more operand adds 1, 2 or 0 to a weighted count, according to its kind |
| ArgsRegistry.CountStep | ArgsParser.java:511-535 | one more visited element adds one to the visited members of a set exactly when it is a member |
| ArgsRegistry.ArgsParser.UsageStatement | ArgsParser.java:506-569 | the usage line built from those counts by both if-chains |
| ArgsRegistry.OptionPhraseCases | ArgsParser.java:537-551 | the option phrase is empty exactly when no option is registered, and bracketed exactly when none is required |
| ArgsRegistry.OperandPhraseCases | ArgsParser.java:553-567 | the operand phrase is empty exactly when no operand is registered, and bracketed exactly when none is required; one required operand reads "Operands..." whenever an optional option exists |
| ArgsRegistry.KindsCover | ArgsParser.java:511-535 | the counts are all zero exactly when nothing is registered |
| ArgsRegistry.UsageShape | ArgsParser.java:536 | the line starts with "Usage: ", the command name and a space, and ends there exactly when nothing is registered |

## Left out

- File and bit-stream I/O is not modelled. This covers `File`, `BitInputStream`, `BitOutputStream`, `allBytes`, `readInt` and `close`. `encode` takes the input bytes and returns the bits it writes. `decode` takes the bits it reads. `BitInputStream` and `BitOutputStream` are not part of this model. Their `writeInt` and `writeByte` are taken to write most-significant bit first.
- Padding is not modelled. The source's `decode` loop runs to `fileSize`, the file length in bytes times 8 (HuffmanCodes.java:133, 159). That can include padding after the last payload bit. The model runs the loop to the end of the given bit sequence and claims nothing about padding.
- The header value is not used. `decode` reads the header and ignores it. The model only checks that 32 bits are there.
- Console output and debugging are left out: every print, `printCodes`, the debug strings, the test-string comparison at HuffmanCodes.java:110-113, and `main`.
- Swallowed exceptions become results. Where the source catches an `IOException`, prints "Error" and carries on, the model stops with `Err(Truncated)`.
- A truncated tree ends `decode` in the source too, though not with an `IOException`. Each block of `remakeTree` sets its child only after that child is read (HuffmanCodes.java:374-396). So when an `IOException` escapes `remakeTree` at HuffmanCodes.java:143, some DecisionNode of the tree still has a null child. `getAllCodes` at HuffmanCodes.java:154 then throws a `NullPointerException` in `putCodes` (HuffmanCodes.java:327-328), and the catch in `main` (HuffmanCodes.java:435) does not catch it. The model's `Err(Truncated)` stands for that. The source goes on decoding only when the tag bit or the byte of a lone ValueNode root cannot be read (HuffmanCodes.java:137, 151) and `rootNode` still holds a tree from an earlier call on the same object; the model does not follow that case.
- HuffmanCodec.HuffmanCodes.Decode: `decode` calls `allBytes` (HuffmanCodes.java:130) before `readInt` and `readBit` (HuffmanCodes.java:131, 137). The model reads the header and the tree from the start of the same bits, which assumes that `BitInputStream.allBytes` does not consume the stream.
- HuffmanCodec.HuffmanCodes.Encode: empty data is modelled as the error of `new PriorityQueue(0)` in `buildForest`, whose initial capacity must be at least one. It is not a precondition.
- HuffmanCodec.HuffmanCodes.Encode: `encode` reads the input with `allBytes` twice, once for counting and once for the payload (HuffmanCodes.java:72, 78). The model uses one `data` for both, which assumes that `BitInputStream` returns the same bytes both times.
- Visiting orders are left open. The concrete PriorityQueue tie-break and the HashMap and LinkedHashMap visiting orders are nondeterministic choices, and every contract holds for all of them.
- HuffmanTree.CompareTo: the source's checks for a null argument and for a non-Node argument are left out. The model has neither null nor other classes.
- Bytes are 0..255, not Java's signed `byte`. Only the eight bits matter for the format and the tables.
- HuffmanCodec.HuffmanCodes.ByteSize: Java's 32-bit wrap-around of `bitCount` is not modelled. The header written from it, `IntBits`, keeps only the low 32 bits, which are the bits the wrapped int would have. The counts of `countFrequencies` are likewise unbounded integers.
- The tree format's dead code is left out. Its only live part, the preorder grammar, is modelled. That excludes the empty `tally() == 32` test and the commented-out blocks in `writeTree` and `remakeTree`.
- ArgsParser's other members are left out: `parse`, `summary`, `versionNameAndFlags`, `helpFlags`, `create`, `Bindings.hasOption` and `Bindings.addOption`. `parse` ends the program with `System.exit` and depends on `Option.getFlags`. The others are thin wrappers over the `Option` class, which is not part of this model.
- Option and operand identity is plain equality. The source's `equals`/`hashCode` lookups and the reference test `mode != actual` in `followsRule` both become `==` on opaque values.
- ArgsRegistry.Bindings.BindOperand: list sharing is not modelled. In the source the local `bindings` list is the very object held in the map; the model writes the grown list back into the map. Exception messages are not modelled: `InvalidFormat` carries the lexeme instead of the converter's message. `getOperand`'s message text is left out too.
- ArgsRegistry.ArgsParser.Optional: the source throws `IllegalArgumentException` with no message. The model gives `IllegalArgument("")`.
- ArgsRegistry.OperandPhrase: the second test reads the number of optional *options* (ArgsParser.java:556). It is modelled as written.

## Findings

| source | as written | input that shows it | evidently intended | confidence | as-written member | corrected member |
|---|---|---|---|---|---|---|
| HuffmanCodes.java:274-278 | `getAllCodes` gives a lone ValueNode root the empty code. Data made of one repeated byte then gets a zero-length payload, and `decode` emits nothing, since the accumulator is never empty after a bit is added. | the three bytes 65, 65, 65 | the lone byte gets a one-bit code, so each occurrence is written as one bit and read back | not executed | HuffmanCodec.EncodeThenDecode | HuffmanCodec.CorrectedRoundTrip |

`Encode`, `Decode` and `EncodeThenDecode` model the code as written; the
last shows that one repeated byte decodes to nothing, and that any input with
two or more distinct bytes comes back. `CodeTable` is the corrected table,
and `CodeTableDecodable` proves it prefix-free with no empty code.
`EncodeCorrected` and `DecodeCorrected` use it, and `CorrectedRoundTrip`
proves the full round trip with it for every non-empty input.
