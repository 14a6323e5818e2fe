/** The `HuffmanCodes` object: counting, the forest and tree construction,
    `byteSize`, and the `encode` and `decode` passes over in-memory bit
    sequences. */
module HuffmanCodec {
  import opened Wrappers
  import opened HuffmanTree
  import opened BitFormat
  import opened ByteCounts
  import opened PayloadCodec

  /** All leaf values of a forest, with multiplicity. */
  function ForestValues(f: seq<Node>): multiset<Byte>
  {
    if f == [] then multiset{} else ValueBag(f[0]) + ForestValues(f[1..])
  }

  /** The sum of the counts of the trees of a forest. */
  function ForestWeight(f: seq<Node>): nat
  {
    if f == [] then 0 else f[0].count + ForestWeight(f[1..])
  }

  lemma {:induction false} ForestAppend(f: seq<Node>, g: seq<Node>)
    ensures ForestValues(f + g) == ForestValues(f) + ForestValues(g)
    ensures ForestWeight(f + g) == ForestWeight(f) + ForestWeight(g)
  {
    if f == [] {
      assert f + g == g;
    } else {
      assert (f + g)[1..] == f[1..] + g;
      ForestAppend(f[1..], g);
    }
  }

  /** A non-empty forest has a tree of least count. */
  lemma {:induction false} MinExists(f: seq<Node>)
    requires f != []
    ensures exists i :: 0 <= i < |f| && forall j :: 0 <= j < |f| ==> f[i].count <= f[j].count
  {
    if |f| > 1 {
      var g := f[..|f| - 1];
      MinExists(g);
      var i :| 0 <= i < |g| && forall j :: 0 <= j < |g| ==> g[i].count <= g[j].count;
      if f[|f| - 1].count < f[i].count {
        assert forall j :: 0 <= j < |f| ==> f[|f| - 1].count <= f[j].count;
      } else {
        assert forall j :: 0 <= j < |f| ==> f[i].count <= f[j].count;
      }
    } else {
      assert forall j :: 0 <= j < |f| ==> f[0].count <= f[j].count;
    }
  }

  /** Taking the tree at `i` out of a forest splits its values and weight. */
  lemma RemoveAtSplits(f: seq<Node>, i: nat)
    requires i < |f|
    ensures multiset(f) == multiset(f[..i] + f[i + 1..]) + multiset{f[i]}
    ensures ForestValues(f) == ForestValues(f[..i] + f[i + 1..]) + ValueBag(f[i])
    ensures ForestWeight(f) == ForestWeight(f[..i] + f[i + 1..]) + f[i].count
  {
    SplitAt(f, i);
    ForestSplit(f[..i], f[i], f[i + 1..]);
  }

  lemma SplitAt(f: seq<Node>, i: nat)
    requires i < |f|
    ensures f == f[..i] + [f[i]] + f[i + 1..]
  {
  }

  lemma ForestSplit(a: seq<Node>, t: Node, b: seq<Node>)
    ensures multiset(a + [t] + b) == multiset(a + b) + multiset{t}
    ensures ForestValues(a + [t] + b) == ForestValues(a + b) + ValueBag(t)
    ensures ForestWeight(a + [t] + b) == ForestWeight(a + b) + t.count
  {
    ForestAppend(a + [t], b);
    AppendOne(a, t);
    ForestAppend(a, b);
  }

  /** Queueing one more tree adds its values and its count. */
  lemma AppendOne(f: seq<Node>, t: Node)
    ensures ForestValues(f + [t]) == ForestValues(f) + ValueBag(t)
    ensures ForestWeight(f + [t]) == ForestWeight(f) + t.count
  {
    ForestAppend(f, [t]);
    assert ForestValues([t]) == ValueBag(t);
    assert ForestWeight([t]) == t.count;
  }

  /** Adding one key to the visited set adds its entry to the partial sum. */
  lemma RestrictStep(m: map<Byte, nat>, visited: set<Byte>, k: Byte)
    requires k in m && k !in visited
    ensures SumBelow(Restrict(m, visited + {k}), 256) == SumBelow(Restrict(m, visited), 256) + m[k]
    ensures multiset(visited + {k}) == multiset(visited) + multiset{k}
  {
    assert Restrict(m, visited + {k}) == Restrict(m, visited)[k := m[k]];
    SumBelowUpdate(Restrict(m, visited), k, m[k], 256);
  }

  /** The set of keys as a multiset: each key exactly once. */
  function KeyBag(m: map<Byte, nat>): multiset<Byte>
  {
    multiset(m.Keys)
  }

  /** The entries of `m` whose key is in `s`. */
  function Restrict<V>(m: map<Byte, V>, s: set<Byte>): map<Byte, V>
  {
    map b | b in m && b in s :: m[b]
  }

  /** A tree of the forest is one byte (Leaf) or a merge (Internal), exactly
      as `buildTree` produces; with one distinct byte the root is that leaf. */
  lemma RootShape(t: Node, m: map<Byte, nat>)
    requires ValueBag(t) == KeyBag(m)
    ensures t.Leaf? <==> forall a, b :: a in m && b in m ==> a == b
  {
    match t
    case Leaf(v, _) =>
      forall a | a in m ensures a == v {
        assert KeyBag(m)[a] == 1;
      }
    case Internal(l, r, _) =>
      var a := ValueBagElement(l);
      var b := ValueBagElement(r);
      assert ValueBag(t)[a] == ValueBag(l)[a] + ValueBag(r)[a];
      assert ValueBag(t)[b] >= 1;
      assert a in m && b in m && a != b;
  }

  /** Every tree holds at least one leaf value. */
  lemma {:induction false} ValueBagElement(t: Node) returns (b: Byte)
    ensures b in ValueBag(t)
  {
    match t
    case Leaf(v, _) => b := v;
    case Internal(l, _, _) => b := ValueBagElement(l);
  }

  /** `forest.remove()` on a queue holding `queue`: takes out a tree of least
      count under the order of `compareTo`, and leaves the others; which of
      several such trees is taken is left open. */
  method RemoveMin(queue: seq<Node>) returns (n: Node, rest: seq<Node>)
    requires queue != []
    ensures |rest| == |queue| - 1
    ensures multiset(queue) == multiset(rest) + multiset{n}
    ensures forall t :: t in rest ==> CompareTo(n, t) <= 0
    ensures ForestValues(queue) == ForestValues(rest) + ValueBag(n)
    ensures ForestWeight(queue) == ForestWeight(rest) + n.count
  {
    MinExists(queue);
    var i :| 0 <= i < |queue| && forall j :: 0 <= j < |queue| ==> queue[i].count <= queue[j].count;
    n := queue[i];
    RemoveAtSplits(queue, i);
    rest := queue[..i] + queue[i + 1..];
    forall t | t in rest ensures CompareTo(n, t) <= 0 {
      assert t in queue;
    }
  }

  /** The loop invariant of `buildForest`: with `entries` still to visit,
      the forest holds one ValueNode for each visited entry. */
  ghost predicate LeafForest(f: seq<Node>, m: map<Byte, nat>, entries: set<Byte>)
  {
    && entries <= m.Keys
    && ForestValues(f) == multiset(m.Keys - entries)
    && ForestWeight(f) == SumBelow(Restrict(m, m.Keys - entries), 256)
    && |f| == |m.Keys - entries|
    && forall t :: t in f ==> t.Leaf? && LeavesFrom(t, m)
  }

  lemma LeafForestStart(m: map<Byte, nat>)
    ensures LeafForest([], m, m.Keys)
  {
    var none := m.Keys - m.Keys;
    assert none == {};
    assert Restrict(m, none) == map[];
    SumBelowEmpty(256);
  }

  /** Queueing the ValueNode of one more entry keeps the invariant. */
  lemma LeafForestStep(f: seq<Node>, m: map<Byte, nat>, entries: set<Byte>, k: Byte)
    requires LeafForest(f, m, entries) && k in entries
    ensures LeafForest(f + [Leaf(k, m[k])], m, entries - {k})
  {
    var visited := m.Keys - entries;
    assert m.Keys - (entries - {k}) == visited + {k};
    AppendOne(f, Leaf(k, m[k]));
    RestrictStep(m, visited, k);
    forall t | t in f + [Leaf(k, m[k])] ensures t.Leaf? && LeavesFrom(t, m) {
      if t != Leaf(k, m[k]) {
        assert t in f;
      }
    }
  }

  /** With every entry visited the forest holds the whole table. */
  lemma LeafForestDone(f: seq<Node>, m: map<Byte, nat>)
    requires LeafForest(f, m, {})
    ensures ForestValues(f) == KeyBag(m)
    ensures ForestWeight(f) == SumBelow(m, 256)
    ensures |f| == |m|
  {
    var visited := m.Keys - {};
    assert visited == m.Keys;
    assert Restrict(m, visited) == m;
  }

  /** The forest `buildTree` keeps: its trees hold every byte of the table
      once, their counts add up to the total, every DecisionNode's count is
      the sum of its children's and every leaf carries its byte's count. */
  ghost predicate ForestOf(f: seq<Node>, m: map<Byte, nat>)
  {
    && ForestValues(f) == KeyBag(m)
    && ForestWeight(f) == SumBelow(m, 256)
    && ForestShaped(f, m)
  }

  /** Every tree of the forest is Weighted and has its leaves from `m`. */
  ghost predicate ForestShaped(f: seq<Node>, m: map<Byte, nat>)
  {
    f == [] || (Weighted(f[0]) && LeavesFrom(f[0], m) && ForestShaped(f[1..], m))
  }

  lemma {:induction false} ForestShapedMembers(f: seq<Node>, m: map<Byte, nat>)
    ensures ForestShaped(f, m) <==> forall t :: t in f ==> Weighted(t) && LeavesFrom(t, m)
  {
    if f != [] {
      ForestShapedMembers(f[1..], m);
      if forall t :: t in f ==> Weighted(t) && LeavesFrom(t, m) {
        assert f[0] in f;
        forall t | t in f[1..] ensures Weighted(t) && LeavesFrom(t, m) {
          assert t in f;
        }
      }
      if ForestShaped(f, m) {
        forall t | t in f ensures Weighted(t) && LeavesFrom(t, m) {
          if t != f[0] {
            assert t in f[1..];
          }
        }
      }
    }
  }

  /** One round of `buildTree` keeps the forest invariant: two trees taken
      out and replaced by the DecisionNode over them keep the values, the
      total weight and the shape of every tree. */
  lemma MergeValues(f0: seq<Node>, right: Node, f1: seq<Node>, left: Node, f2: seq<Node>)
    requires ForestValues(f0) == ForestValues(f1) + ValueBag(right)
    requires ForestValues(f1) == ForestValues(f2) + ValueBag(left)
    ensures ForestValues(f2 + [Internal(left, right, left.count + right.count)]) == ForestValues(f0)
  {
    AppendMergedValues(f2, left, right);
  }

  lemma MergeWeight(f0: seq<Node>, right: Node, f1: seq<Node>, left: Node, f2: seq<Node>)
    requires ForestWeight(f0) == ForestWeight(f1) + right.count
    requires ForestWeight(f1) == ForestWeight(f2) + left.count
    ensures ForestWeight(f2 + [Internal(left, right, left.count + right.count)]) == ForestWeight(f0)
  {
    AppendMergedWeight(f2, left, right);
  }

  /** A round of `MergeRound` keeps the forest of the table `m`. */
  lemma MergeKeepsForest(f0: seq<Node>, right: Node, left: Node, f: seq<Node>, m: map<Byte, nat>)
    requires ForestOf(f0, m) && f != []
    requires f[|f| - 1] == Internal(left, right, left.count + right.count)
    requires multiset(f0) == multiset(f[..|f| - 1]) + multiset{right, left}
    requires ForestValues(f) == ForestValues(f0) && ForestWeight(f) == ForestWeight(f0)
    ensures ForestOf(f, m)
  {
    SplitLast(f);
    MergeShapes(f0, right, left, f[..|f| - 1], m);
  }

  lemma AppendMergedValues(f: seq<Node>, left: Node, right: Node)
    ensures ForestValues(f + [Internal(left, right, left.count + right.count)]) == ForestValues(f) + ValueBag(left) + ValueBag(right)
  {
    AppendOne(f, Internal(left, right, left.count + right.count));
  }

  lemma AppendMergedWeight(f: seq<Node>, left: Node, right: Node)
    ensures ForestWeight(f + [Internal(left, right, left.count + right.count)]) == ForestWeight(f) + left.count + right.count
  {
    AppendOne(f, Internal(left, right, left.count + right.count));
  }

  lemma MergeShapes(f0: seq<Node>, right: Node, left: Node, f2: seq<Node>, m: map<Byte, nat>)
    requires ForestShaped(f0, m)
    requires multiset(f0) == multiset(f2) + multiset{right, left}
    ensures ForestShaped(f2 + [Internal(left, right, left.count + right.count)], m)
  {
    var node := Internal(left, right, left.count + right.count);
    ForestShapedMembers(f0, m);
    ForestShapedMembers(f2 + [node], m);
    assert right in multiset(f0) && left in multiset(f0);
    assert right in f0 && left in f0;
    forall t | t in f2 + [node] ensures Weighted(t) && LeavesFrom(t, m) {
      if t != node {
        assert t in multiset(f2);
        assert t in multiset(f0);
        assert t in f0;
      }
    }
  }

  /** One round of `buildTree`'s loop on a queue holding `queue`: removes a
      tree of least count, which becomes the right child, then a tree of
      least count among the rest, which becomes the left child, and queues
      the DecisionNode over them with the sum of their counts. The queue
      shrinks by one and keeps its leaf values and its total count. */
  method MergeRound(queue: seq<Node>) returns (right: Node, left: Node, next: seq<Node>)
    requires |queue| > 1
    ensures |next| == |queue| - 1
    ensures next[|next| - 1] == Internal(left, right, left.count + right.count)
    ensures multiset(queue) == multiset(next[..|next| - 1]) + multiset{right, left}
    ensures CompareTo(right, left) <= 0
    ensures forall t :: t in next[..|next| - 1] ==> CompareTo(right, t) <= 0 && CompareTo(left, t) <= 0
    ensures ForestValues(next) == ForestValues(queue) && ForestWeight(next) == ForestWeight(queue)
    ensures MinStep(queue, next)
  {
    var rest;
    right, rest := RemoveMin(queue);
    ghost var f1 := rest;
    left, rest := RemoveMin(rest);
    var nodeToAdd := Internal(left, right, left.count + right.count);
    MergeValues(queue, right, f1, left, rest);
    MergeWeight(queue, right, f1, left, rest);
    RoundBag(queue, right, f1, left, rest);
    RoundOrder(right, f1, left, rest);
    next := rest + [nodeToAdd];
    assert next[..|rest|] == rest && next[|rest|] == nodeToAdd;
  }

  /** The two removals of a round take out `right` and `left`. */
  lemma RoundBag(queue: seq<Node>, right: Node, f1: seq<Node>, left: Node, rest: seq<Node>)
    requires multiset(queue) == multiset(f1) + multiset{right}
    requires multiset(f1) == multiset(rest) + multiset{left}
    ensures multiset(queue) == multiset(rest) + multiset{right, left}
  {
    assert multiset{right, left} == multiset{right} + multiset{left};
  }

  /** The first tree removed is of least count among all the others, the
      second among those left after it. */
  lemma RoundOrder(right: Node, f1: seq<Node>, left: Node, rest: seq<Node>)
    requires forall t :: t in f1 ==> CompareTo(right, t) <= 0
    requires multiset(f1) == multiset(rest) + multiset{left}
    requires forall t :: t in rest ==> CompareTo(left, t) <= 0
    ensures CompareTo(right, left) <= 0
    ensures forall t :: t in rest ==> CompareTo(right, t) <= 0 && CompareTo(left, t) <= 0
  {
    forall t | t in rest ensures CompareTo(right, t) <= 0 {
      assert t in multiset(f1);
      assert t in f1;
    }
    assert left in multiset(f1);
  }

  /** The forest is empty exactly when the table is. */
  lemma ForestEmpty(f: seq<Node>, m: map<Byte, nat>)
    requires ForestOf(f, m)
    ensures f == [] <==> m == map[]
  {
    if m != map[] {
      var k :| k in m;
      assert KeyBag(m)[k] == 1;
    }
    if f != [] {
      var b := ValueBagElement(f[0]);
      assert b in ForestValues(f);
      assert b in KeyBag(m);
    }
  }

  /** What `buildTree` promises of its root for the table `m`: it holds
      every byte of the table once, at a leaf carrying its count, every
      DecisionNode's count is the sum of its children's, the root's count is
      the total count, and the root is a lone ValueNode exactly when the table
      has one byte. */
  ghost predicate TreeOf(root: Node, m: map<Byte, nat>)
  {
    && ValueBag(root) == KeyBag(m)
    && Weighted(root) && LeavesFrom(root, m)
    && root.count == SumBelow(m, 256)
    && (root.Leaf? <==> forall a, b :: a in m && b in m ==> a == b)
  }

  /** The one tree left in the forest is the root `buildTree` returns. */
  lemma LastTree(f: seq<Node>, m: map<Byte, nat>, root: Node, rest: seq<Node>)
    requires ForestOf(f, m) && |f| <= 1
    requires |rest| == |f| - 1 && multiset(f) == multiset(rest) + multiset{root}
    requires ForestValues(f) == ForestValues(rest) + ValueBag(root)
    requires ForestWeight(f) == ForestWeight(rest) + root.count
    ensures rest == [] && TreeOf(root, m)
  {
    ForestShapedMembers(f, m);
    assert root in multiset(f);
    assert ForestValues(rest) == multiset{} && ForestWeight(rest) == 0;
    RootShape(root, m);
  }

  /** One round of `buildTree`'s loop takes the queue `f` to `g`: `g` ends
      with a DecisionNode whose count is the sum of its children's; its right
      child is of least count in `f`, its left child is of least count among
      the rest, and every other tree of `f` stays queued. */
  ghost predicate MinStep(f: seq<Node>, g: seq<Node>)
  {
    && |f| > 1 && |g| == |f| - 1
    && var node := g[|g| - 1];
    && node.Internal? && node.count == node.left.count + node.right.count
    && multiset(f) == multiset(g[..|g| - 1]) + multiset{node.right, node.left}
    && CompareTo(node.right, node.left) <= 0
    && forall t :: t in g[..|g| - 1] ==> CompareTo(node.right, t) <= 0 && CompareTo(node.left, t) <= 0
  }

  /** A run of `buildTree`'s loop: each queue follows from the one before it
      by a least-count round. */
  ghost predicate MinTrace(trace: seq<seq<Node>>)
  {
    && trace != []
    && forall i :: 0 <= i < |trace| - 1 ==> MinStep(trace[i], trace[i + 1])
  }

  /** The queue `buildForest` leaves for the table `m`: one ValueNode per
      entry, carrying that entry's count. */
  ghost predicate LeafQueue(f: seq<Node>, m: map<Byte, nat>)
  {
    && ForestValues(f) == KeyBag(m) && |f| == |m|
    && forall t :: t in f ==> t.Leaf? && LeavesFrom(t, m)
  }

  /** `root` is what `buildTree` makes of the table `m`: a run of least-count
      rounds from the leaf queue of `m` down to the queue holding only `root`. */
  ghost predicate HuffmanRun(trace: seq<seq<Node>>, m: map<Byte, nat>, root: Node)
  {
    && MinTrace(trace) && LeafQueue(trace[0], m) && trace[|trace| - 1] == [root]
  }

  /** Some run of least-count rounds from the leaf queue of `m` ends with
      `root` alone: `root` is a tree `buildTree` may return for `m`. */
  ghost predicate BuiltByRounds(m: map<Byte, nat>, root: Node)
  {
    exists trace :: HuffmanRun(trace, m, root)
  }

  /** The loop invariant of `buildTree` about its history: the rounds so
      far run from the leaf queue of `m` to the queue `f`. */
  ghost predicate RunSoFar(trace: seq<seq<Node>>, m: map<Byte, nat>, f: seq<Node>)
  {
    MinTrace(trace) && LeafQueue(trace[0], m) && trace[|trace| - 1] == f
  }

  /** The queue `buildForest` leaves is a forest of the table, and the
      start of a run. */
  lemma LeafQueueStarts(f: seq<Node>, m: map<Byte, nat>)
    requires ForestValues(f) == KeyBag(m) && ForestWeight(f) == SumBelow(m, 256) && |f| == |m|
    requires forall t :: t in f ==> t.Leaf? && LeavesFrom(t, m)
    ensures ForestOf(f, m) && LeafQueue(f, m)
  {
    ForestShapedMembers(f, m);
  }

  /** One more least-count round extends the run. */
  lemma RunStep(trace: seq<seq<Node>>, m: map<Byte, nat>, f: seq<Node>, g: seq<Node>)
    requires RunSoFar(trace, m, f) && MinStep(f, g)
    ensures RunSoFar(trace + [g], m, g)
  {
    var t := trace + [g];
    assert t[0] == trace[0] && t[|t| - 1] == g;
    forall i | 0 <= i < |t| - 1 ensures MinStep(t[i], t[i + 1]) {
      if i < |trace| - 1 {
        assert t[i] == trace[i] && t[i + 1] == trace[i + 1];
      }
    }
  }

  /** The last `forest.remove()` after the loop gives the root: it is the
      tree of the table and was built by least-count rounds. */
  lemma LastRound(trace: seq<seq<Node>>, f: seq<Node>, m: map<Byte, nat>, root: Node, rest: seq<Node>)
    requires ForestOf(f, m) && |f| <= 1 && RunSoFar(trace, m, f)
    requires |rest| == |f| - 1 && multiset(f) == multiset(rest) + multiset{root}
    requires ForestValues(f) == ForestValues(rest) + ValueBag(root)
    requires ForestWeight(f) == ForestWeight(rest) + root.count
    ensures rest == [] && TreeOf(root, m) && BuiltByRounds(m, root)
  {
    LastTree(f, m, root, rest);
    RunDone(trace, m, f, root);
  }

  /** A run ending with one tree shows that tree is built by rounds. */
  lemma RunDone(trace: seq<seq<Node>>, m: map<Byte, nat>, f: seq<Node>, root: Node)
    requires RunSoFar(trace, m, f) && |f| == 1 && multiset(f) == multiset{root}
    ensures BuiltByRounds(m, root)
  {
    SingleTree(f, root);
    assert HuffmanRun(trace, m, root);
  }

  /** A queue of one tree is that tree. */
  lemma SingleTree(f: seq<Node>, root: Node)
    requires |f| == 1 && multiset(f) == multiset{root}
    ensures f == [root]
  {
    assert f[0] in multiset(f);
  }

  /** For the table {1: 2, 2: 3, 3: 4}, `buildTree` merges the two least
      counts first: byte 1 becomes the right child of a node of count 5,
      which becomes the left child of the root. */
  lemma LeastMergesExample()
    ensures BuiltByRounds(map[1 := 2, 2 := 3, 3 := 4], Internal(Internal(Leaf(2, 3), Leaf(1, 2), 5), Leaf(3, 4), 9))
  {
    var n5 := Internal(Leaf(2, 3), Leaf(1, 2), 5);
    var root := Internal(n5, Leaf(3, 4), 9);
    var f0 := [Leaf(1, 2), Leaf(2, 3), Leaf(3, 4)];
    var f1 := [Leaf(3, 4), n5];
    FirstRoundExample(f0, f1);
    LastRoundExample(f1, root);
    ExampleLeafQueue(f0);
    TwoRounds(f0, f1, root, map[1 := 2, 2 := 3, 3 := 4]);
  }

  lemma TwoRounds(f0: seq<Node>, f1: seq<Node>, root: Node, m: map<Byte, nat>)
    requires MinStep(f0, f1) && MinStep(f1, [root]) && LeafQueue(f0, m)
    ensures BuiltByRounds(m, root)
  {
    var trace := [f0, f1, [root]];
    assert trace[0] == f0 && trace[1] == f1 && trace[2] == [root];
    assert HuffmanRun(trace, m, root);
  }

  lemma FirstRoundExample(f0: seq<Node>, f1: seq<Node>)
    requires f0 == [Leaf(1, 2), Leaf(2, 3), Leaf(3, 4)]
    requires f1 == [Leaf(3, 4), Internal(Leaf(2, 3), Leaf(1, 2), 5)]
    ensures MinStep(f0, f1)
  {
    assert f1[..1] == [Leaf(3, 4)];
    assert multiset(f0) == multiset{Leaf(3, 4)} + multiset{Leaf(1, 2), Leaf(2, 3)};
  }

  lemma LastRoundExample(f1: seq<Node>, root: Node)
    requires f1 == [Leaf(3, 4), Internal(Leaf(2, 3), Leaf(1, 2), 5)]
    requires root == Internal(Internal(Leaf(2, 3), Leaf(1, 2), 5), Leaf(3, 4), 9)
    ensures MinStep(f1, [root])
  {
    assert [root][..0] == [];
    assert multiset(f1) == multiset{root.right, root.left};
  }

  lemma ExampleLeafQueue(f0: seq<Node>)
    requires f0 == [Leaf(1, 2), Leaf(2, 3), Leaf(3, 4)]
    ensures LeafQueue(f0, map[1 := 2, 2 := 3, 3 := 4])
  {
    ExampleKeys(map[1 := 2, 2 := 3, 3 := 4]);
    ExampleValues(f0);
    forall t | t in f0 ensures t.Leaf? && LeavesFrom(t, map[1 := 2, 2 := 3, 3 := 4]) {
    }
  }

  lemma ExampleKeys(m: map<Byte, nat>)
    requires m == map[1 := 2, 2 := 3, 3 := 4]
    ensures KeyBag(m) == multiset{1, 2, 3} && |m| == 3
  {
    assert m.Keys == {1, 2, 3};
    assert multiset({1, 2, 3}) == multiset{1, 2, 3};
  }

  lemma ExampleValues(f0: seq<Node>)
    requires f0 == [Leaf(1, 2), Leaf(2, 3), Leaf(3, 4)]
    ensures ForestValues(f0) == multiset{1, 2, 3}
  {
    var g, h := f0[1..], f0[2..];
    assert g[1..] == h && h[1..] == [];
    assert ForestValues(h) == multiset{3};
    assert ForestValues(g) == multiset{2} + multiset{3};
    assert ForestValues(f0) == multiset{1} + multiset{2} + multiset{3};
  }

  /** The payload loops of `encode`: for each input byte that has a code,
      one bit per character of the code, a 1 for "1" and a 0 otherwise. */
  method WritePayload(outStream: Bits, codeMap: map<Byte, Bits>, data: seq<Byte>) returns (out: Bits)
    ensures out == outStream + Payload(codeMap, data)
  {
    out := outStream;
    var i := 0;
    while i < |data|
      invariant 0 <= i <= |data|
      invariant out == outStream + Payload(codeMap, data[..i])
    {
      assert data[..i + 1][..i] == data[..i];
      if data[i] in codeMap {
        var code := codeMap[data[i]];
        var j := 0;
        while j < |code|
          invariant 0 <= j <= |code|
          invariant out == outStream + Payload(codeMap, data[..i]) + code[..j]
        {
          assert code[..j + 1] == code[..j] + [code[j]];
          if code[j] {
            out := out + [true];
          } else {
            out := out + [false];
          }
          j := j + 1;
        }
        assert code[..j] == code;
      }
      i := i + 1;
    }
    assert data[..i] == data;
  }

  /** The payload loop of `decode`: from bit `bitsRead` to the end of the
      stream, appends each bit to the accumulator and, when the accumulator
      is a key of the decode table, writes its byte and clears it. */
  method DecodeLoop(decodeMap: map<Bits, Byte>, stream: Bits, start: nat) returns (output: seq<Byte>)
    requires start <= |stream|
    ensures output == DecodeFrom(decodeMap, [], stream[start..]).0
  {
    var bitsRead := start;
    var currByte: Bits := [];
    output := [];
    while bitsRead < |stream|
      invariant start <= bitsRead <= |stream|
      invariant output + DecodeFrom(decodeMap, currByte, stream[bitsRead..]).0 == DecodeFrom(decodeMap, [], stream[start..]).0
      decreases |stream| - bitsRead
    {
      ghost var rest := stream[bitsRead..];
      assert rest[0] == stream[bitsRead] && rest[1..] == stream[bitsRead + 1..];
      var bit := stream[bitsRead];
      bitsRead := bitsRead + 1;
      if !bit {
        currByte := currByte + [false];
      } else {
        currByte := currByte + [true];
      }
      if currByte in decodeMap {
        output := output + [decodeMap[currByte]];
        currByte := [];
      }
    }
    assert stream[bitsRead..] == [];
  }

  /** The `IllegalArgumentException` of `new PriorityQueue(0)`: a queue's
      initial capacity must be at least one. */
  datatype QueueError = ZeroCapacity

  class HuffmanCodes {
    var rootNode: Option<Node>
    /** The priority queue, as the sequence of trees it holds. */
    var forest: seq<Node>
    var byteMap: map<Byte, nat>
    var codeMap: map<Byte, Bits>
    var decodeMap: map<Bits, Byte>

    constructor()
      ensures rootNode == None && forest == []
      ensures byteMap == map[] && codeMap == map[] && decodeMap == map[]
    {
      rootNode := None;
      forest := [];
      byteMap := map[];
      codeMap := map[];
      decodeMap := map[];
    }

    /** `countFrequencies`: one pass over the data, putting each byte's
        previous count (0 when absent) plus one. */
    method CountFrequencies(data: seq<Byte>)
      modifies this`byteMap
      ensures byteMap == Frequencies(data)
    {
      byteMap := map[];
      var i := 0;
      while i < |data|
        invariant 0 <= i <= |data|
        invariant byteMap == Frequencies(data[..i])
      {
        assert data[..i + 1][..i] == data[..i];
        var count := Get(byteMap, data[i]);
        byteMap := byteMap[data[i] := count + 1];
        i := i + 1;
      }
      assert data[..i] == data;
    }

    /** `buildForest`: a new queue whose initial capacity is the size of the
        table, which throws for an empty table before `forest` is assigned;
        then one ValueNode per entry of the table, carrying the entry's
        count, added in an order the model leaves open. */
    method BuildForest() returns (r: Outcome<QueueError>)
      modifies this`forest
      ensures r.Fail? <==> byteMap == map[]
      ensures r.Fail? ==> forest == old(forest)
      ensures r.Pass? ==>
                && ForestValues(forest) == KeyBag(byteMap)
                && ForestWeight(forest) == SumBelow(byteMap, 256)
                && |forest| == |byteMap|
                && forall t :: t in forest ==> t.Leaf? && LeavesFrom(t, byteMap)
    {
      if |byteMap| < 1 {
        return Fail(ZeroCapacity);
      }
      forest := [];
      var entries := byteMap.Keys;
      LeafForestStart(byteMap);
      while entries != {}
        invariant LeafForest(forest, byteMap, entries)
        decreases entries
      {
        var k :| k in entries;
        var addNode := Leaf(k, byteMap[k]);
        LeafForestStep(forest, byteMap, entries, k);
        forest := forest + [addNode];
        entries := entries - {k};
      }
      LeafForestDone(forest, byteMap);
      return Pass;
    }

    /** `buildTree`: while more than one tree is queued, removes two of least
        count, the first becoming the right and the second the left child of
        a DecisionNode whose count is their sum, and queues it; the last tree
        is the root. The root holds every byte of the table once, at a leaf
        carrying its count, every DecisionNode's count is the sum of its
        children's, the root's count is the total count, and the root is a
        lone ValueNode exactly when the table has one byte. An empty table
        fails in `buildForest`, changing nothing. */
    method BuildTree() returns (r: Outcome<QueueError>)
      modifies this`forest, this`rootNode
      ensures r.Fail? <==> byteMap == map[]
      ensures r.Fail? ==> forest == old(forest) && rootNode == old(rootNode)
      ensures r.Pass? ==> forest == [] && rootNode.Some? && TreeOf(rootNode.value, byteMap)
      ensures r.Pass? ==> BuiltByRounds(byteMap, rootNode.value)
    {
      var made := BuildForest();
      if made.Fail? {
        return made;
      }
      LeafQueueStarts(forest, byteMap);
      ghost var trace := MergeAll(byteMap);
      ForestEmpty(forest, byteMap);
      ghost var f0 := forest;
      var root;
      root, forest := RemoveMin(forest);
      rootNode := Some(root);
      LastRound(trace, f0, byteMap, rootNode.value, forest);
      return Pass;
    }

    /** The loop of `buildTree`: least-count rounds while more than one
        tree is queued. Gives the run of rounds it made. */
    method MergeAll(ghost m: map<Byte, nat>) returns (ghost trace: seq<seq<Node>>)
      requires ForestOf(forest, m) && m != map[] && LeafQueue(forest, m)
      modifies this`forest
      ensures ForestOf(forest, m) && |forest| <= 1
      ensures RunSoFar(trace, m, forest)
    {
      trace := [forest];
      assert RunSoFar(trace, m, forest);
      while |forest| > 1
        invariant ForestOf(forest, m)
        invariant RunSoFar(trace, m, forest)
        decreases |forest|
      {
        ghost var f0 := forest;
        var right, left;
        right, left, forest := MergeRound(forest);
        MergeKeepsForest(f0, right, left, forest, m);
        RunStep(trace, m, f0, forest);
        trace := trace + [forest];
      }
    }

    /** `byteSize`: the sum over the table of each byte's count times the
        length of its code, which is the number of payload bits. */
    method ByteSize() returns (bitCount: nat)
      requires byteMap.Keys <= codeMap.Keys
      ensures bitCount == SumBelow(Weights(byteMap, codeMap), 256)
    {
      ghost var w := Weights(byteMap, codeMap);
      bitCount := 0;
      var entries := byteMap.Keys;
      ghost var visited: set<Byte> := {};
      SumBelowEmpty(256);
      assert Restrict(w, visited) == map[];
      while entries != {}
        invariant entries + visited == byteMap.Keys && entries !! visited
        invariant bitCount == SumBelow(Restrict(w, visited), 256)
        decreases entries
      {
        var k :| k in entries;
        RestrictStep(w, visited, k);
        bitCount := bitCount + byteMap[k] * |codeMap[k]|;
        entries := entries - {k};
        visited := visited + {k};
      }
      assert Restrict(w, visited) == w;
    }

    /** The writing part of `encode`, once the code table is made: the
        32-bit `byteSize`, the serialised tree, then the code of every input
        byte in order. */
    method WriteStream(data: seq<Byte>) returns (out: Bits)
      requires rootNode.Some? && byteMap == Frequencies(data)
      requires ValueBag(rootNode.value) == KeyBag(byteMap)
      requires forall b :: b in codeMap <==> b in ValueBag(rootNode.value)
      ensures out == IntBits(|Payload(codeMap, data)|) + TreeBits(rootNode.value) + Payload(codeMap, data)
    {
      PayloadFacts(data, rootNode.value, codeMap);
      var size := ByteSize();
      out := IntBits(size);
      var codeTreeString;
      out, codeTreeString := WriteTree(out, rootNode.value);
      out := WritePayload(out, codeMap, data);
    }

    /** `encode` on the bytes `data`, giving the bits written: the 32-bit
        payload length, the serialised tree, then the code of every input
        byte in order, with the code table of `getAllCodes`. For data made
        of one repeated byte that table gives the byte the empty code, so
        the header is 0 and no payload follows the tree. Also states what
        the table, the tree and the code table hold afterwards. */
    method Encode(data: seq<Byte>) returns (r: Result<Bits, QueueError>)
      modifies this`byteMap, this`forest, this`rootNode, this`codeMap
      ensures byteMap == Frequencies(data)
      ensures r.Err? <==> data == []
      ensures r.Ok? ==>
                && rootNode.Some? && codeMap == GetAllCodes(rootNode.value)
                && ValueBag(rootNode.value) == KeyBag(byteMap)
                && Weighted(rootNode.value) && LeavesFrom(rootNode.value, byteMap)
                && rootNode.value.count == |data|
                && (rootNode.value.Leaf? <==> SingleByte(data))
                && BuiltByRounds(byteMap, rootNode.value)
                && r.value == IntBits(|Payload(codeMap, data)|) + TreeBits(rootNode.value) + Payload(codeMap, data)
      ensures r.Ok? && SingleByte(data) ==> Payload(codeMap, data) == [] && r.value == IntBits(0) + TreeBits(rootNode.value)
    {
      CountFrequencies(data);
      TableEmpty(data);
      var built := BuildTree();
      if built.Fail? {
        return Err(built.error);
      }
      var root := rootNode.value;
      RootFacts(data, rootNode.value);
      codeMap := GetAllCodes(root);
      if root.Leaf? {
        PayloadOfEmptyCodes(codeMap, data);
      }
      var out := WriteStream(data);
      return Ok(out);
    }

    /** `encode` with the corrected code table (see `CodeTable`): the same
        stream, except that a lone ValueNode root gets the code "0". */
    method EncodeCorrected(data: seq<Byte>) returns (r: Result<Bits, QueueError>)
      modifies this`byteMap, this`forest, this`rootNode, this`codeMap
      ensures byteMap == Frequencies(data)
      ensures r.Err? <==> data == []
      ensures r.Ok? ==>
                && rootNode.Some? && codeMap == CodeTable(rootNode.value)
                && ValueBag(rootNode.value) == KeyBag(byteMap)
                && Weighted(rootNode.value) && LeavesFrom(rootNode.value, byteMap)
                && rootNode.value.count == |data|
                && (rootNode.value.Leaf? <==> SingleByte(data))
                && BuiltByRounds(byteMap, rootNode.value)
                && r.value == IntBits(|Payload(codeMap, data)|) + TreeBits(rootNode.value) + Payload(codeMap, data)
    {
      CountFrequencies(data);
      TableEmpty(data);
      var built := BuildTree();
      if built.Fail? {
        return Err(built.error);
      }
      var root := rootNode.value;
      RootFacts(data, rootNode.value);
      codeMap := CodeTable(root);
      var out := WriteStream(data);
      return Ok(out);
    }

    /** The reading part of `decode` before the payload: skips the 32-bit
        header, whose value is not used, reads the tree into `rootNode` and
        yields the number of bits read. A stream that ends inside the header
        or the tree is an error. */
    method ReadTree(stream: Bits) returns (r: Result<nat, FormatError>)
      modifies this`rootNode
      ensures r.Err? <==> |stream| < 32 || ParseNode(stream[32..]).None?
      ensures r.Ok? ==>
                && 32 <= |stream| && ParseNode(stream[32..]).Some?
                && rootNode == Some(ParseNode(stream[32..]).value.0)
                && r.value == 32 + ParseNode(stream[32..]).value.1 <= |stream|
    {
      if |stream| < 32 {
        return Err(Truncated);
      }
      var bitsRead := 32;
      ghost var s := stream[32..];
      if |stream| == 32 {
        return Err(Truncated);
      }
      var root: Node;
      if !stream[32] {
        bitsRead := bitsRead + 1;
        assert s[1..] == stream[33..];
        var children := RemakeTree(stream[33..]);
        if children.Err? {
          return Err(children.error);
        }
        var (l, rt, n) := children.value;
        bitsRead := bitsRead + n;
        root := Internal(l, rt, 0);
      } else {
        bitsRead := bitsRead + 9;
        if |stream| < 41 {
          return Err(Truncated);
        }
        assert s[1..9] == stream[33..41];
        root := Leaf(ByteOf(stream[33..41]), 0);
      }
      assert ParseNode(s) == Some((root, bitsRead - 32));
      rootNode := Some(root);
      return Ok(bitsRead);
    }

    /** `decode` on the bits `stream`: reads the header and the tree, builds
        the decode table by reversing the tree's `getAllCodes` table, and
        then runs the accumulator loop to the end of the stream. */
    method Decode(stream: Bits) returns (r: Result<seq<Byte>, FormatError>)
      modifies this`rootNode, this`decodeMap
      ensures r.Err? <==> |stream| < 32 || ParseNode(stream[32..]).None?
      ensures r.Ok? ==>
                && 32 <= |stream| && ParseNode(stream[32..]).Some?
                && var (root, n) := ParseNode(stream[32..]).value;
                && rootNode == Some(root)
                && InvertsOnto(GetAllCodes(root), decodeMap)
                && decodeMap.Keys == GetAllCodes(root).Values
                && r.value == DecodeFrom(decodeMap, [], stream[32 + n..]).0
    {
      var read := ReadTree(stream);
      if read.Err? {
        return Err(read.error);
      }
      var dm := ReverseByteMap(GetAllCodes(rootNode.value));
      decodeMap := dm;
      var output := DecodeLoop(dm, stream, read.value);
      return Ok(output);
    }

    /** `decode` with the corrected code table (see `CodeTable`). */
    method DecodeCorrected(stream: Bits) returns (r: Result<seq<Byte>, FormatError>)
      modifies this`rootNode, this`decodeMap
      ensures r.Err? <==> |stream| < 32 || ParseNode(stream[32..]).None?
      ensures r.Ok? ==>
                && 32 <= |stream| && ParseNode(stream[32..]).Some?
                && var (root, n) := ParseNode(stream[32..]).value;
                && rootNode == Some(root)
                && InvertsOnto(CodeTable(root), decodeMap)
                && decodeMap.Keys == CodeTable(root).Values
                && r.value == DecodeFrom(decodeMap, [], stream[32 + n..]).0
    {
      var read := ReadTree(stream);
      if read.Err? {
        return Err(read.error);
      }
      var dm := ReverseByteMap(CodeTable(rootNode.value));
      decodeMap := dm;
      var output := DecodeLoop(dm, stream, read.value);
      return Ok(output);
    }
  }

  /** The table is empty exactly for empty data. */
  lemma TableEmpty(data: seq<Byte>)
    ensures Frequencies(data) == map[] <==> data == []
  {
    if data != [] {
      FrequenciesCount(data);
      assert data[0] in Frequencies(data);
    }
  }

  /** What `encode` needs to know about the tree `buildTree` returns for
      `data`: its count is the data length, and it is a lone ValueNode
      exactly for single-byte data. */
  lemma RootFacts(data: seq<Byte>, root: Node)
    requires root.count == SumBelow(Frequencies(data), 256)
    requires root.Leaf? <==> forall a, b :: a in Frequencies(data) && b in Frequencies(data) ==> a == b
    ensures root.count == |data|
    ensures root.Leaf? <==> SingleByte(data)
  {
    FrequenciesTotal(data);
    SingleByteKeys(data);
  }

  /** A code table with a code for every byte of the tree covers every byte
      of the data, and `byteSize` under it is the payload length. */
  lemma PayloadFacts(data: seq<Byte>, root: Node, cm: map<Byte, Bits>)
    requires ValueBag(root) == KeyBag(Frequencies(data))
    requires forall b :: b in cm <==> b in ValueBag(root)
    ensures Frequencies(data).Keys <= cm.Keys
    ensures SumBelow(Weights(Frequencies(data), cm), 256) == |Payload(cm, data)|
  {
    forall b | b in Frequencies(data) ensures b in cm {
      assert KeyBag(Frequencies(data))[b] == 1;
    }
    FrequenciesCount(data);
    forall i | 0 <= i < |data| ensures data[i] in cm {
      assert data[i] in data;
    }
    PayloadLength(cm, data);
  }

  /** All bytes of `data` are the same one. */
  predicate SingleByte(data: seq<Byte>)
  {
    forall i, j :: 0 <= i < |data| && 0 <= j < |data| ==> data[i] == data[j]
  }

  lemma SingleByteKeys(data: seq<Byte>)
    ensures SingleByte(data) ==> forall a, b :: a in Frequencies(data) && b in Frequencies(data) ==> a == b
    ensures (forall a, b :: a in Frequencies(data) && b in Frequencies(data) ==> a == b) ==> SingleByte(data)
  {
    FrequenciesCount(data);
    var f := Frequencies(data);
    if !SingleByte(data) {
      var i, j :| 0 <= i < |data| && 0 <= j < |data| && data[i] != data[j];
      assert data[i] in data && data[j] in data;
      assert data[i] in f && data[j] in f;
    } else {
      forall a, b | a in f && b in f ensures a == b {
        assert a in data && b in data;
        var i :| 0 <= i < |data| && data[i] == a;
        var j :| 0 <= j < |data| && data[j] == b;
      }
    }
  }

  /** Encoding non-empty data with one object and decoding the bits with a
      fresh one, as written: data with two or more distinct bytes comes
      back, whatever ties the queue and the hash maps resolve in whichever
      way; data made of one repeated byte comes back empty. */
  method EncodeThenDecode(data: seq<Byte>) returns (r: Result<seq<Byte>, FormatError>)
    requires data != []
    ensures !SingleByte(data) ==> r == Ok(data)
    ensures SingleByte(data) ==> r == Ok([])
  {
    var encoder := new HuffmanCodes();
    var bits := encoder.Encode(data);
    var decoder := new HuffmanCodes();
    r := decoder.Decode(bits.value);
    var root := encoder.rootNode.value;
    StreamParses(root, Payload(encoder.codeMap, data));
    StripKeepsValues(root);
    if root.Internal? {
      CodeTableIgnoresCounts(root);
      PayloadDecodes(root, data, decoder.decodeMap);
    }
  }

  /** With the corrected code table every non-empty data comes back. */
  method CorrectedRoundTrip(data: seq<Byte>) returns (r: Result<seq<Byte>, FormatError>)
    requires data != []
    ensures r == Ok(data)
  {
    var encoder := new HuffmanCodes();
    var bits := encoder.EncodeCorrected(data);
    var decoder := new HuffmanCodes();
    r := decoder.DecodeCorrected(bits.value);
    var root := encoder.rootNode.value;
    StreamParses(root, Payload(encoder.codeMap, data));
    CodeTableIgnoresCounts(root);
    PayloadDecodes(root, data, decoder.decodeMap);
  }

  /** The stream `encode` writes reads back, after the 32-bit header, as the
      tree without counts, followed by exactly the payload. */
  lemma StreamParses(root: Node, payload: Bits)
    ensures var bits := IntBits(|payload|) + TreeBits(root) + payload;
            && ParseNode(bits[32..]) == Some((Strip(root), |TreeBits(root)|))
            && bits[32 + |TreeBits(root)|..] == payload
  {
    DropFront(IntBits(|payload|), TreeBits(root), payload);
    TreeRoundTrip(root, payload);
  }

  lemma DropFront(h: Bits, t: Bits, p: Bits)
    ensures (h + t + p)[|h|..] == t + p
    ensures (h + t + p)[|h| + |t|..] == p
  {
  }

  /** The payload of `data` under the (corrected) code table of a tree
      holding each byte of the data once decodes to `data`, for any inverse
      of the table. */
  lemma PayloadDecodes(root: Node, data: seq<Byte>, dm: map<Bits, Byte>)
    requires ValueBag(root) == KeyBag(Frequencies(data))
    requires InvertsOnto(CodeTable(root), dm)
    ensures DecodeFrom(dm, [], Payload(CodeTable(root), data)) == (data, [])
  {
    var cm := CodeTable(root);
    CodeTableDecodable(root);
    FrequenciesCount(data);
    forall i | 0 <= i < |data| ensures data[i] in cm {
      assert data[i] in data;
      assert KeyBag(Frequencies(data))[data[i]] == 1;
    }
    DecodePayload(cm, dm, data);
  }
}
