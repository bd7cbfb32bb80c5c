/**
 * The compression pipeline of CompressScene: byte histogram, Huffman tree construction on the
 * min-heap, code assignment, the header layout and the bit-accumulator writer.
 */
module Compressor {
  import opened Binary
  import opened Outcomes
  import opened HuffmanTree
  import opened MinHeap

  /** Sum of a sequence of counts. */
  function Sum(s: seq<nat>): nat
  {
    if s == [] then 0 else Sum(s[..|s| - 1]) + s[|s| - 1]
  }

  lemma {:induction false} SumIncrement(s: seq<nat>, u: nat)
    requires u < |s|
    ensures Sum(s[u := s[u] + 1]) == Sum(s) + 1
    decreases |s|
  {
    var t := s[u := s[u] + 1];
    assert t[..|s| - 1] == if u < |s| - 1 then s[..|s| - 1][u := s[u] + 1] else s[..|s| - 1];
    if u < |s| - 1 {
      SumIncrement(s[..|s| - 1], u);
    }
  }

  /** `getFreq()`: `freq[v]` counts the input bytes whose unsigned value is `v`. */
  method GetFreq(data: seq<Byte>) returns (freq: array<nat>)
    ensures fresh(freq) && freq.Length == 256
    ensures forall v :: 0 <= v < 256 ==> freq[v] == multiset(data)[ToByte(v)]
    ensures Sum(freq[..]) == |data|
  {
    freq := new nat[256](_ => 0);
    assert freq[..] == seq(256, _ => 0);
    ZeroSum(256);
    for i := 0 to |data|
      invariant forall v :: 0 <= v < 256 ==> freq[v] == multiset(data[..i])[ToByte(v)]
      invariant Sum(freq[..]) == i
    {
      var b := data[i];
      assert data[..i + 1] == data[..i] + [b];
      forall v | 0 <= v < 256 {
        ToByteIndex(v, b);
      }
      SumIncrement(freq[..], Unsigned(b));
      freq[Unsigned(b)] := freq[Unsigned(b)] + 1;
    }
    assert data[..|data|] == data;
  }

  lemma {:induction false} ZeroSum(n: nat)
    ensures Sum(seq(n, _ => 0)) == 0
  {
    if n > 0 {
      assert seq(n, _ => 0)[..n - 1] == seq(n - 1, _ => 0);
      ZeroSum(n - 1);
    }
  }

  /** The leaves `initializeHeap` creates from `freq[0..n)`: one symbol `(byte) v` per non-zero count. */
  function Picked(freq: seq<nat>, n: nat): multiset<Byte>
    requires n <= |freq|
  {
    if n == 0 then multiset{}
    else Picked(freq, n - 1) + (if freq[n - 1] != 0 then multiset{ToByte(n - 1)} else multiset{})
  }

  /** Each symbol is picked at most once, exactly when its count is non-zero. */
  lemma {:induction false} PickedCount(freq: seq<nat>, n: nat, s: Byte)
    requires n <= |freq| <= 256
    ensures Picked(freq, n)[s] == if Unsigned(s) < n && freq[Unsigned(s)] != 0 then 1 else 0
  {
    if n > 0 {
      PickedCount(freq, n - 1, s);
      ToByteIndex(n - 1, s);
    }
  }

  lemma {:induction false} PickedSize(freq: seq<nat>, n: nat)
    requires n <= |freq|
    ensures |Picked(freq, n)| <= n
  {
    if n > 0 {
      PickedSize(freq, n - 1);
    }
  }

  /** Every leaf carries the count of its own symbol, and that count is non-zero. */
  predicate LeavesMatch(t: Node, freq: seq<nat>)
    requires |freq| == 256
  {
    match t
    case Leaf(s, f) => f == freq[Unsigned(s)] && f != 0
    case Internal(l, r, _) => LeavesMatch(l, freq) && LeavesMatch(r, freq)
  }

  /** The symbols at the leaves of all trees in a multiset of trees. */
  ghost function MSyms(m: multiset<Node>): multiset<Byte>
    decreases |m|
  {
    if m == multiset{} then multiset{} else var x :| x in m; Syms(x) + MSyms(m - multiset{x})
  }

  /** The total frequency of a multiset of trees. */
  ghost function MTotal(m: multiset<Node>): nat
    decreases |m|
  {
    if m == multiset{} then 0 else var x :| x in m; x.freq + MTotal(m - multiset{x})
  }

  /** The folds may take out any element first. */
  lemma {:induction false} MSymsRemove(m: multiset<Node>, y: Node)
    requires y in m
    ensures MSyms(m) == Syms(y) + MSyms(m - multiset{y})
    decreases |m|
  {
    var x :| x in m && MSyms(m) == Syms(x) + MSyms(m - multiset{x});
    if x != y {
      var r := m - multiset{x} - multiset{y};
      assert m - multiset{y} - multiset{x} == r;
      MSymsRemove(m - multiset{x}, y);
      MSymsRemove(m - multiset{y}, x);
    }
  }

  lemma {:induction false} MTotalRemove(m: multiset<Node>, y: Node)
    requires y in m
    ensures MTotal(m) == y.freq + MTotal(m - multiset{y})
    decreases |m|
  {
    var x :| x in m && MTotal(m) == x.freq + MTotal(m - multiset{x});
    if x != y {
      var r := m - multiset{x} - multiset{y};
      assert m - multiset{y} - multiset{x} == r;
      MTotalRemove(m - multiset{x}, y);
      MTotalRemove(m - multiset{y}, x);
    }
  }

  lemma MFoldRemove(m: multiset<Node>, y: Node)
    requires y in m
    ensures MSyms(m) == Syms(y) + MSyms(m - multiset{y})
    ensures MTotal(m) == y.freq + MTotal(m - multiset{y})
  {
    MSymsRemove(m, y);
    MTotalRemove(m, y);
  }

  lemma MFoldAdd(m: multiset<Node>, y: Node)
    ensures MSyms(m + multiset{y}) == MSyms(m) + Syms(y)
    ensures MTotal(m + multiset{y}) == MTotal(m) + y.freq
  {
    MFoldRemove(m + multiset{y}, y);
    assert m + multiset{y} - multiset{y} == m;
  }

  lemma MFoldSingle(y: Node)
    ensures MSyms(multiset{y}) == Syms(y) && MTotal(multiset{y}) == y.freq
  {
    MFoldAdd(multiset{}, y);
    assert multiset{} + multiset{y} == multiset{y};
  }

  /**
   * A code tree for a histogram: the frequencies add up, every leaf holds its symbol's count, and
   * the leaves are exactly the symbols with a non-zero count.
   */
  ghost predicate CodeTreeFor(t: Node, freq: seq<nat>)
    requires |freq| == 256
  {
    WellFormed(t) && LeavesMatch(t, freq) && Syms(t) == Picked(freq, 256) && t.freq == Sum(freq)
  }

  /** A tree built for a histogram has no repeated symbol and at most 256 leaves. */
  lemma HuffmanTreeShape(t: Node, freq: seq<nat>)
    requires |freq| == 256 && CodeTreeFor(t, freq)
    ensures UniqueSyms(t) && LeafCount(t) <= 256
    ensures forall s :: s in Syms(t) <==> freq[Unsigned(s)] != 0
  {
    forall s ensures Syms(t)[s] <= 1 && (s in Syms(t) <==> freq[Unsigned(s)] != 0) {
      PickedCount(freq, 256, s);
    }
    PickedSize(freq, 256);
  }

  /** The heap holds well-formed trees whose leaves are the symbols of `freq[0..n)` with their counts. */
  ghost predicate Forest(m: multiset<Node>, freq: seq<nat>, n: nat)
    requires |freq| == 256 && n <= 256
  {
    Trees(m, freq) && MSyms(m) == Picked(freq, n) && MTotal(m) == Sum(freq[..n])
  }

  /** Every tree of the multiset is well-formed and carries the counts of `freq`. */
  ghost predicate Trees(m: multiset<Node>, freq: seq<nat>)
    requires |freq| == 256
  {
    forall x :: x in m ==> WellFormed(x) && LeavesMatch(x, freq)
  }

  lemma TreesAdd(m: multiset<Node>, freq: seq<nat>, y: Node)
    requires |freq| == 256 && Trees(m, freq) && WellFormed(y) && LeavesMatch(y, freq)
    ensures Trees(m + multiset{y}, freq)
  {
  }

  lemma SumStep(freq: seq<nat>, i: nat)
    requires i < |freq|
    ensures Sum(freq[..i + 1]) == Sum(freq[..i]) + freq[i]
  {
    assert freq[..i + 1][..i] == freq[..i];
  }

  /** The leaves the first loop of `initializeHeap()` inserts for `freq[0..n)`. */
  function LeavesUpTo(freq: seq<nat>, n: nat): multiset<Node>
    requires n <= |freq|
  {
    if n == 0 then multiset{}
    else LeavesUpTo(freq, n - 1) + (if freq[n - 1] != 0 then multiset{Leaf(ToByte(n - 1), freq[n - 1])} else multiset{})
  }

  /** One more byte value: its leaf, if any, extends a forest for `freq[0..i)` to one for `freq[0..i]`. */
  lemma ForestStep(m: multiset<Node>, freq: seq<nat>, i: nat)
    requires |freq| == 256 && i < 256 && Forest(m, freq, i)
    ensures Forest(m + (if freq[i] != 0 then multiset{Leaf(ToByte(i), freq[i])} else multiset{}), freq, i + 1)
  {
    SumStep(freq, i);
    if freq[i] != 0 {
      var leaf := Leaf(ToByte(i), freq[i]);
      ToByteIndex(i, leaf.sym);
      AddOneSyms(m, leaf);
      AddOneTotal(m, leaf);
      TreesAdd(m, freq, leaf);
      assert MSyms(m + multiset{leaf}) == Picked(freq, i + 1);
    } else {
      assert m + multiset{} == m;
      assert Picked(freq, i + 1) == Picked(freq, i);
    }
  }

  /** The inserted leaves form a forest for `freq[0..n)`, one tree per picked symbol. */
  lemma {:induction false} ForestOfLeaves(freq: seq<nat>, n: nat)
    requires |freq| == 256 && n <= 256
    ensures Forest(LeavesUpTo(freq, n), freq, n)
    ensures |LeavesUpTo(freq, n)| == |Picked(freq, n)|
  {
    if n == 0 {
      assert freq[..0] == [];
    } else {
      ForestOfLeaves(freq, n - 1);
      ForestStep(LeavesUpTo(freq, n - 1), freq, n - 1);
    }
  }

  lemma RemoveTwoSyms(m: multiset<Node>, a: Node, b: Node)
    requires a in m && b in m - multiset{a}
    ensures MSyms(m) == Syms(a) + Syms(b) + MSyms(m - multiset{a} - multiset{b})
  {
    MSymsRemove(m, a);
    MSymsRemove(m - multiset{a}, b);
  }

  lemma AddOneSyms(r: multiset<Node>, p: Node)
    ensures MSyms(r + multiset{p}) == Syms(p) + MSyms(r)
  {
    MSymsRemove(r + multiset{p}, p);
    assert r + multiset{p} - multiset{p} == r;
  }

  lemma MergeSyms(m: multiset<Node>, a: Node, b: Node)
    requires a in m && b in m - multiset{a}
    ensures MSyms(m - multiset{a} - multiset{b} + multiset{Internal(a, b, a.freq + b.freq)}) == MSyms(m)
  {
    RemoveTwoSyms(m, a, b);
    AddOneSyms(m - multiset{a} - multiset{b}, Internal(a, b, a.freq + b.freq));
  }

  lemma RemoveTwoTotal(m: multiset<Node>, a: Node, b: Node)
    requires a in m && b in m - multiset{a}
    ensures MTotal(m) == a.freq + b.freq + MTotal(m - multiset{a} - multiset{b})
  {
    MTotalRemove(m, a);
    MTotalRemove(m - multiset{a}, b);
  }

  lemma AddOneTotal(r: multiset<Node>, p: Node)
    ensures MTotal(r + multiset{p}) == p.freq + MTotal(r)
  {
    MTotalRemove(r + multiset{p}, p);
    assert r + multiset{p} - multiset{p} == r;
  }

  lemma MergeTotal(m: multiset<Node>, a: Node, b: Node)
    requires a in m && b in m - multiset{a}
    ensures MTotal(m - multiset{a} - multiset{b} + multiset{Internal(a, b, a.freq + b.freq)}) == MTotal(m)
  {
    RemoveTwoTotal(m, a, b);
    AddOneTotal(m - multiset{a} - multiset{b}, Internal(a, b, a.freq + b.freq));
  }

  /** Replacing two trees by their parent keeps the forest's symbols and total frequency. */
  lemma ForestMerge(m: multiset<Node>, freq: seq<nat>, a: Node, b: Node)
    requires |freq| == 256 && Forest(m, freq, 256)
    requires a in m && b in m - multiset{a}
    ensures Forest(m - multiset{a} - multiset{b} + multiset{Internal(a, b, a.freq + b.freq)}, freq, 256)
  {
    var p := Internal(a, b, a.freq + b.freq);
    var m' := m - multiset{a} - multiset{b} + multiset{p};
    MergeSyms(m, a, b);
    MergeTotal(m, a, b);
    forall x | x in m' ensures WellFormed(x) && LeavesMatch(x, freq) {
      if x != p {
        assert x in m;
      }
    }
  }

  /**
   * One pass of the merge loop: `a` is a lightest tree of `m`, `b` a lightest of the trees left,
   * and the two are replaced by their parent, `a` on the left, with the summed frequency.
   */
  ghost predicate GreedyMerge(m: multiset<Node>, a: Node, b: Node, m': multiset<Node>)
  {
    a in m && (forall x :: x in m ==> a.freq <= x.freq) &&
    b in m - multiset{a} && (forall x :: x in m - multiset{a} ==> b.freq <= x.freq) &&
    m' == m - multiset{a} - multiset{b} + multiset{Internal(a, b, a.freq + b.freq)}
  }

  /** Each forest follows from the one before it by the greedy merge of the matching pair. */
  ghost predicate GreedyRun(forests: seq<multiset<Node>>, merges: seq<(Node, Node)>)
    requires |forests| == |merges| + 1
    decreases |merges|
  {
    merges == [] ||
    (GreedyRun(forests[..|forests| - 1], merges[..|merges| - 1]) &&
     GreedyMerge(forests[|forests| - 2], merges[|merges| - 1].0, merges[|merges| - 1].1, forests[|forests| - 1]))
  }

  /** A greedy run extended by one more greedy merge. */
  lemma GreedyRunSnoc(forests: seq<multiset<Node>>, merges: seq<(Node, Node)>, a: Node, b: Node, m': multiset<Node>)
    requires |forests| == |merges| + 1 && GreedyRun(forests, merges)
    requires GreedyMerge(forests[|forests| - 1], a, b, m')
    ensures GreedyRun(forests + [m'], merges + [(a, b)])
  {
    assert (forests + [m'])[..|forests|] == forests;
    assert (merges + [(a, b)])[..|merges|] == merges;
  }

  /** `t` is the one tree a greedy run leaves when it starts from the leaves of `freq`. */
  ghost predicate GreedyBuilt(t: Node, freq: seq<nat>)
    requires |freq| == 256
  {
    exists forests: seq<multiset<Node>>, merges: seq<(Node, Node)> ::
      |forests| == |merges| + 1 && GreedyRun(forests, merges) &&
      forests[0] == LeavesUpTo(freq, 256) && forests[|forests| - 1] == multiset{t}
  }

  /**
   * A Huffman tree for a histogram: a code tree for it that the greedy two-minimum merges build
   * from its leaves.
   */
  ghost predicate HuffmanTreeFor(t: Node, freq: seq<nat>)
    requires |freq| == 256
  {
    CodeTreeFor(t, freq) && GreedyBuilt(t, freq)
  }

  /** In every internal node the left child is no heavier than the right one. */
  predicate LeftLighter(t: Node)
  {
    t.Internal? ==> t.left.freq <= t.right.freq && LeftLighter(t.left) && LeftLighter(t.right)
  }

  /** A greedy run keeps every tree left-lighter: the first node removed is never the heavier. */
  lemma {:induction false} GreedyRunLeftLighter(forests: seq<multiset<Node>>, merges: seq<(Node, Node)>)
    requires |forests| == |merges| + 1 && GreedyRun(forests, merges)
    requires forall x :: x in forests[0] ==> LeftLighter(x)
    ensures forall x :: x in forests[|forests| - 1] ==> LeftLighter(x)
    decreases |merges|
  {
    if merges != [] {
      var init := forests[..|forests| - 1];
      GreedyRunLeftLighter(init, merges[..|merges| - 1]);
      var m := forests[|forests| - 2];
      var a, b := merges[|merges| - 1].0, merges[|merges| - 1].1;
      assert m == init[|init| - 1];
      forall x | x in forests[|forests| - 1] ensures LeftLighter(x) {
        if x != Internal(a, b, a.freq + b.freq) {
          assert x in m;
        }
      }
    }
  }

  /** The leaves the first loop inserts are all leaves. */
  lemma {:induction false} LeavesAreLeaves(freq: seq<nat>, n: nat)
    requires n <= |freq|
    ensures forall x :: x in LeavesUpTo(freq, n) ==> x.Leaf?
  {
    if n > 0 {
      LeavesAreLeaves(freq, n - 1);
    }
  }

  /** In the tree the merges build, every left child is no heavier than its sibling. */
  lemma HuffmanLeftLighter(t: Node, freq: seq<nat>)
    requires |freq| == 256 && HuffmanTreeFor(t, freq)
    ensures LeftLighter(t)
  {
    var forests: seq<multiset<Node>>, merges: seq<(Node, Node)> :|
      |forests| == |merges| + 1 && GreedyRun(forests, merges) &&
      forests[0] == LeavesUpTo(freq, 256) && forests[|forests| - 1] == multiset{t};
    LeavesAreLeaves(freq, 256);
    GreedyRunLeftLighter(forests, merges);
  }

  /** The first loop of `initializeHeap()`: a leaf `((byte) i, freq[i])` for every non-zero count. */
  method InsertLeaves(heap: Heap, freq: seq<nat>)
    requires |freq| == 256
    requires heap.Valid() && heap.maxSize == 256 && heap.size == 0
    modifies heap, heap.heap
    ensures heap.Valid() && heap.Contents() == LeavesUpTo(freq, 256)
  {
    for i := 0 to 256
      invariant heap.Valid() && heap.maxSize == 256
      invariant heap.Contents() == LeavesUpTo(freq, i)
      invariant heap.size <= i
    {
      InsertLeaf(heap, freq, i);
    }
  }

  /** One pass of the first loop: the leaf of byte value `i`, when its count is not zero. */
  method InsertLeaf(heap: Heap, freq: seq<nat>, i: nat)
    requires i < |freq| == 256
    requires heap.Valid() && heap.maxSize == 256 && heap.size <= i
    requires heap.Contents() == LeavesUpTo(freq, i)
    modifies heap, heap.heap
    ensures heap.Valid() && heap.size <= i + 1
    ensures heap.Contents() == LeavesUpTo(freq, i + 1)
  {
    if freq[i] != 0 {
      heap.Insert(Leaf(ToByte(i), freq[i]));
    }
  }

  /**
   * The second loop of `initializeHeap()`: merge the two smallest nodes until one is left. The
   * ghost `forests` and `merges` record the run of greedy merges, so the last tree is a Huffman tree.
   */
  method MergeAll(heap: Heap, ghost freq: seq<nat>)
    requires |freq| == 256
    requires heap.Valid() && heap.maxSize == 256 && 1 <= heap.size
    requires heap.Contents() == LeavesUpTo(freq, 256) && Forest(heap.Contents(), freq, 256)
    modifies heap, heap.heap
    ensures heap.Valid() && heap.size == 1
    ensures forall x :: x in heap.Contents() ==> HuffmanTreeFor(x, freq)
  {
    ghost var forests: seq<multiset<Node>>, merges: seq<(Node, Node)> := [heap.Contents()], [];
    while heap.GetSize() != 1
      invariant heap.Valid() && heap.maxSize == 256 && 1 <= heap.size
      invariant Forest(heap.Contents(), freq, 256)
      invariant |forests| == |merges| + 1 && GreedyRun(forests, merges)
      invariant forests[0] == LeavesUpTo(freq, 256) && forests[|forests| - 1] == heap.Contents()
      decreases heap.size
    {
      forests, merges := MergeTwo(heap, freq, forests, merges);
    }
    GreedyOfOne(heap.Contents(), freq, forests, merges);
  }

  /**
   * One pass of the merge loop: remove the two smallest nodes and insert their parent, the first
   * removed on the left; the ghost run grows by that greedy merge.
   */
  method MergeTwo(heap: Heap, ghost freq: seq<nat>, ghost forests: seq<multiset<Node>>, ghost merges: seq<(Node, Node)>)
    returns (ghost forests': seq<multiset<Node>>, ghost merges': seq<(Node, Node)>)
    requires |freq| == 256
    requires heap.Valid() && heap.maxSize == 256 && 2 <= heap.size
    requires Forest(heap.Contents(), freq, 256)
    requires |forests| == |merges| + 1 && GreedyRun(forests, merges) && forests[|forests| - 1] == heap.Contents()
    modifies heap, heap.heap
    ensures heap.Valid() && heap.size == old(heap.size) - 1
    ensures Forest(heap.Contents(), freq, 256)
    ensures |forests'| == |merges'| + 1 && GreedyRun(forests', merges')
    ensures forests'[0] == forests[0] && forests'[|forests'| - 1] == heap.Contents()
  {
    ghost var m := heap.Contents();
    var node1 := heap.Remove();
    ghost var m1 := heap.Contents();
    var node2 := heap.Remove();
    ghost var m2 := heap.Contents();
    assert m1 == m - multiset{node1} && node2 in m1 && m2 == m1 - multiset{node2};
    ForestMerge(m, freq, node1, node2);
    heap.Insert(Internal(node1, node2, node1.freq + node2.freq));
    assert heap.Contents() == m2 + multiset{Internal(node1, node2, node1.freq + node2.freq)};
    assert GreedyMerge(m, node1, node2, heap.Contents());
    GreedyRunSnoc(forests, merges, node1, node2, heap.Contents());
    forests', merges' := forests + [heap.Contents()], merges + [(node1, node2)];
  }

  /**
   * `initializeHeap()`: insert a leaf for every byte value with a non-zero count, then, unless
   * exactly one leaf was inserted, repeatedly replace the two smallest nodes by a parent whose left
   * child is the first one removed, until one node remains.
   */
  method InitializeHeap(freq: seq<nat>) returns (heap: Heap, numberOfLeafs: Byte)
    requires |freq| == 256 && exists v :: 0 <= v < 256 && freq[v] != 0
    ensures fresh(heap) && fresh(heap.heap)
    ensures heap.Valid() && heap.size == 1
    ensures forall x :: x in heap.Contents() ==> HuffmanTreeFor(x, freq)
    ensures numberOfLeafs == ToByte(|Picked(freq, 256)|)
  {
    heap := new Heap(256);
    InsertLeaves(heap, freq);
    LeafForest(freq);
    numberOfLeafs := ToByte(heap.GetSize());
    CountIsOne(heap.size);
    if numberOfLeafs != 1 {
      MergeAll(heap, freq);
    } else {
      GreedyOfOne(heap.Contents(), freq, [heap.Contents()], []);
    }
  }

  /** The run that ends in the heap's single tree makes that tree greedily built. */
  lemma GreedyOfOne(m: multiset<Node>, freq: seq<nat>, forests: seq<multiset<Node>>, merges: seq<(Node, Node)>)
    requires |freq| == 256 && |m| == 1
    requires |forests| == |merges| + 1 && GreedyRun(forests, merges)
    requires forests[0] == LeavesUpTo(freq, 256) && forests[|forests| - 1] == m
    requires Forest(m, freq, 256)
    ensures forall x :: x in m ==> HuffmanTreeFor(x, freq)
  {
    ForestOfOne(m, freq);
    forall x | x in m ensures HuffmanTreeFor(x, freq) {
      OnlyElement(m, x);
    }
  }

  /** The leaves of the first loop form a forest for all 256 counts, of at least one leaf. */
  lemma LeafForest(freq: seq<nat>)
    requires |freq| == 256 && exists v :: 0 <= v < 256 && freq[v] != 0
    ensures Forest(LeavesUpTo(freq, 256), freq, 256)
    ensures 1 <= |LeavesUpTo(freq, 256)| == |Picked(freq, 256)|
  {
    ForestOfLeaves(freq, 256);
    var w := Witness(freq);
    PickedCount(freq, 256, ToByte(w));
    assert ToByte(w) in Picked(freq, 256);
  }

  /** A forest of one tree for all 256 counts is a Huffman tree for them. */
  lemma ForestOfOne(m: multiset<Node>, freq: seq<nat>)
    requires |freq| == 256 && |m| == 1 && Forest(m, freq, 256)
    ensures forall x :: x in m ==> CodeTreeFor(x, freq)
  {
    forall x | x in m ensures CodeTreeFor(x, freq) {
      OnlyElement(m, x);
      MFoldSingle(x);
      assert freq[..256] == freq;
    }
  }

  /** `(byte) n == 1` on a count of at most 256 leaves means one leaf (256 wraps to 0). */
  lemma CountIsOne(n: nat)
    requires n <= 256
    ensures ToByte(n) == 1 <==> n == 1
  {
    if n < 256 {
      ToByteIndex(n, 1);
    }
  }

  lemma OnlyElement(m: multiset<Node>, x: Node)
    requires |m| == 1 && x in m
    ensures m == multiset{x}
  {
    assert |m - multiset{x}| == 0;
    assert m == (m - multiset{x}) + multiset{x};
  }

  /** Some byte value with a non-zero count. */
  ghost function Witness(freq: seq<nat>): (v: nat)
    requires |freq| == 256 && exists v :: 0 <= v < 256 && freq[v] != 0
    ensures v < 256 && freq[v] != 0
  {
    var v :| 0 <= v < 256 && freq[v] != 0; v
  }

  /** The counts `getFreq` leaves in `freq[0..256)`. */
  function Histogram(data: seq<Byte>): (freq: seq<nat>)
    ensures |freq| == 256
  {
    seq(256, v requires 0 <= v < 256 => multiset(data)[ToByte(v)])
  }

  /** `n` copies of one byte count `n` for that byte and nothing for any other. */
  lemma {:induction false} RepeatCount(s: Byte, n: nat, x: Byte)
    ensures multiset(seq(n, _ => s))[x] == if x == s then n else 0
  {
    if n > 0 {
      assert seq(n, _ => s) == seq(n - 1, _ => s) + [s];
      RepeatCount(s, n - 1, x);
    }
  }

  /** A tree whose leaves all carry `s` has `s` at every leaf. */
  lemma {:induction false} AllOneSymbol(t: Node, s: Byte)
    requires forall x :: x in Syms(t) ==> x == s
    ensures Syms(t)[s] == LeafCount(t)
  {
    if t.Internal? {
      assert Syms(t) == Syms(t.left) + Syms(t.right);
      forall x | x in Syms(t.left) ensures x == s {
        assert x in Syms(t);
      }
      forall x | x in Syms(t.right) ensures x == s {
        assert x in Syms(t);
      }
      AllOneSymbol(t.left, s);
      AllOneSymbol(t.right, s);
    }
  }

  /**
   * The tree built for `n > 0` copies of one byte is the lone leaf for that byte with count `n`:
   * the case the constructor gives the code "1".
   */
  lemma LoneByteTree(s: Byte, n: nat, t: Node)
    requires n > 0 && CodeTreeFor(t, Histogram(seq(n, _ => s)))
    ensures t == Leaf(s, n)
  {
    var data := seq(n, _ => s);
    var freq := Histogram(data);
    HuffmanTreeShape(t, freq);
    forall x | x in Syms(t) ensures x == s {
      ToByteOfUnsigned(x);
      RepeatCount(s, n, x);
    }
    AllOneSymbol(t, s);
    assert LeafCount(t) <= 1;
    assert t.Leaf?;
    assert t.sym in Syms(t);
    ToByteOfUnsigned(s);
    RepeatCount(s, n, s);
  }

  /** Every byte of a non-empty input has a non-zero count. */
  lemma HistogramCounts(data: seq<Byte>, b: Byte)
    requires b in data
    ensures Histogram(data)[Unsigned(b)] != 0
  {
    ToByteOfUnsigned(b);
  }

  /**
   * The code table the constructor settles on: a root that is a leaf gets the code "1"
   * (`setHuffCode("1")`), otherwise every leaf gets its depth-first code.
   */
  function CodeTable(root: Node): map<Byte, Bits>
  {
    if root.Leaf? then map[root.sym := [true]] else Codes(root)
  }

  /** The table covers exactly the symbols of the tree, with non-empty, prefix-free codes. */
  lemma CodeTableSound(root: Node)
    ensures forall s :: s in CodeTable(root) <==> s in Syms(root)
    ensures forall s :: s in CodeTable(root) ==> |CodeTable(root)[s]| >= 1
    ensures PrefixFree(CodeTable(root))
  {
    if root.Internal? {
      CodesKeys(root);
      CodesNonEmpty(root);
      CodesPrefixFree(root);
    }
  }

  /**
   * The code assignment of the constructor: the lone-leaf override, or `generateHuffmanCodes(rootNode, "", 0)`
   * on an empty `nodes[]`.
   */
  method AssignCodes(root: Node) returns (nodes: array<Option<Bits>>)
    ensures fresh(nodes) && nodes[..] == Slots(CodeTable(root))
  {
    nodes := new Option<Bits>[256](_ => None);
    ghost var empty := nodes[..];
    if root.Leaf? {
      StoredLeaf(nodes[..], root.sym, root.freq, [true]);
      nodes[Unsigned(root.sym)] := Some([true]);
      forall v | 0 <= v < 256 ensures nodes[v] == Slots(CodeTable(root))[v] {
        ToByteIndex(v, root.sym);
      }
    } else {
      GenerateHuffmanCodes(root, [], nodes);
      forall v | 0 <= v < 256 ensures nodes[v] == Slots(CodeTable(root))[v] {
        if ToByte(v) in Codes(root) {
          assert [] + Codes(root)[ToByte(v)] == Codes(root)[ToByte(v)];
        }
      }
    }
  }

  /** A run of `n` '0' characters. */
  function Zeros(n: nat): (z: Bits)
    ensures |z| == n
  {
    seq(n, _ => false)
  }

  /** The number of '0' characters that pad `h` bits to a byte boundary. */
  function Padding(h: nat): (p: nat)
    ensures p < 8 && (h + p) % 8 == 0
  {
    if h % 8 != 0 then 8 - h % 8 else 0
  }

  /** The extension bytes the loop `for (i = 0; i < extLength; i++)` writes, with `extLength = (byte) ext.length()`. */
  function ExtField(ext: seq<Byte>): (e: seq<Byte>)
    ensures e <= ext && |e| < 128
    ensures |ext| < 128 ==> e == ext
    ensures |ext| % 256 < 128 ==> |e| == |ext| % 256
    ensures |ext| % 256 >= 128 ==> e == []
  {
    var n := ToByte(|ext|) as int;
    if n <= 0 then [] else ext[..n]
  }

  /** `headerLength >> 24`, `>> 16`, `>> 8` and itself, each cast to a byte: big-endian. */
  function LengthField(h: nat): (f: seq<Byte>)
    ensures |f| == 4
  {
    [ToByte(h / 0x100_0000), ToByte(h / 0x1_0000), ToByte(h / 0x100), ToByte(h)]
  }

  /**
   * The string `generateHeader` returns: the extension length, the extension, the tree's bit
   * length before padding, then the post-order tree bits padded with '0's to a byte boundary.
   */
  function HeaderBits(ext: seq<Byte>, root: Node): (h: Bits)
    ensures |h| % 8 == 0
  {
    var tree := Serialize(root);
    var fields := Unpack([ToByte(|ext|)] + ExtField(ext) + LengthField(|tree|));
    var padded := tree + Zeros(Padding(|tree|));
    assert |fields + padded| % 8 == 0 by {
      DivModUnique(|fields + padded|, 8, |fields| / 8 + |padded| / 8, 0);
    }
    fields + padded
  }

  /** The bytes of the header are the fields followed by the padded tree bits. */
  lemma HeaderBytes(ext: seq<Byte>, root: Node)
    ensures Pack(HeaderBits(ext, root)) ==
      [ToByte(|ext|)] + ExtField(ext) + LengthField(|Serialize(root)|) +
      Pack(Serialize(root) + Zeros(Padding(|Serialize(root)|)))
  {
    var tree := Serialize(root);
    var fields := [ToByte(|ext|)] + ExtField(ext) + LengthField(|tree|);
    var rest := tree + Zeros(Padding(|tree|));
    assert |rest| % 8 == 0 by {
      assert |rest| == |tree| + Padding(|tree|);
    }
    assert HeaderBits(ext, root) == Unpack(fields) + rest;
    PackAfterUnpack(fields, rest);
  }

  /** `generateHeader()`, with the extension already split off the file name. */
  method GenerateHeader(ext: seq<Byte>, root: Node) returns (fullHeader: Bits)
    ensures fullHeader == HeaderBits(ext, root)
  {
    var headInfo := ExtBits(ext);
    var headerBuilder := PaddedTree(root);
    var lengthBits := LengthBits(|Serialize(root)|);
    UnpackAppend([ToByte(|ext|)] + ExtField(ext), LengthField(|Serialize(root)|));
    fullHeader := headInfo + lengthBits + headerBuilder;
  }

  /** The extension length byte and the loop over the extension's characters. */
  method ExtBits(ext: seq<Byte>) returns (headInfo: Bits)
    ensures headInfo == Unpack([ToByte(|ext|)] + ExtField(ext))
  {
    var extLength := ToByte(|ext|);
    ghost var e := ExtField(ext);
    assert |e| == if extLength < 0 then 0 else extLength as int;
    headInfo := ByteToBinaryString(extLength);
    UnpackOne(extLength);
    assert [extLength] + e[..0] == [extLength];
    var i := 0;
    while i < extLength as int
      invariant 0 <= i <= |e|
      invariant headInfo == Unpack([extLength] + e[..i])
    {
      var b := ByteToBinaryString(ext[i]);
      ghost var done := [extLength] + e[..i];
      assert [extLength] + e[..i + 1] == done + [ext[i]];
      UnpackSnoc(done, ext[i]);
      headInfo := headInfo + b;
      i := i + 1;
    }
    assert e[..i] == e;
  }

  /** `getHeader(rootNode)` followed by the loop that appends '0' up to a byte boundary. */
  method PaddedTree(root: Node) returns (headerBuilder: Bits)
    ensures headerBuilder == Serialize(root) + Zeros(Padding(|Serialize(root)|))
  {
    headerBuilder := Serialize(root);
    var headerLength := |headerBuilder|;
    if headerLength % 8 != 0 {
      headerBuilder := AppendZeros(headerBuilder, 8 - headerLength % 8);
    } else {
      assert headerBuilder + Zeros(0) == headerBuilder;
    }
  }

  /** A loop of `builder.append("0")`, `n` times. */
  method AppendZeros(s: Bits, n: nat) returns (t: Bits)
    ensures t == s + Zeros(n)
  {
    t := s;
    var k := 0;
    while k < n
      invariant 0 <= k <= n
      invariant t == s + Zeros(k)
    {
      t := t + [false];
      k := k + 1;
    }
  }

  /** The four `byteToBinaryString((byte) (headerLength >> k))` appends. */
  method LengthBits(h: nat) returns (bits: Bits)
    ensures bits == Unpack(LengthField(h))
  {
    var f := LengthField(h);
    var b0 := ByteToBinaryString(f[0]);
    var b1 := ByteToBinaryString(f[1]);
    var b2 := ByteToBinaryString(f[2]);
    var b3 := ByteToBinaryString(f[3]);
    bits := b0 + b1 + b2 + b3;
    UnpackFour(f);
  }

  lemma UnpackFour(f: seq<Byte>)
    requires |f| == 4
    ensures Unpack(f) == ByteBits(f[0]) + ByteBits(f[1]) + ByteBits(f[2]) + ByteBits(f[3])
  {
    assert f == [f[0]] + [f[1]] + [f[2]] + [f[3]];
    UnpackAppend([f[0]] + [f[1]] + [f[2]], [f[3]]);
    UnpackAppend([f[0]] + [f[1]], [f[2]]);
    UnpackAppend([f[0]], [f[1]]);
    UnpackOne(f[0]);
    UnpackOne(f[1]);
    UnpackOne(f[2]);
    UnpackOne(f[3]);
  }

  /**
   * The header loop of `writeToFile`: each 8 characters become one byte of `headerBytes`,
   * written out whenever the 8-byte buffer fills and once more for what is left.
   */
  method WriteHeader(fullHeader: Bits) returns (out: seq<Byte>)
    requires |fullHeader| % 8 == 0
    ensures out == Pack(fullHeader)
  {
    var headerBytes := new Byte[8];
    out := [];
    var byteNumber := 0;
    while byteNumber < |fullHeader| / 8
      invariant 0 <= byteNumber <= |fullHeader| / 8
      invariant out + headerBytes[..byteNumber % 8] == PackPrefix(fullHeader, byteNumber)
    {
      var slot := byteNumber % 8;
      ModStep(byteNumber);
      ghost var before := headerBytes[..slot];
      var byteString := fullHeader[8 * byteNumber..8 * byteNumber + 8];
      headerBytes[slot] := ParseByte(byteString);
      assert headerBytes[..slot + 1] == before + [ParseByte(byteString)];
      PackSnoc(fullHeader, byteNumber);
      if (byteNumber + 1) % 8 == 0 {
        assert headerBytes[..] == headerBytes[..slot + 1];
        out := out + headerBytes[..];
      }
      byteNumber := byteNumber + 1;
    }
    if byteNumber % 8 != 0 {
      out := out + headerBytes[..byteNumber % 8];
    }
    PackPrefixAll(fullHeader);
  }

  /** How `byteNumber % 8` moves when `byteNumber` steps. */
  lemma ModStep(k: nat)
    ensures 0 <= k % 8 < 8
    ensures (k + 1) % 8 == 0 ==> k % 8 == 7
    ensures (k + 1) % 8 != 0 ==> (k + 1) % 8 == k % 8 + 1
  {
  }

  /**
   * The concatenated codes of `data`, looked up in `nodes[b & 0xFF]` one byte after the other;
   * `None` where a byte has no node (the `NullPointerException` of `getHuffCode()`).
   */
  function Encode(slots: seq<Option<Bits>>, data: seq<Byte>): (r: Option<Bits>)
    requires |slots| == 256
    ensures r.Some? <==> forall b :: b in data ==> slots[Unsigned(b)].Some?
  {
    if data == [] then Some([])
    else
      var prefix := Encode(slots, data[..|data| - 1]);
      var slot := slots[Unsigned(data[|data| - 1])];
      if prefix.None? || slot.None? then None else Some(prefix.value + slot.value)
  }

  /** Once a byte without a code has been met, the encoding stays undefined. */
  lemma {:induction false} EncodeStaysNone(slots: seq<Option<Bits>>, data: seq<Byte>, i: nat)
    requires |slots| == 256 && i <= |data|
    requires Encode(slots, data[..i]).None?
    ensures Encode(slots, data).None?
    decreases |data| - i
  {
    if i < |data| {
      assert data[..i + 1][..i] == data[..i];
      EncodeStaysNone(slots, data, i + 1);
    } else {
      assert data[..i] == data;
    }
  }

  /** The codes of a table, read through its slots, concatenated in input order. */
  function EncodeWith(m: map<Byte, Bits>, data: seq<Byte>): Bits
    requires forall b :: b in data ==> b in m
  {
    if data == [] then [] else EncodeWith(m, data[..|data| - 1]) + m[data[|data| - 1]]
  }

  /** Encoding through the slots of a table is defined exactly when every byte has a code, and then it is `EncodeWith`. */
  lemma {:induction false} EncodeSlots(m: map<Byte, Bits>, data: seq<Byte>)
    ensures Encode(Slots(m), data).Some? <==> forall b :: b in data ==> b in m
    ensures Encode(Slots(m), data).Some? ==> Encode(Slots(m), data).value == EncodeWith(m, data)
  {
    if data != [] {
      var init := data[..|data| - 1];
      var last := data[|data| - 1];
      assert data == init + [last];
      EncodeSlots(m, init);
      SlotOf(m, last);
    }
  }

  /** Every slot that holds a code holds one of at most 64 characters, so the 64-bit flush always drains below 64. */
  predicate Fits(slots: seq<Option<Bits>>)
  {
    forall v :: 0 <= v < |slots| && slots[v].Some? ==> |slots[v].value| <= 64
  }

  /**
   * The corrected end of the payload: the last `r < 8` bits padded with '0's and the count of
   * padding bits; when no bits are left, the count 0 alone.
   */
  function Trailer(rest: Bits): (t: seq<Byte>)
    requires |rest| < 8
    ensures |t| == if rest == [] then 1 else 2
  {
    if rest == [] then [ToByte(0)] else [ParseByte(rest + Zeros(8 - |rest|)), ToByte(8 - |rest|)]
  }

  /**
   * The end of the payload as `writeToFile` writes it: `remain` always has two bytes, and when no
   * bits are left `builder.substring(0, 8)` throws before either is set, so both stay 0.
   */
  function TrailerAsWritten(rest: Bits): (t: seq<Byte>)
    requires |rest| < 8
    ensures |t| == 2
  {
    if rest == [] then [ToByte(0), ToByte(0)] else Trailer(rest)
  }

  /** The payload: the whole bytes of the code stream, then the corrected trailer. */
  function PayloadBytes(bits: Bits): seq<Byte>
  {
    if |bits| < 8 then Trailer(bits) else [ParseByte(bits[..8])] + PayloadBytes(bits[8..])
  }

  /** The payload with the trailer `writeToFile` actually writes: always two bytes after the whole ones. */
  function PayloadBytesAsWritten(bits: Bits): (bytes: seq<Byte>)
    ensures |bytes| == |bits| / 8 + 2
  {
    if |bits| < 8 then TrailerAsWritten(bits) else [ParseByte(bits[..8])] + PayloadBytesAsWritten(bits[8..])
  }

  /** The two trailers differ only when the code bits end on a byte boundary, by one zero byte. */
  lemma {:induction false} AsWrittenDiffersOnlyWhenAligned(bits: Bits)
    ensures |bits| % 8 != 0 ==> PayloadBytesAsWritten(bits) == PayloadBytes(bits)
    ensures |bits| % 8 == 0 ==> PayloadBytesAsWritten(bits) == PayloadBytes(bits) + [ToByte(0)]
    decreases |bits|
  {
    if |bits| >= 8 {
      var tail := bits[8..];
      assert |bits| % 8 == |tail| % 8 by {
        DivModUnique(|bits|, 8, |tail| / 8 + 1, |tail| % 8);
      }
      AsWrittenDiffersOnlyWhenAligned(tail);
    }
  }

  /** Bytes already flushed come out first, before the payload as written of what is left. */
  lemma PayloadAsWrittenAfterUnpack(done: seq<Byte>, acc: Bits)
    ensures PayloadBytesAsWritten(Unpack(done) + acc) == done + PayloadBytesAsWritten(acc)
  {
    var all := Unpack(done) + acc;
    assert |all| % 8 == |acc| % 8 by {
      DivModUnique(|all|, 8, |done| + |acc| / 8, |acc| % 8);
    }
    PayloadAfterUnpack(done, acc);
    AsWrittenDiffersOnlyWhenAligned(all);
    AsWrittenDiffersOnlyWhenAligned(acc);
  }

  /** Bytes already flushed come out first. */
  lemma PayloadAfterUnpack(done: seq<Byte>, acc: Bits)
    ensures PayloadBytes(Unpack(done) + acc) == done + PayloadBytes(acc)
  {
    PackOfUnpack(done);
    PayloadAfterWhole(Unpack(done), acc);
  }

  lemma {:induction false} PayloadAfterWhole(u: Bits, acc: Bits)
    requires |u| % 8 == 0
    ensures PayloadBytes(u + acc) == Pack(u) + PayloadBytes(acc)
  {
    if u == [] {
      assert u + acc == acc;
    } else {
      assert (u + acc)[..8] == u[..8];
      assert (u + acc)[8..] == u[8..] + acc;
      PayloadAfterWhole(u[8..], acc);
    }
  }

  /** The payload of fewer than 8 leftover bits after `n` whole bytes: those bytes, then the trailer. */
  lemma {:induction false} PayloadOfTail(bits: Bits, n: nat)
    requires 8 * n <= |bits| < 8 * n + 8
    ensures PayloadBytes(bits) == Pack(bits[..8 * n]) + Trailer(bits[8 * n..])
  {
    if n > 0 {
      var head := bits[..8 * n];
      assert head[..8] == bits[..8];
      assert head[8..] == bits[8..][..8 * (n - 1)];
      assert bits[8 * n..] == bits[8..][8 * (n - 1)..];
      PayloadOfTail(bits[8..], n - 1);
    } else {
      assert bits[..0] == [];
    }
  }

  /** The inner `for (j = 0; j < n; j++)` flush loop: `n` bytes cut from the front of the builder. */
  method FillBuffer(bufferOut: array<Byte>, builder: Bits, n: nat) returns (rest: Bits)
    requires bufferOut.Length == 8 && n <= 8 && 8 * n <= |builder|
    modifies bufferOut
    ensures bufferOut[..n] == PackPrefix(builder, n) && rest == builder[8 * n..]
  {
    rest := builder;
    var j := 0;
    while j < n
      invariant 0 <= j <= n
      invariant bufferOut[..j] == PackPrefix(builder, j) && rest == builder[8 * j..]
    {
      ghost var before := bufferOut[..j];
      assert 8 * j + 8 <= |builder|;
      assert rest[..8] == builder[8 * j..8 * j + 8];
      bufferOut[j] := ParseByte(rest[..8]);
      assert bufferOut[..j + 1] == before + [ParseByte(rest[..8])];
      PackSnoc(builder, j);
      assert rest[8..] == builder[8 * (j + 1)..];
      rest := rest[8..];
      j := j + 1;
    }
  }

  /** Flushed bytes followed by what is left of the builder are the bits the builder held. */
  lemma FlushKeepsBits(out: seq<Byte>, builder: Bits, n: nat)
    requires 8 * n <= |builder|
    ensures Unpack(out + PackPrefix(builder, n)) + builder[8 * n..] == Unpack(out) + builder
  {
    var head := builder[..8 * n];
    assert |head| % 8 == 0 by {
      DivModUnique(8 * n, 8, n, 0);
    }
    assert Unpack(out + PackPrefix(builder, n)) == Unpack(out) + head by {
      UnpackAppend(out, Pack(head));
      UnpackOfPack(head);
    }
    assert head + builder[8 * n..] == builder;
  }

  /**
   * The payload part of `writeToFile`: the codes of the input through the 64-bit flush, then the
   * whole bytes that are left and the trailer.
   */
  method WritePayload(data: seq<Byte>, nodes: array<Option<Bits>>) returns (out: seq<Byte>, ok: bool)
    requires nodes.Length == 256
    ensures ok ==> Encode(nodes[..], data).Some? && out == PayloadBytesAsWritten(Encode(nodes[..], data).value)
    ensures Encode(nodes[..], data).Some? && Fits(nodes[..]) ==> ok
  {
    var bufferOut := new Byte[8];
    var builder;
    out, builder, ok := AppendCodes(data, nodes, bufferOut);
    if !ok || |builder| >= 72 {
      return out, false;
    }
    var tail := WriteRemaining(builder, bufferOut);
    PayloadAsWrittenAfterUnpack(out, builder);
    out := out + tail;
  }

  /**
   * The read loop of `writeToFile`: each byte's code is appended to `builder`, and 64 bits are
   * flushed through `bufferOut` whenever it holds 64 or more.
   */
  method AppendCodes(data: seq<Byte>, nodes: array<Option<Bits>>, bufferOut: array<Byte>)
    returns (out: seq<Byte>, builder: Bits, ok: bool)
    requires nodes.Length == 256 && bufferOut.Length == 8
    modifies bufferOut
    ensures ok ==> Encode(nodes[..], data) == Some(Unpack(out) + builder)
    ensures !ok ==> Encode(nodes[..], data).None?
    ensures Fits(nodes[..]) ==> |builder| < 64
  {
    builder := [];
    out := [];
    ghost var slots := nodes[..];
    assert data[..0] == [] && Unpack(out) + builder == [];
    var i := 0;
    while i < |data|
      invariant 0 <= i <= |data|
      invariant Encode(slots, data[..i]) == Some(Unpack(out) + builder)
      invariant Fits(slots) ==> |builder| < 64
    {
      var currByte := data[i];
      var code := nodes[Unsigned(currByte)];
      ghost var prev := Unpack(out) + builder;
      assert data[..i + 1][..i] == data[..i] && data[..i + 1][i] == currByte;
      assert code == slots[Unsigned(currByte)];
      if code.None? {
        EncodeStaysNone(slots, data, i + 1);
        return out, builder, false;
      }
      assert Encode(slots, data[..i + 1]) == Some(prev + code.value);
      builder := builder + code.value;
      assert Unpack(out) + builder == prev + code.value;
      if |builder| >= 64 {
        var rest := FillBuffer(bufferOut, builder, 8);
        FlushKeepsBits(out, builder, 8);
        assert bufferOut[..] == bufferOut[..8];
        out := out + bufferOut[..];
        builder := rest;
      }
      i := i + 1;
    }
    assert data[..i] == data;
    ok := true;
  }

  /**
   * The end of `writeToFile`: `(byte) builder.length() / 8` whole bytes through `bufferOut`, then
   * the two bytes of `remain`. With bits left over they are the padded bits and the padding
   * count; with none, `substring(0, 8)` throws before either is set and both stay 0.
   */
  method WriteRemaining(builder: Bits, bufferOut: array<Byte>) returns (tail: seq<Byte>)
    requires |builder| < 72 && bufferOut.Length == 8
    modifies bufferOut
    ensures tail == PayloadBytesAsWritten(builder)
  {
    var length := ToByte(|builder|) as int / 8;
    var rest := FillBuffer(bufferOut, builder, length);
    tail := bufferOut[..length];
    var lengthOfRemainingBits := |rest|;
    var remain := [ToByte(0), ToByte(0)];
    if lengthOfRemainingBits != 0 {
      var padded := AppendZeros(rest, 8 - lengthOfRemainingBits);
      assert padded[..8] == padded;
      remain := [ParseByte(padded[..8]), ToByte(8 - lengthOfRemainingBits)];
    }
    assert remain == TrailerAsWritten(rest);
    tail := tail + remain;
    TailAsWritten(builder, length);
  }

  /** The payload as written of fewer than 8 leftover bits after `n` whole bytes: those bytes, then the two trailer bytes. */
  lemma TailAsWritten(bits: Bits, n: nat)
    requires 8 * n <= |bits| < 8 * n + 8
    ensures PayloadBytesAsWritten(bits) == Pack(bits[..8 * n]) + TrailerAsWritten(bits[8 * n..])
  {
    assert |bits| % 8 == |bits| - 8 * n by {
      DivModUnique(|bits|, 8, n, |bits| - 8 * n);
    }
    PayloadOfTail(bits, n);
    AsWrittenDiffersOnlyWhenAligned(bits);
  }

  /** Every byte of the input has a code in a tree built from the input's histogram. */
  lemma CodesCoverInput(root: Node, data: seq<Byte>)
    requires CodeTreeFor(root, Histogram(data))
    ensures forall b :: b in data ==> b in CodeTable(root)
  {
    HuffmanTreeShape(root, Histogram(data));
    CodeTableSound(root);
    forall b | b in data ensures b in CodeTable(root) {
      HistogramCounts(data, b);
    }
  }

  /** The bytes of the `.huff` file: the packed header, then the payload. */
  function CompressedFile(ext: seq<Byte>, root: Node, data: seq<Byte>): seq<Byte>
    requires forall b :: b in data ==> b in CodeTable(root)
  {
    Pack(HeaderBits(ext, root)) + PayloadBytes(EncodeWith(CodeTable(root), data))
  }

  /**
   * The `.huff` file as `writeToFile` writes it: the same as the corrected file, except for one
   * more zero byte when the code bits end on a byte boundary.
   */
  function CompressedFileAsWritten(ext: seq<Byte>, root: Node, data: seq<Byte>): (file: seq<Byte>)
    requires forall b :: b in data ==> b in CodeTable(root)
    ensures |EncodeWith(CodeTable(root), data)| % 8 != 0 ==> file == CompressedFile(ext, root, data)
    ensures |EncodeWith(CodeTable(root), data)| % 8 == 0 ==> file == CompressedFile(ext, root, data) + [ToByte(0)]
  {
    AsWrittenDiffersOnlyWhenAligned(EncodeWith(CodeTable(root), data));
    Pack(HeaderBits(ext, root)) + PayloadBytesAsWritten(EncodeWith(CodeTable(root), data))
  }

  /**
   * The constructor of `CompressScene`: histogram, tree, codes, header and the writing of the
   * file, for a non-empty input whose extension is `ext`.
   */
  method Compress(data: seq<Byte>, ext: seq<Byte>) returns (root: Node, out: seq<Byte>, ok: bool)
    requires |data| > 0
    ensures HuffmanTreeFor(root, Histogram(data)) && LeftLighter(root)
    ensures forall b :: b in data ==> b in CodeTable(root)
    ensures ok ==> out == CompressedFileAsWritten(ext, root, data)
    ensures Fits(Slots(CodeTable(root))) ==> ok
  {
    var freq := GetFreq(data);
    assert freq[..] == Histogram(data);
    HistogramCounts(data, data[0]);
    var heap, numberOfLeafs := InitializeHeap(freq[..]);
    root := heap.Remove();
    HuffmanLeftLighter(root, freq[..]);
    CodesCoverInput(root, data);
    var nodes := AssignCodes(root);
    EncodeSlots(CodeTable(root), data);
    var fullHeader := GenerateHeader(ext, root);
    HeaderBytes(ext, root);
    var headerBytes := WriteHeader(fullHeader);
    var payload, written := WritePayload(data, nodes);
    out := headerBytes + payload;
    ok := written;
  }
}
