/** The array-backed, 1-indexed min-heap of tree nodes ordered by frequency (Heap.java). */
module MinHeap {
  import opened HuffmanTree

  /** `parent(pos)` */
  function Parent(pos: nat): (p: nat)
    ensures pos >= 2 ==> 1 <= p < pos
  {
    pos / 2
  }

  /** `leftChild(pos)` */
  function LeftChild(pos: nat): (c: nat)
    ensures Parent(c) == pos
  {
    2 * pos
  }

  /** `rightChild(pos)` */
  function RightChild(pos: nat): (c: nat)
    ensures Parent(c) == pos && c == LeftChild(pos) + 1
  {
    2 * pos + 1
  }

  /** Slots 1..n are in heap order: no node has a smaller frequency than its parent. */
  ghost predicate Ordered(a: seq<Node>, n: nat)
    requires n < |a|
  {
    forall i {:trigger Parent(i)} :: 2 <= i <= n ==> a[Parent(i)].freq <= a[i].freq
  }

  /** Heap order among slots 1..n, except possibly between slot k and its parent (sift-up). */
  ghost predicate OrderedBut(a: seq<Node>, n: nat, k: nat)
    requires n < |a|
  {
    forall i {:trigger Parent(i)} :: 2 <= i <= n && i != k ==> a[Parent(i)].freq <= a[i].freq
  }

  /** Heap order among slots 1..n, except possibly between slot k and its children (sift-down). */
  ghost predicate OrderedExcept(a: seq<Node>, n: nat, k: nat)
    requires n < |a|
  {
    forall i {:trigger Parent(i)} :: 2 <= i <= n && Parent(i) != k ==> a[Parent(i)].freq <= a[i].freq
  }

  /** The parent of slot k is no larger than the children of slot k. */
  ghost predicate Bridge(a: seq<Node>, n: nat, k: nat)
    requires n < |a|
  {
    k > 1 ==> forall i {:trigger Parent(i)} :: 2 <= i <= n && Parent(i) == k ==> a[Parent(k)].freq <= a[i].freq
  }

  /** Slot 0 holds the sentinel and slots 1..n are in heap order. */
  ghost predicate IsHeap(a: seq<Node>, n: nat)
  {
    n < |a| && a[0] == Sentinel && InOrder(a, n)
  }

  /** `Ordered`, slot by slot: slot n is no smaller than its parent, and so on down to slot 2. */
  ghost predicate InOrder(a: seq<Node>, n: nat)
    requires n < |a|
  {
    n <= 1 || (InOrder(a, n - 1) && a[Parent(n)].freq <= a[n].freq)
  }

  lemma {:induction false} InOrderIff(a: seq<Node>, n: nat)
    requires n < |a|
    ensures InOrder(a, n) <==> Ordered(a, n)
  {
    if n > 1 {
      InOrderIff(a, n - 1);
    }
  }

  function Swapped(a: seq<Node>, i: nat, j: nat): (b: seq<Node>)
    requires i < |a| && j < |a|
    ensures |b| == |a|
  {
    a[i := a[j]][j := a[i]]
  }

  lemma SwappedMultiset(a: seq<Node>, i: nat, j: nat, lo: nat, hi: nat)
    requires lo <= i < hi <= |a| && lo <= j < hi
    ensures multiset(Swapped(a, i, j)[lo..hi]) == multiset(a[lo..hi])
  {
    var s := a[lo..hi];
    assert Swapped(a, i, j)[lo..hi] == s[i - lo := s[j - lo]][j - lo := s[i - lo]];
  }

  lemma SiftUpStep(a: seq<Node>, n: nat, k: nat)
    requires 1 <= k <= n < |a| && a[0] == Sentinel
    requires OrderedBut(a, n, k) && Bridge(a, n, k)
    requires a[k].freq < a[Parent(k)].freq
    ensures 2 <= k && Swapped(a, k, Parent(k))[0] == Sentinel
    ensures OrderedBut(Swapped(a, k, Parent(k)), n, Parent(k))
    ensures Bridge(Swapped(a, k, Parent(k)), n, Parent(k))
  {
  }

  lemma SiftUpDone(a: seq<Node>, n: nat, k: nat)
    requires 1 <= k <= n < |a| && a[0] == Sentinel
    requires OrderedBut(a, n, k)
    requires a[Parent(k)].freq <= a[k].freq
    ensures IsHeap(a, n)
  {
    InOrderIff(a, n);
  }

  /** The only slots whose parent is `k` are its two children. */
  lemma ChildrenOf(k: nat, i: nat)
    requires Parent(i) == k
    ensures i == LeftChild(k) || i == RightChild(k)
  {
  }

  /** `c` is a child of `k` no larger than its sibling, if any. */
  ghost predicate SmallerChild(a: seq<Node>, n: nat, k: nat, c: nat)
    requires n < |a|
  {
    (c == LeftChild(k) || c == RightChild(k)) && 2 <= c <= n &&
    (LeftChild(k) <= n ==> a[c].freq <= a[LeftChild(k)].freq) &&
    (RightChild(k) <= n ==> a[c].freq <= a[RightChild(k)].freq)
  }

  lemma SiftDownStep(a: seq<Node>, n: nat, k: nat, c: nat)
    requires 1 <= k && n < |a| && a[0] == Sentinel
    requires OrderedExcept(a, n, k) && Bridge(a, n, k)
    requires SmallerChild(a, n, k, c) && a[c].freq < a[k].freq
    ensures Swapped(a, k, c)[0] == Sentinel
    ensures OrderedExcept(Swapped(a, k, c), n, c)
    ensures Bridge(Swapped(a, k, c), n, c)
  {
    var b := Swapped(a, k, c);
    forall i | 2 <= i <= n && Parent(i) != c
      ensures b[Parent(i)].freq <= b[i].freq
    {
      if Parent(i) == k {
        ChildrenOf(k, i);
        assert a[c].freq <= a[i].freq;
      } else if i == k {
        assert a[Parent(k)].freq <= a[c].freq;
      }
    }
    forall i | 2 <= i <= n && Parent(i) == c
      ensures b[Parent(c)].freq <= b[i].freq
    {
      assert Parent(c) == k;
    }
  }

  /** Sifting down stops when slot k is no larger than its children, or has none. */
  lemma SiftDownDone(a: seq<Node>, n: nat, k: nat)
    requires n < |a| && a[0] == Sentinel
    requires OrderedExcept(a, n, k)
    requires LeftChild(k) <= n ==> a[k].freq <= a[LeftChild(k)].freq
    requires RightChild(k) <= n ==> a[k].freq <= a[RightChild(k)].freq
    ensures IsHeap(a, n)
  {
    forall i | 2 <= i <= n && Parent(i) == k
      ensures a[k].freq <= a[i].freq
    {
      ChildrenOf(k, i);
    }
    InOrderIff(a, n);
  }

  /** The nodes in slots 1..n. */
  ghost function Nodes(a: seq<Node>, n: nat): multiset<Node>
    requires n < |a|
  {
    multiset(a[1..n + 1])
  }

  /** Slots 1..n of `a` and `b` hold the same nodes, in any order. */
  ghost predicate SameNodes(a: seq<Node>, b: seq<Node>, n: nat)
    requires n < |a| && n < |b|
  {
    Nodes(a, n) == Nodes(b, n)
  }

  lemma SwapSameNodes(a: seq<Node>, i: nat, j: nat, n: nat)
    requires 1 <= i <= n < |a| && 1 <= j <= n
    ensures SameNodes(Swapped(a, i, j), a, n)
  {
    SwappedMultiset(a, i, j, 1, n + 1);
  }

  lemma SameNodesTrans(a: seq<Node>, b: seq<Node>, c: seq<Node>, n: nat)
    requires n < |a| && n < |b| && n < |c|
    requires SameNodes(a, b, n) && SameNodes(b, c, n)
    ensures SameNodes(a, c, n)
  {
  }

  /** Writing `x` into slot n of `a`, whose slots 1..n-1 are `b`'s, adds `x` to `b`'s nodes 1..n-1. */
  lemma AppendNode(b: seq<Node>, a: seq<Node>, n: nat, x: Node)
    requires 1 <= n < |a| == |b| && IsHeap(b, n - 1) && a == b[n := x]
    ensures Nodes(a, n) == Nodes(b, n - 1) + multiset{x}
    ensures a[0] == Sentinel && OrderedBut(a, n, n) && Bridge(a, n, n)
  {
    assert a[1..n + 1] == b[1..n] + [x];
    InOrderIff(b, n - 1);
  }

  /** In heap order, slot 1 holds a minimum-frequency node. */
  lemma {:induction false} RootIsMinimum(a: seq<Node>, n: nat, i: nat)
    requires n < |a| && Ordered(a, n) && 1 <= i <= n
    ensures a[1].freq <= a[i].freq
    decreases i
  {
    if i > 1 {
      RootIsMinimum(a, n, Parent(i));
    }
  }

  /** In heap order, slot 1 is no larger than any stored node. */
  lemma MinimumAtRoot(a: seq<Node>, n: nat)
    requires 1 <= n && IsHeap(a, n)
    ensures a[1] in Nodes(a, n)
    ensures forall x :: x in Nodes(a, n) ==> a[1].freq <= x.freq
  {
    InOrderIff(a, n);
    forall x | x in Nodes(a, n) ensures a[1].freq <= x.freq {
      var i :| 1 <= i <= n && a[i] == x;
      RootIsMinimum(a, n, i);
    }
  }

  /** Moving the last node into slot 1 drops the old root and leaves order broken only at slot 1. */
  lemma LastToRoot(a: seq<Node>, b: seq<Node>, n: nat)
    requires 1 <= n < |a| == |b| && IsHeap(a, n) && b == a[1 := a[n]]
    ensures b[0] == Sentinel
    ensures Nodes(b, n - 1) == Nodes(a, n) - multiset{a[1]}
    ensures OrderedExcept(b, n - 1, 1) && Bridge(b, n - 1, 1)
  {
    LastToRootNodes(a, b, n);
    InOrderIff(a, n);
  }

  lemma LastToRootNodes(a: seq<Node>, b: seq<Node>, n: nat)
    requires 1 <= n < |a| == |b| && b == a[1 := a[n]]
    ensures Nodes(b, n - 1) == Nodes(a, n) - multiset{a[1]}
  {
    if n > 1 {
      assert a[1..n + 1] == [a[1]] + a[2..n] + [a[n]];
      assert b[1..n] == [a[n]] + a[2..n];
    } else {
      assert a[1..2] == [a[1]];
    }
  }

  class Heap {
    /** `Heap`: slot 0 holds the sentinel, slots 1..size the nodes. */
    const heap: array<Node>
    var size: nat
    const maxSize: nat

    ghost predicate Valid()
      reads this, heap
    {
      heap.Length == maxSize + 1 && size <= maxSize && IsHeap(heap[..], size)
    }

    /** The nodes stored in slots 1..size. */
    ghost function Contents(): multiset<Node>
      reads this, heap
      requires Valid()
    {
      Nodes(heap[..], size)
    }

    constructor (maxSize: nat)
      ensures Valid() && fresh(heap)
      ensures this.maxSize == maxSize && size == 0 && Contents() == multiset{}
    {
      this.maxSize := maxSize;
      this.size := 0;
      heap := new Node[maxSize + 1](_ => Sentinel);
    }

    /** `getSize()` */
    function GetSize(): (n: nat)
      reads this, heap
      requires Valid()
      ensures n == |Contents()|
    {
      size
    }

    /** `isLeaf(pos)` */
    function IsLeaf(pos: nat): (b: bool)
      reads this
      ensures b ==> LeftChild(pos) > size
    {
      pos > size / 2 && pos <= size
    }

    /** `swap(fpos, spos)` */
    method Swap(fpos: nat, spos: nat)
      requires fpos < heap.Length && spos < heap.Length
      modifies heap
      ensures heap[..] == Swapped(old(heap[..]), fpos, spos)
    {
      var tmp := heap[fpos];
      heap[fpos] := heap[spos];
      heap[spos] := tmp;
    }

    /** `insert(element)`: a no-op when full, else append at slot size + 1 and sift up. */
    method Insert(element: Node)
      requires Valid()
      modifies this, heap
      ensures Valid()
      ensures old(size) >= maxSize ==> size == old(size) && heap[..] == old(heap[..])
      ensures old(size) < maxSize ==> size == old(size) + 1 && Contents() == old(Contents()) + multiset{element}
    {
      if size >= maxSize {
        return;
      }
      ghost var nodes := old(heap[..]);
      size := size + 1;
      heap[size] := element;
      ghost var start := heap[..];
      AppendNode(nodes, start, size, element);
      var current := size;
      while heap[current].freq < heap[Parent(current)].freq
        invariant 1 <= current <= size <= maxSize && heap[..][0] == Sentinel
        invariant SameNodes(heap[..], start, size)
        invariant OrderedBut(heap[..], size, current) && Bridge(heap[..], size, current)
        modifies heap
        decreases current
      {
        ghost var before := heap[..];
        SiftUpStep(before, size, current);
        SwapSameNodes(before, current, Parent(current), size);
        Swap(current, Parent(current));
        SameNodesTrans(heap[..], before, start, size);
        current := Parent(current);
      }
      SiftUpDone(heap[..], size, current);
    }

    /** `remove()`: take slot 1, move the last node there and sift it down. */
    method Remove() returns (popped: Node)
      requires Valid() && size >= 1
      modifies this, heap
      ensures Valid() && size == old(size) - 1
      ensures popped in old(Contents())
      ensures forall x :: x in old(Contents()) ==> popped.freq <= x.freq
      ensures Contents() == old(Contents()) - multiset{popped}
    {
      popped := heap[1];
      ghost var nodes := heap[..];
      MinimumAtRoot(nodes, size);
      heap[1] := heap[size];
      size := size - 1;
      ghost var start := heap[..];
      LastToRoot(nodes, start, size + 1);
      MinHeapify(1);
    }

    /** `minHeapify(pos)`: swap slot pos with its smaller child while that child is smaller, recursively. */
    method MinHeapify(pos: nat)
      requires heap.Length == maxSize + 1 && size <= maxSize && heap[..][0] == Sentinel
      requires 1 <= pos
      requires OrderedExcept(heap[..], size, pos) && Bridge(heap[..], size, pos)
      modifies heap
      ensures Valid()
      ensures SameNodes(heap[..], old(heap[..]), size)
      decreases size - pos
    {
      if !IsLeaf(pos) {
        var hasLeftChild := LeftChild(pos) <= size;
        var hasRightChild := RightChild(pos) <= size;
        if hasLeftChild {
          var smallestChildPos := LeftChild(pos);
          if hasRightChild && heap[RightChild(pos)].freq < heap[LeftChild(pos)].freq {
            smallestChildPos := RightChild(pos);
          }
          if heap[pos].freq > heap[smallestChildPos].freq {
            ghost var before := heap[..];
            SiftDownStep(before, size, pos, smallestChildPos);
            SwapSameNodes(before, pos, smallestChildPos, size);
            Swap(pos, smallestChildPos);
            ghost var mid := heap[..];
            assert SameNodes(mid, before, size);
            MinHeapify(smallestChildPos);
            SameNodesTrans(heap[..], mid, before, size);
          } else {
            SiftDownDone(heap[..], size, pos);
          }
        } else {
          SiftDownDone(heap[..], size, pos);
        }
      } else {
        SiftDownDone(heap[..], size, pos);
      }
    }
  }
}
