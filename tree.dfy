/** The Huffman tree: nodes, the code table a depth-first walk assigns, and the post-order serialisation. */
module HuffmanTree {
  import opened Binary
  import opened Outcomes

  /**
   * `new Node(charCode, freq)` is a leaf; `new Node(freq)` followed by `setLeft`/`setRight` is an
   * internal node. Every internal node the codec builds has both children.
   */
  datatype Node = Leaf(sym: Byte, freq: nat) | Internal(left: Node, right: Node, freq: nat)

  /** The heap's slot-0 dummy `new Node(0)`: no children, frequency 0. */
  const Sentinel: Node := Leaf(0, 0)

  /** `getCharCode()`; an internal node keeps the field's default value 0. */
  function CharCode(t: Node): Byte
  {
    if t.Leaf? then t.sym else 0
  }

  /** The symbols at the leaves, with multiplicity. */
  function Syms(t: Node): multiset<Byte>
  {
    match t
    case Leaf(s, _) => multiset{s}
    case Internal(l, r, _) => Syms(l) + Syms(r)
  }

  function LeafCount(t: Node): (n: nat)
    ensures n == |Syms(t)| && n >= 1
  {
    match t
    case Leaf(_, _) => 1
    case Internal(l, r, _) => LeafCount(l) + LeafCount(r)
  }

  function InternalCount(t: Node): nat
  {
    match t
    case Leaf(_, _) => 0
    case Internal(l, r, _) => InternalCount(l) + InternalCount(r) + 1
  }

  /** No symbol appears at two leaves. */
  predicate UniqueSyms(t: Node)
  {
    forall s :: Syms(t)[s] <= 1
  }

  /** Every internal node's frequency is the sum of its children's. */
  predicate WellFormed(t: Node)
  {
    match t
    case Leaf(_, _) => true
    case Internal(l, r, f) => f == l.freq + r.freq && WellFormed(l) && WellFormed(r)
  }

  /** The same shape and symbols with every frequency 0: what the decompressor rebuilds. */
  function Erase(t: Node): (e: Node)
    ensures e.freq == 0
    ensures Syms(e) == Syms(t)
  {
    match t
    case Leaf(s, _) => Leaf(s, 0)
    case Internal(l, r, _) => Internal(Erase(l), Erase(r), 0)
  }

  lemma {:induction false} InternalCountOfWellShaped(t: Node)
    ensures InternalCount(t) + 1 == LeafCount(t)
  {
    if t.Internal? {
      InternalCountOfWellShaped(t.left);
      InternalCountOfWellShaped(t.right);
    }
  }

  lemma UniqueChildren(t: Node)
    requires t.Internal? && UniqueSyms(t)
    ensures UniqueSyms(t.left) && UniqueSyms(t.right)
    ensures forall s :: s in Syms(t.left) ==> s !in Syms(t.right)
  {
    forall s ensures Syms(t.left)[s] <= 1 && Syms(t.right)[s] <= 1 {
      assert Syms(t)[s] == Syms(t.left)[s] + Syms(t.right)[s];
    }
    forall s | s in Syms(t.left) ensures s !in Syms(t.right) {
      assert Syms(t)[s] == Syms(t.left)[s] + Syms(t.right)[s];
    }
  }

  /** Every code of `m` with the bit `b` put in front. */
  function Prepend(b: bool, m: map<Byte, Bits>): (r: map<Byte, Bits>)
    ensures r.Keys == m.Keys
    ensures forall k :: k in m ==> r[k] == [b] + m[k]
  {
    map k | k in m :: [b] + m[k]
  }

  /**
   * The code a depth-first walk assigns below `t`: `0` for a left edge, `1` for a right edge.
   * Like the writes into `nodes[]`, a symbol met again further right overrides the earlier code.
   */
  function Codes(t: Node): map<Byte, Bits>
  {
    match t
    case Leaf(s, _) => map[s := []]
    case Internal(l, r, _) => Prepend(false, Codes(l)) + Prepend(true, Codes(r))
  }

  /** The table has an entry for exactly the symbols at the leaves. */
  lemma {:induction false} CodesKeys(t: Node)
    ensures forall s :: s in Codes(t) <==> s in Syms(t)
  {
    if t.Internal? {
      CodesKeys(t.left);
      CodesKeys(t.right);
    }
  }

  /** Where a symbol's code below an internal node comes from: the right subtree wins. */
  lemma CodesLookup(t: Node, s: Byte)
    requires t.Internal? && s in Codes(t)
    ensures s in Codes(t.right) ==> Codes(t)[s] == [true] + Codes(t.right)[s]
    ensures s !in Codes(t.right) ==> s in Codes(t.left) && Codes(t)[s] == [false] + Codes(t.left)[s]
  {
  }

  /** Following `path` from `t` (`0` left, `1` right) ends exactly at a leaf holding `s`. */
  predicate LeadsTo(t: Node, path: Bits, s: Byte)
    decreases t
  {
    match t
    case Leaf(sym, _) => path == [] && sym == s
    case Internal(l, r, _) => path != [] && LeadsTo(if path[0] then r else l, path[1..], s)
  }

  /** Every code in the table is the path to a leaf holding its symbol. */
  lemma {:induction false} CodesAreLeafPaths(t: Node, s: Byte)
    requires s in Codes(t)
    ensures LeadsTo(t, Codes(t)[s], s)
  {
    if t.Internal? {
      CodesLookup(t, s);
      var code := Codes(t)[s];
      if s in Codes(t.right) {
        CodesAreLeafPaths(t.right, s);
        assert code[1..] == Codes(t.right)[s];
      } else {
        CodesAreLeafPaths(t.left, s);
        assert code[1..] == Codes(t.left)[s];
      }
    }
  }

  /** No code is a prefix of a different symbol's code. */
  predicate PrefixFree(m: map<Byte, Bits>)
  {
    forall a, b :: a in m && b in m && a != b ==> !(m[a] <= m[b])
  }

  lemma PrefixOfCons(c: bool, d: bool, x: Bits, y: Bits)
    requires [c] + x <= [d] + y
    ensures c == d && x <= y
  {
    assert ([c] + x)[0] == ([d] + y)[0];
    assert x == ([c] + x)[1..];
    assert y[..|x|] == ([d] + y)[1..|x| + 1];
  }

  /** The table is prefix-free for every tree: a repeated symbol keeps only its rightmost code. */
  lemma {:induction false} CodesPrefixFree(t: Node)
    ensures PrefixFree(Codes(t))
  {
    if t.Internal? {
      CodesPrefixFree(t.left);
      CodesPrefixFree(t.right);
      var m, ml, mr := Codes(t), Codes(t.left), Codes(t.right);
      forall a, b | a in m && b in m && a != b ensures !(m[a] <= m[b]) {
        CodesLookup(t, a);
        CodesLookup(t, b);
        if m[a] <= m[b] {
          if a in mr && b in mr {
            PrefixOfCons(true, true, mr[a], mr[b]);
            assert false;
          } else if a !in mr && b !in mr {
            PrefixOfCons(false, false, ml[a], ml[b]);
            assert false;
          } else if a in mr {
            PrefixOfCons(true, false, mr[a], ml[b]);
            assert false;
          } else {
            PrefixOfCons(false, true, ml[a], mr[b]);
            assert false;
          }
        }
      }
    }
  }

  /** Below an internal node every code is at least one bit long. */
  lemma CodesNonEmpty(t: Node)
    requires t.Internal?
    ensures forall s :: s in Codes(t) ==> |Codes(t)[s]| >= 1
  {
  }

  /** The codes do not depend on frequencies: the decompressor's rebuilt tree has the same codes. */
  lemma {:induction false} CodesOfErase(t: Node)
    ensures Codes(Erase(t)) == Codes(t)
  {
    if t.Internal? {
      CodesOfErase(t.left);
      CodesOfErase(t.right);
    }
  }

  /** The 256 slots of `nodes[]`: slot `v` holds the code of the symbol `(byte) v`, if it has one. */
  function Slots(m: map<Byte, Bits>): (slots: seq<Option<Bits>>)
    ensures |slots| == 256
  {
    seq(256, v requires 0 <= v < 256 => if ToByte(v) in m then Some(m[ToByte(v)]) else None)
  }

  /** A symbol's slot is the one `b & 0xFF` selects. */
  lemma SlotOf(m: map<Byte, Bits>, b: Byte)
    ensures Slots(m)[Unsigned(b)] == if b in m then Some(m[b]) else None
  {
    ToByteOfUnsigned(b);
  }

  /**
   * `after` is the 256-slot table `before` with the code of every symbol of `t`, prefixed by
   * `code`, stored in the slot `symbol & 0xFF`; the other slots are unchanged.
   */
  ghost predicate Stored(after: seq<Option<Bits>>, before: seq<Option<Bits>>, t: Node, code: Bits)
    requires |after| == |before| == 256
  {
    forall v :: 0 <= v < 256 ==>
      after[v] == if ToByte(v) in Codes(t) then Some(code + Codes(t)[ToByte(v)]) else before[v]
  }

  lemma StoredLeaf(before: seq<Option<Bits>>, s: Byte, f: nat, code: Bits)
    requires |before| == 256
    ensures Stored(before[Unsigned(s) := Some(code)], before, Leaf(s, f), code)
  {
    forall v | 0 <= v < 256 {
      ToByteIndex(v, s);
    }
    assert code + [] == code;
  }

  lemma StoredInternalAt(t: Node, code: Bits, s: Byte, a: Option<Bits>, b: Option<Bits>, c: Option<Bits>)
    requires t.Internal?
    requires b == if s in Codes(t.left) then Some(code + [false] + Codes(t.left)[s]) else a
    requires c == if s in Codes(t.right) then Some(code + [true] + Codes(t.right)[s]) else b
    ensures c == if s in Codes(t) then Some(code + Codes(t)[s]) else a
  {
    var m, ml, mr := Codes(t), Codes(t.left), Codes(t.right);
    assert m == Prepend(false, ml) + Prepend(true, mr);
    if s in mr {
      assert m[s] == [true] + mr[s];
      assert code + [true] + mr[s] == code + ([true] + mr[s]);
    } else if s in ml {
      assert m[s] == [false] + ml[s];
      assert code + [false] + ml[s] == code + ([false] + ml[s]);
    } else {
      assert s !in m;
    }
  }

  lemma StoredInternal(a: seq<Option<Bits>>, b: seq<Option<Bits>>, c: seq<Option<Bits>>, t: Node, code: Bits)
    requires |a| == |b| == |c| == 256 && t.Internal?
    requires Stored(b, a, t.left, code + [false]) && Stored(c, b, t.right, code + [true])
    ensures Stored(c, a, t, code)
  {
    forall v | 0 <= v < 256
      ensures c[v] == if ToByte(v) in Codes(t) then Some(code + Codes(t)[ToByte(v)]) else a[v]
    {
      StoredInternalAt(t, code, ToByte(v), a[v], b[v], c[v]);
    }
  }

  /**
   * The recursion of `generateHuffmanCodes`: at a leaf store the accumulated code in the symbol's
   * slot of `nodes`, else recurse left with `code + "0"` and right with `code + "1"`.
   */
  method GenerateHuffmanCodes(node: Node, code: Bits, nodes: array<Option<Bits>>)
    requires nodes.Length == 256
    modifies nodes
    ensures Stored(nodes[..], old(nodes[..]), node, code)
    decreases node
  {
    match node
    case Leaf(s, f) =>
      StoredLeaf(nodes[..], s, f, code);
      nodes[Unsigned(s)] := Some(code);
    case Internal(l, r, _) =>
      ghost var a := nodes[..];
      GenerateHuffmanCodes(l, code + [false], nodes);
      ghost var b := nodes[..];
      GenerateHuffmanCodes(r, code + [true], nodes);
      StoredInternal(a, b, nodes[..], node, code);
  }

  /** `getHeader(root)`: post-order; a leaf emits `1` and its 8 bits, an internal node `0`. */
  function Serialize(t: Node): Bits
  {
    match t
    case Leaf(s, _) => [true] + ByteBits(s)
    case Internal(l, r, _) => Serialize(l) + Serialize(r) + [false]
  }

  /** The post-order bits start with the mark of the leftmost leaf and, below an internal root, end with that root's `0`. */
  lemma {:induction false} SerializeShape(t: Node)
    ensures |Serialize(t)| >= 9 && Serialize(t)[0]
    ensures t.Internal? ==> !Serialize(t)[|Serialize(t)| - 1]
  {
    if t.Internal? {
      SerializeShape(t.left);
    }
  }

  lemma {:induction false} SerializeLength(t: Node)
    ensures |Serialize(t)| == 9 * LeafCount(t) + InternalCount(t)
  {
    if t.Internal? {
      SerializeLength(t.left);
      SerializeLength(t.right);
    }
  }

  /** The serialisation ignores frequencies. */
  lemma {:induction false} SerializeOfErase(t: Node)
    ensures Serialize(Erase(t)) == Serialize(t)
  {
    if t.Internal? {
      SerializeOfErase(t.left);
      SerializeOfErase(t.right);
    }
  }
}
