/**
 * The reading side of the codec (`DecompressScene.getHeader`): the fixed fields at the front of a
 * `.huff` file, the split of the rest into tree bits and code bits, the rebuilding of the tree
 * from its post-order bits on a stack, the removal of the padding and the walk that turns code
 * bits back into bytes.
 */
module Decompressor {
  import opened Binary
  import opened Outcomes
  import opened HuffmanTree

  /** Java's `int` division: the quotient is truncated toward zero. */
  function JavaDiv(a: int, d: int): (q: int)
    requires d > 0
    ensures 0 <= a ==> 0 <= d * q <= a < d * q + d
    ensures a < 0 ==> d * q - d < a <= d * q <= 0
  {
    var n := if a >= 0 then a else -a;
    assert n == d * (n / d) + n % d && 0 <= n % d < d;
    if a >= 0 then n / d else -(n / d)
  }

  /** Java's `%` on `int`: the remainder takes the sign of the dividend. */
  function JavaRem(a: int, d: int): (r: int)
    requires d > 0
    ensures a == d * JavaDiv(a, d) + r
    ensures -d < r < d && (a >= 0 ==> r >= 0) && (a <= 0 ==> r <= 0)
  {
    a - d * JavaDiv(a, d)
  }

  /**
   * `bufferIn[3] & 0xFF | (bufferIn[2] & 0xFF) << 8 | (bufferIn[1] & 0xFF) << 16 |
   * (bufferIn[0] & 0xFF) << 24`: four bytes, big-endian, read as a two's-complement `int`.
   */
  function Int32BE(b: seq<Byte>): (v: int)
    requires |b| == 4
    ensures -0x8000_0000 <= v < 0x8000_0000
  {
    var u := Unsigned(b[0]) * 0x100_0000 + Unsigned(b[1]) * 0x1_0000 + Unsigned(b[2]) * 0x100 + Unsigned(b[3]);
    if u >= 0x8000_0000 then u - 0x1_0000_0000 else u
  }

  /** `numberOfBytersForHeader`: the header length in bits rounded up to whole bytes, in Java arithmetic. */
  function HeaderByteCount(h: int): (n: int)
    ensures h >= 0 ==> n == (h + 7) / 8
  {
    if JavaRem(h, 8) == 0 then JavaDiv(h, 8) else JavaDiv(h, 8) + 1
  }

  /** What the header loop reads before the tree: the extension, the header length and the bytes after them. */
  datatype Prefix = Prefix(ext: seq<Byte>, headerLength: int, rest: seq<Byte>)

  function Min(a: int, b: int): int
  {
    if a <= b then a else b
  }

  /**
   * The reads before the loop of `getHeader`: `(byte) read()` for the extension length (`-1` at the
   * end of the file), `read(extBuffer)` for at most that many bytes, then `read(bufferIn, 0, 4)`
   * into a buffer whose missing bytes stay 0. A negative length makes `new byte[extLength]` throw.
   */
  function ReadPrefix(file: seq<Byte>): (r: Result<Prefix, string>)
    ensures r.Ok? <==> |file| > 0 && file[0] >= 0
    ensures r.Ok? ==> r.value.ext == file[1..Min(1 + file[0] as int, |file|)]
    ensures r.Ok? && 1 + file[0] as int + 4 <= |file| ==>
      var e := 1 + file[0] as int;
      r.value.headerLength == Int32BE(file[e..e + 4]) && r.value.rest == file[e + 4..]
  {
    if |file| == 0 then Err("negative extension array size: end of file")
    else if file[0] < 0 then Err("negative extension array size")
    else
      var extEnd := Min(1 + file[0] as int, |file|);
      var lenEnd := Min(extEnd + 4, |file|);
      var lenBytes := file[extEnd..lenEnd] + seq(4 - (lenEnd - extEnd), _ => 0 as Byte);
      Ok(Prefix(file[1..extEnd], Int32BE(lenBytes), file[lenEnd..]))
  }

  /** The number of bytes, out of `available`, the loop gives to the header when it wants `n`. */
  function HeaderBytesTaken(n: int, available: nat): (k: nat)
    ensures k <= available
    ensures 0 <= n <= available ==> k == n
  {
    if n <= 0 then 0 else Min(n, available)
  }

  /**
   * The read loop of `getHeader`: the first `numberOfBytersForHeader` bytes go, as bits, to
   * `header`, every later byte to `serialData`.
   */
  method SplitSections(rest: seq<Byte>, numberOfBytersForHeader: int) returns (header: Bits, serialData: Bits)
    ensures header == Unpack(rest[..HeaderBytesTaken(numberOfBytersForHeader, |rest|)])
    ensures serialData == Unpack(rest[HeaderBytesTaken(numberOfBytersForHeader, |rest|)..])
  {
    ghost var k := HeaderBytesTaken(numberOfBytersForHeader, |rest|);
    header := [];
    serialData := [];
    var counter := 0;
    var i := 0;
    while i < |rest|
      invariant 0 <= i <= |rest| && counter == HeaderBytesTaken(numberOfBytersForHeader, i)
      invariant header == Unpack(rest[..counter])
      invariant serialData == Unpack(rest[counter..i])
    {
      var b := ByteToBinaryString(rest[i]);
      if counter < numberOfBytersForHeader {
        assert counter == i;
        UnpackSnoc(rest[..counter], rest[i]);
        assert rest[..counter + 1] == rest[..counter] + [rest[i]];
        header := header + b;
        counter := counter + 1;
        assert rest[counter..i + 1] == [];
      } else {
        UnpackSnoc(rest[counter..i], rest[i]);
        assert rest[counter..i + 1] == rest[counter..i] + [rest[i]];
        serialData := serialData + b;
      }
      i := i + 1;
    }
    assert rest[counter..i] == rest[counter..];
  }

  /**
   * The reconstruction loop from `counter` on: a `1` pushes a leaf for the next 8 bits, a `0`
   * pops the right then the left child and pushes their parent; it stops once `counter` reaches
   * `headerLength`. `charAt`, `substring` or a pop past the data throw.
   */
  function Rebuild(header: Bits, h: int, counter: nat, stack: seq<Node>): Result<seq<Node>, string>
    decreases if counter < h then h - counter else 0
  {
    if counter >= h then Ok(stack)
    else if counter >= |header| then Err("header ends before its length")
    else if header[counter] then
      if counter + 9 > |header| then Err("header ends inside a leaf")
      else Rebuild(header, h, counter + 9, stack + [Leaf(ParseByte(header[counter + 1..counter + 9]), 0)])
    else if |stack| < 2 then Err("pop from an empty stack")
    else Rebuild(header, h, counter + 1, stack[..|stack| - 2] + [Internal(stack[|stack| - 2], stack[|stack| - 1], 0)])
  }

  /** `stack.peek()` after the loop: the top of the stack; an empty stack has no root. */
  function TreeOf(header: Bits, h: int): Result<Node, string>
  {
    var r := Rebuild(header, h, 0, []);
    if r.Err? then Err(r.error)
    else if r.value == [] then Err("peek on an empty stack")
    else Ok(r.value[|r.value| - 1])
  }

  /** The reconstruction loop of `getHeader`, on a stack held as a sequence whose end is the top. */
  method ReconstructTree(header: Bits, headerLength: int) returns (root: Result<Node, string>)
    ensures root == TreeOf(header, headerLength)
  {
    var stack: seq<Node> := [];
    var counter := 0;
    while counter < headerLength
      invariant counter >= 0
      invariant Rebuild(header, headerLength, counter, stack) == Rebuild(header, headerLength, 0, [])
      decreases headerLength - counter
    {
      if counter >= |header| {
        return Err("header ends before its length");
      }
      if header[counter] {
        counter := counter + 1;
        if counter + 8 > |header| {
          return Err("header ends inside a leaf");
        }
        stack := stack + [Leaf(ParseByte(header[counter..counter + 8]), 0)];
        counter := counter + 8;
      } else {
        counter := counter + 1;
        if |stack| < 2 {
          return Err("pop from an empty stack");
        }
        var right := stack[|stack| - 1];
        var left := stack[|stack| - 2];
        stack := stack[..|stack| - 2] + [Internal(left, right, 0)];
      }
    }
    if stack == [] {
      return Err("peek on an empty stack");
    }
    root := Ok(stack[|stack| - 1]);
  }

  /** A slice of a run that equals `x` holds the matching slice of `x`. */
  lemma SubSlice(s: Bits, i: nat, x: Bits, j: nat, m: nat)
    requires i + |x| <= |s| && s[i..i + |x|] == x && j + m <= |x|
    ensures s[i + j..i + j + m] == x[j..j + m]
  {
    forall k | j <= k < j + m ensures s[i + k] == x[k] {
      assert s[i..i + |x|][k] == x[k];
    }
    assert s[i + j..i + j + m] == x[j..j + m];
  }

  /**
   * The post-order bits of a tree, met at `counter` before the length runs out, leave the same
   * run as pushing the tree (with frequencies 0) and skipping its bits.
   */
  lemma {:induction false} RebuildSerialize(t: Node, header: Bits, h: int, counter: nat, stack: seq<Node>)
    requires counter + |Serialize(t)| <= |header| && counter + |Serialize(t)| <= h
    requires header[counter..counter + |Serialize(t)|] == Serialize(t)
    ensures Rebuild(header, h, counter, stack) == Rebuild(header, h, counter + |Serialize(t)|, stack + [Erase(t)])
    decreases t
  {
    if t.Leaf? {
      RebuildLeaf(t.sym, header, h, counter, stack);
    } else {
      var c1 := counter + |Serialize(t.left)|;
      var c2 := c1 + |Serialize(t.right)|;
      InternalSlices(header, counter, t);
      RebuildSerialize(t.left, header, h, counter, stack);
      RebuildSerialize(t.right, header, h, c1, stack + [Erase(t.left)]);
      RebuildJoin(header, h, c2, stack, Erase(t.left), Erase(t.right));
    }
  }

  /** The bits of an internal node, met at `counter`: the left subtree, the right one, then a '0'. */
  lemma InternalSlices(header: Bits, counter: nat, t: Node)
    requires t.Internal?
    requires counter + |Serialize(t)| <= |header| && header[counter..counter + |Serialize(t)|] == Serialize(t)
    ensures var c1 := counter + |Serialize(t.left)|;
      var c2 := c1 + |Serialize(t.right)|;
      |Serialize(t)| == c2 + 1 - counter &&
      header[counter..c1] == Serialize(t.left) && header[c1..c2] == Serialize(t.right) &&
      c2 < |header| && !header[c2]
  {
    var sl, sr := Serialize(t.left), Serialize(t.right);
    var st := Serialize(t);
    assert st == sl + sr + [false];
    SubSlice(header, counter, st, 0, |sl|);
    assert st[0..|sl|] == sl;
    SubSlice(header, counter, st, |sl|, |sr|);
    assert st[|sl|..|sl| + |sr|] == sr;
    SubSlice(header, counter, st, |sl| + |sr|, 1);
    var c2 := counter + |sl| + |sr|;
    assert header[c2] == header[c2..c2 + 1][0];
  }

  /** A '1' and the 8 bits of a byte push the leaf of that byte. */
  lemma RebuildLeaf(s: Byte, header: Bits, h: int, counter: nat, stack: seq<Node>)
    requires counter + 9 <= |header| && counter + 9 <= h
    requires header[counter..counter + 9] == [true] + ByteBits(s)
    ensures Rebuild(header, h, counter, stack) == Rebuild(header, h, counter + 9, stack + [Leaf(s, 0)])
  {
    var x := [true] + ByteBits(s);
    SubSlice(header, counter, x, 0, 1);
    assert header[counter] == header[counter..counter + 1][0];
    SubSlice(header, counter, x, 1, 8);
    assert x[1..9] == ByteBits(s);
    ParseByteOfByteBits(s);
  }

  /** A '0' pops the two top nodes and pushes their parent, the first popped on the right. */
  lemma RebuildJoin(header: Bits, h: int, c: nat, stack: seq<Node>, l: Node, r: Node)
    requires c < |header| && c < h && !header[c]
    ensures Rebuild(header, h, c, stack + [l] + [r]) == Rebuild(header, h, c + 1, stack + [Internal(l, r, 0)])
  {
    var s2 := stack + [l] + [r];
    assert s2[..|s2| - 2] == stack && s2[|s2| - 2] == l && s2[|s2| - 1] == r;
  }

  /** A header holding exactly a tree's bits, with that length, rebuilds the tree. */
  lemma TreeOfSerialize(t: Node, header: Bits)
    requires Serialize(t) <= header
    ensures TreeOf(header, |Serialize(t)|) == Ok(Erase(t))
  {
    var n := |Serialize(t)|;
    assert Rebuild(header, n, 0, []) == Rebuild(header, n, n, [Erase(t)]) by {
      assert header[0..n] == Serialize(t);
      RebuildSerialize(t, header, n, 0, []);
      assert [] + [Erase(t)] == [Erase(t)];
    }
    assert Rebuild(header, n, n, [Erase(t)]) == Ok([Erase(t)]);
  }

  /**
   * The padding removal: the last 8 bits count the padding bits before them; both go.
   * `substring` with a negative start or `delete` with a negative start throws.
   */
  function StripPadding(serialData: Bits): (r: Result<Bits, string>)
    ensures r.Ok? ==> r.value <= serialData && |r.value| <= |serialData| - 8
  {
    var startIndex := |serialData| - 8;
    if startIndex < 0 then Err("fewer than 8 payload bits")
    else
      var addedBits := BitsToNat(serialData[startIndex..]);
      if startIndex - addedBits < 0 then Err("padding count exceeds the payload")
      else Ok(serialData[..startIndex - addedBits])
  }

  /**
   * The inner loop of the decode walk from `curr` at position `i`: a `0` goes left and a `1`
   * goes right while `curr` is internal and bits remain; it stops at a leaf without consuming.
   */
  function Descend(curr: Node, bits: Bits, i: nat): (r: (Node, nat))
    requires i <= |bits|
    ensures i <= r.1 <= |bits|
    ensures curr.Internal? && i < |bits| ==> r.1 > i
    ensures r.1 < |bits| ==> r.0.Leaf?
    decreases curr
  {
    if i == |bits| then (curr, i)
    else match curr
      case Leaf(_, _) => (curr, i)
      case Internal(l, r, _) => Descend(if bits[i] then r else l, bits, i + 1)
  }

  /**
   * One pass of the outer loop: a lone-leaf root takes one bit; otherwise the walk descends
   * from the root.
   */
  function Step(root: Node, bits: Bits, i: nat): (r: (Node, nat))
    requires i < |bits|
    ensures i < r.1 <= |bits|
  {
    if root.Leaf? then (root, i + 1) else Descend(root, bits, i)
  }

  /** The bytes the decode walk writes from position `i` on: one `getCharCode()` per pass. */
  function DecodeFrom(root: Node, bits: Bits, i: nat): seq<Byte>
    requires i <= |bits|
    decreases |bits| - i
  {
    if i == |bits| then []
    else
      var (curr, j) := Step(root, bits, i);
      [CharCode(curr)] + DecodeFrom(root, bits, j)
  }

  /** A path to a leaf, met at `i`, leads the descent to that leaf and just past the path. */
  lemma {:induction false} DescendPath(u: Node, path: Bits, s: Byte, bits: Bits, i: nat)
    requires LeadsTo(u, path, s) && i + |path| <= |bits| && bits[i..i + |path|] == path
    ensures Descend(u, bits, i).1 == i + |path|
    ensures CharCode(Descend(u, bits, i).0) == s
    decreases u
  {
    match u
    case Leaf(_, _) =>
    case Internal(l, r, _) =>
      assert bits[i] == bits[i..i + |path|][0];
      assert bits[i + 1..i + |path|] == path[1..];
      DescendPath(if path[0] then r else l, path[1..], s, bits, i + 1);
  }

  /** A symbol's code in the table, met at `i`, decodes to that symbol and ends just past the code. */
  lemma DescendCode(u: Node, s: Byte, bits: Bits, i: nat)
    requires s in Codes(u) && i + |Codes(u)[s]| <= |bits|
    requires bits[i..i + |Codes(u)[s]|] == Codes(u)[s]
    ensures Descend(u, bits, i).1 == i + |Codes(u)[s]|
    ensures CharCode(Descend(u, bits, i).0) == s
  {
    CodesAreLeafPaths(u, s);
    DescendPath(u, Codes(u)[s], s, bits, i);
  }

  /** The inner loop of the decode walk, for one pass from the root. */
  method Walk(root: Node, serialData: Bits, start: nat) returns (curr: Node, counter: nat)
    requires start < |serialData|
    ensures (curr, counter) == Step(root, serialData, start)
  {
    curr := root;
    counter := start;
    if root.Leaf? {
      counter := counter + 1;
      return;
    }
    while curr.Internal? && counter < |serialData|
      invariant start <= counter <= |serialData|
      invariant Descend(curr, serialData, counter) == Descend(root, serialData, start)
      decreases curr
    {
      curr := if serialData[counter] then curr.right else curr.left;
      counter := counter + 1;
    }
  }

  /**
   * The outer loop of the decode walk: each pass starts at the root and writes one byte into
   * `bufferOut`, which is written out whenever it fills; what it holds at the end is written last.
   */
  method DecodeWalk(root: Node, serialData: Bits) returns (out: seq<Byte>)
    ensures out == DecodeFrom(root, serialData, 0)
  {
    var bufferOut := new Byte[8];
    out := [];
    var counterForBufferSerialData := 0;
    var counterForBufferOut := 0;
    while counterForBufferSerialData < |serialData|
      invariant 0 <= counterForBufferSerialData <= |serialData| && 0 <= counterForBufferOut < 8
      invariant out + bufferOut[..counterForBufferOut] + DecodeFrom(root, serialData, counterForBufferSerialData)
        == DecodeFrom(root, serialData, 0)
      decreases |serialData| - counterForBufferSerialData
    {
      ghost var start := counterForBufferSerialData;
      var curr;
      curr, counterForBufferSerialData := Walk(root, serialData, counterForBufferSerialData);
      assert (curr, counterForBufferSerialData) == Step(root, serialData, start);
      ghost var before := bufferOut[..counterForBufferOut];
      bufferOut[counterForBufferOut] := CharCode(curr);
      assert bufferOut[..counterForBufferOut + 1] == before + [CharCode(curr)];
      assert out + bufferOut[..counterForBufferOut + 1] + DecodeFrom(root, serialData, counterForBufferSerialData)
        == DecodeFrom(root, serialData, 0) by {
        assert DecodeFrom(root, serialData, start) == [CharCode(curr)] + DecodeFrom(root, serialData, counterForBufferSerialData);
      }
      counterForBufferOut := counterForBufferOut + 1;
      if counterForBufferOut == 8 {
        assert bufferOut[..] == bufferOut[..8];
        out := out + bufferOut[..];
        counterForBufferOut := 0;
      }
    }
    out := out + bufferOut[..counterForBufferOut];
  }

  /**
   * `generateHuffmanCodes(this.rootNode, "", 0)` on the rebuilt tree: unlike the compressor, a
   * lone-leaf root keeps the empty code. The table only feeds the statistics view.
   */
  method DecoderCodes(root: Node) returns (nodes: array<Option<Bits>>)
    ensures fresh(nodes) && nodes[..] == Slots(Codes(root))
  {
    nodes := new Option<Bits>[256](_ => None);
    GenerateHuffmanCodes(root, [], nodes);
    forall v | 0 <= v < 256 ensures nodes[v] == Slots(Codes(root))[v] {
      if ToByte(v) in Codes(root) {
        assert [] + Codes(root)[ToByte(v)] == Codes(root)[ToByte(v)];
      }
    }
  }

  /** The extension and the bytes a `.huff` file decodes to. */
  datatype Decoded = Decoded(ext: seq<Byte>, data: seq<Byte>)

  /** Where the tree bits end and the code bits start, for a prefix already read. */
  function Sections(p: Prefix): (Bits, Bits)
  {
    var k := HeaderBytesTaken(HeaderByteCount(p.headerLength), |p.rest|);
    (Unpack(p.rest[..k]), Unpack(p.rest[k..]))
  }

  /** What `getHeader` makes of a file, or the exception that stops it. */
  function DecompressFile(file: seq<Byte>): Result<Decoded, string>
  {
    var prefix := ReadPrefix(file);
    if prefix.Err? then Err(prefix.error)
    else
      var (header, serialData) := Sections(prefix.value);
      var root := TreeOf(header, prefix.value.headerLength);
      if root.Err? then Err(root.error)
      else
        var payload := StripPadding(serialData);
        if payload.Err? then Err(payload.error)
        else Ok(Decoded(prefix.value.ext, DecodeFrom(root.value, payload.value, 0)))
  }

  /** `getHeader()`: read the fields, split, rebuild the tree, assign codes, strip the padding, decode. */
  method Decompress(file: seq<Byte>) returns (r: Result<Decoded, string>)
    ensures r == DecompressFile(file)
  {
    var prefix := ReadPrefix(file);
    if prefix.Err? {
      return Err(prefix.error);
    }
    var numberOfBytersForHeader := HeaderByteCount(prefix.value.headerLength);
    var header, serialData := SplitSections(prefix.value.rest, numberOfBytersForHeader);
    var root := ReconstructTree(header, prefix.value.headerLength);
    if root.Err? {
      return Err(root.error);
    }
    var nodes := DecoderCodes(root.value);
    var payload := StripPadding(serialData);
    if payload.Err? {
      return Err(payload.error);
    }
    var data := DecodeWalk(root.value, payload.value);
    r := Ok(Decoded(prefix.value.ext, data));
  }
}
