/**
 * What the two scenes promise each other: a file written by the compressor reads back, through
 * the decompressor, as the original bytes and extension. Also the trailer the compressor writes
 * when the code bits end on a byte boundary, and what that trailer does to the round trip.
 */
module Codec {
  import opened Binary
  import opened Outcomes
  import opened HuffmanTree
  import opened Compressor
  import opened Decompressor

  /** The four length bytes read back as an `int` give the header length they were cut from. */
  lemma LengthFieldRoundTrip(h: nat)
    requires h < 0x8000_0000
    ensures Int32BE(LengthField(h)) == h
  {
    var a := h / 0x100;
    var b := h / 0x1_0000;
    var c := h / 0x100_0000;
    DivModUnique(h, 0x100, a, h % 0x100);
    DivModUnique(a, 0x100, a / 0x100, a % 0x100);
    DivModUnique(h, 0x1_0000, a / 0x100, 0x100 * (a % 0x100) + h % 0x100);
    DivModUnique(b, 0x100, b / 0x100, b % 0x100);
    DivModUnique(h, 0x100_0000, b / 0x100, 0x1_0000 * (b % 0x100) + 0x100 * (a % 0x100) + h % 0x100);
    assert c < 0x80;
  }

  /** A length below 128 survives the `(byte)` cast of `ext.length()`. */
  lemma SmallLength(n: nat)
    requires n < 128
    ensures ToByte(n) as int == n
  {
  }

  /** Rounding a bit count up to whole bytes, as the reader does, gives the bytes the writer packed. */
  lemma HeaderByteCountOfPadding(h: nat)
    ensures HeaderByteCount(h) == (h + Padding(h)) / 8
  {
    var p := Padding(h);
    DivModUnique(h + p, 8, (h + p) / 8, 0);
    DivModUnique(h + 7, 8, (h + p) / 8, 7 - p);
  }

  /** The codes of the concatenation are the codes of each part, in order. */
  lemma {:induction false} EncodeWithAppend(m: map<Byte, Bits>, a: seq<Byte>, b: seq<Byte>)
    requires forall x :: x in a + b ==> x in m
    ensures EncodeWith(m, a + b) == EncodeWith(m, a) + EncodeWith(m, b)
    decreases |b|
  {
    if b == [] {
      assert a + b == a;
    } else {
      var init := b[..|b| - 1];
      assert (a + b)[..|a + b| - 1] == a + init;
      assert (a + b)[|a + b| - 1] == b[|b| - 1];
      EncodeWithAppend(m, a, init);
    }
  }

  /** The table of the rebuilt tree is the table of the written tree. */
  lemma CodeTableOfErase(t: Node)
    ensures CodeTable(Erase(t)) == CodeTable(t)
  {
    CodesOfErase(t);
  }

  /**
   * Decoding from `i`, where the bits hold the codes of `data` in the root's table, gives `data`
   * and then whatever the bits after those codes decode to.
   */
  lemma {:induction false} DecodeEncoded(root: Node, data: seq<Byte>, bits: Bits, i: nat)
    requires forall b :: b in data ==> b in CodeTable(root)
    requires i + |EncodeWith(CodeTable(root), data)| <= |bits|
    requires bits[i..i + |EncodeWith(CodeTable(root), data)|] == EncodeWith(CodeTable(root), data)
    ensures DecodeFrom(root, bits, i) == data + DecodeFrom(root, bits, i + |EncodeWith(CodeTable(root), data)|)
    decreases |data|
  {
    var m := CodeTable(root);
    if data != [] {
      var init := data[..|data| - 1];
      var b := data[|data| - 1];
      var front := EncodeWith(m, init);
      var code := m[b];
      var enc := EncodeWith(m, data);
      assert enc == front + code;
      var j := i + |front|;
      SplitSlice(bits, i, front, code);
      var after := DecodeFrom(root, bits, j + |code|);
      calc {
        DecodeFrom(root, bits, i);
        { DecodeEncoded(root, init, bits, i); }
        init + DecodeFrom(root, bits, j);
        { DecodeOne(root, b, bits, j); }
        init + ([b] + after);
        { assert data == init + [b]; }
        data + after;
      }
    }
  }

  /** A slice holding `x + y` holds `x`, then `y`. */
  lemma SplitSlice(bits: Bits, i: nat, x: Bits, y: Bits)
    requires i + |x| + |y| <= |bits| && bits[i..i + |x| + |y|] == x + y
    ensures bits[i..i + |x|] == x && bits[i + |x|..i + |x| + |y|] == y
  {
    assert bits[i..i + |x|] == bits[i..i + |x| + |y|][..|x|];
    assert bits[i + |x|..i + |x| + |y|] == bits[i..i + |x| + |y|][|x|..];
  }

  /** A code of the table met at `j` decodes to its symbol, and the walk goes on just past it. */
  lemma DecodeOne(root: Node, b: Byte, bits: Bits, j: nat)
    requires b in CodeTable(root) && j + |CodeTable(root)[b]| <= |bits|
    requires bits[j..j + |CodeTable(root)[b]|] == CodeTable(root)[b]
    ensures DecodeFrom(root, bits, j) == [b] + DecodeFrom(root, bits, j + |CodeTable(root)[b]|)
  {
    StepCode(root, b, bits, j);
  }

  /** One pass of the walk over a code in the root's table reads exactly that code and writes its symbol. */
  lemma StepCode(root: Node, b: Byte, bits: Bits, i: nat)
    requires b in CodeTable(root) && i + |CodeTable(root)[b]| <= |bits|
    requires bits[i..i + |CodeTable(root)[b]|] == CodeTable(root)[b]
    ensures i < |bits|
    ensures Step(root, bits, i).1 == i + |CodeTable(root)[b]|
    ensures CharCode(Step(root, bits, i).0) == b
  {
    if root.Internal? {
      var code := Codes(root)[b];
      CodesAreLeafPaths(root, b);
      DescendPath(root, code, b, bits, i);
    }
  }

  /**
   * The bits of the trailer: the leftover bits, then '0' padding, then the 8-bit count of bits
   * added after the leftover ones.
   */
  lemma TrailerBits(rest: Bits)
    requires |rest| < 8
    ensures var t := Unpack(Trailer(rest));
      |rest| + 8 <= |t| && t[..|rest|] == rest && BitsToNat(t[|t| - 8..]) == |t| - 8 - |rest|
  {
    if rest == [] {
      TrailerBitsEmpty();
    } else {
      TrailerBitsLeftover(rest);
    }
  }

  lemma TrailerBitsEmpty()
    ensures var t := Unpack(Trailer([]));
      8 <= |t| && BitsToNat(t[|t| - 8..]) == |t| - 8
  {
    var t := Unpack(Trailer([]));
    assert t == ByteBits(ToByte(0)) by {
      UnpackOne(ToByte(0));
    }
    assert t[|t| - 8..] == t;
    SmallLength(0);
    ByteBitsValue(ToByte(0));
  }

  lemma TrailerBitsLeftover(rest: Bits)
    requires 0 < |rest| < 8
    ensures var t := Unpack(Trailer(rest));
      |rest| + 8 <= |t| && t[..|rest|] == rest && BitsToNat(t[|t| - 8..]) == |t| - 8 - |rest|
  {
    var count := ToByte(8 - |rest|);
    var c := ByteBits(count);
    var t := Unpack(Trailer(rest));
    assert t == rest + (Zeros(8 - |rest|) + c) by {
      TrailerOfLeftover(rest);
    }
    assert BitsToNat(c) == 8 - |rest| by {
      SmallLength(8 - |rest|);
      ByteBitsValue(count);
    }
    CountedEnd(rest, Zeros(8 - |rest|), c, t);
  }

  /** Bits, then padding, then 8 bits whose value is the padding length. */
  lemma CountedEnd(a: Bits, z: Bits, c: Bits, t: Bits)
    requires t == a + (z + c) && |c| == 8 && BitsToNat(c) == |z|
    ensures |a| + 8 <= |t| && t[..|a|] == a && BitsToNat(t[|t| - 8..]) == |t| - 8 - |a|
  {
    assert t[|t| - 8..] == c;
  }

  /** Leftover bits make two trailer bytes: the bits padded with '0's, then the count of '0's. */
  lemma TrailerOfLeftover(rest: Bits)
    requires 0 < |rest| < 8
    ensures Unpack(Trailer(rest)) == rest + Zeros(8 - |rest|) + ByteBits(ToByte(8 - |rest|))
  {
    var padded := rest + Zeros(8 - |rest|);
    var count := ToByte(8 - |rest|);
    assert Trailer(rest) == [ParseByte(padded)] + [count];
    UnpackAppend([ParseByte(padded)], [count]);
    UnpackOne(ParseByte(padded));
    UnpackOne(count);
    ByteBitsOfParseByte(padded);
  }

  /**
   * The bits of the payload: the code bits, then the padding, then the 8-bit count of padding
   * bits.
   */
  lemma {:induction false} PayloadBits(bits: Bits)
    ensures var u := Unpack(PayloadBytes(bits));
      |bits| + 8 <= |u| && u[..|bits|] == bits && BitsToNat(u[|u| - 8..]) == |u| - 8 - |bits|
    decreases |bits|
  {
    if |bits| < 8 {
      TrailerBits(bits);
    } else {
      var head := bits[..8];
      var tail := PayloadBytes(bits[8..]);
      var v := Unpack(tail);
      PayloadBits(bits[8..]);
      UnpackAppend([ParseByte(head)], tail);
      UnpackOne(ParseByte(head));
      ByteBitsOfParseByte(head);
      var u := head + v;
      assert Unpack(PayloadBytes(bits)) == u;
      assert u[..|bits|] == head + v[..|bits| - 8];
      assert bits == head + bits[8..];
      assert u[|u| - 8..] == v[|v| - 8..];
    }
  }

  /** The payload bits, once its padding is stripped, are the code bits written. */
  lemma StripPayload(bits: Bits)
    ensures StripPadding(Unpack(PayloadBytes(bits))) == Ok(bits)
  {
    PayloadBits(bits);
  }

  /**
   * A file made of the header the compressor writes and any payload decompresses to the
   * extension and to what the payload's bits, stripped of their padding, decode to on the
   * rebuilt tree, provided the extension is shorter than 128 and the header length fits an `int`.
   */
  lemma DecodeLayout(ext: seq<Byte>, root: Node, payload: seq<Byte>)
    requires |ext| < 128 && |Serialize(root)| < 0x8000_0000
    ensures var stripped := StripPadding(Unpack(payload));
      DecompressFile(Pack(HeaderBits(ext, root)) + payload) ==
        if stripped.Err? then Err(stripped.error)
        else Ok(Decoded(ext, DecodeFrom(Erase(root), stripped.value, 0)))
  {
    var s := Serialize(root);
    var padded := s + Zeros(Padding(|s|));
    var rest := Pack(padded) + payload;
    var file := Pack(HeaderBits(ext, root)) + payload;
    HeaderLayout(ext, root, payload);
    ReadLayout(ext, |s|, rest);
    SectionsLayout(s, Pack(padded), payload);
    UnpackOfPack(padded);
    TreeOfSerialize(root, padded);
    DecompressOfParts(file, Prefix(ext, |s|, rest), padded, Unpack(payload), Erase(root));
  }

  /** The header the compressor writes, field by field, with the payload after it. */
  lemma HeaderLayout(ext: seq<Byte>, root: Node, payload: seq<Byte>)
    ensures var s := Serialize(root);
      Pack(HeaderBits(ext, root)) + payload ==
        [ToByte(|ext|)] + ExtField(ext) + LengthField(|s|) + (Pack(s + Zeros(Padding(|s|))) + payload)
  {
    HeaderBytes(ext, root);
  }

  /** Once the prefix, the sections and the tree are known, what is left is stripping and decoding. */
  lemma DecompressOfParts(file: seq<Byte>, p: Prefix, header: Bits, serialData: Bits, root: Node)
    requires ReadPrefix(file) == Ok(p) && Sections(p) == (header, serialData)
    requires TreeOf(header, p.headerLength) == Ok(root)
    ensures var stripped := StripPadding(serialData);
      DecompressFile(file) ==
        if stripped.Err? then Err(stripped.error)
        else Ok(Decoded(p.ext, DecodeFrom(root, stripped.value, 0)))
  {
  }

  /** The fields in front of the tree read back as the extension, the header length and the rest. */
  lemma ReadLayout(ext: seq<Byte>, h: nat, rest: seq<Byte>)
    requires |ext| < 128 && h < 0x8000_0000
    ensures ReadPrefix([ToByte(|ext|)] + ext + LengthField(h) + rest) == Ok(Prefix(ext, h, rest))
  {
    var file := [ToByte(|ext|)] + ext + LengthField(h) + rest;
    SmallLength(|ext|);
    var e := 1 + |ext|;
    assert file[0] == ToByte(|ext|) && file[1..e] == ext;
    assert file[e..e + 4] == LengthField(h) && file[e + 4..] == rest;
    LengthFieldRoundTrip(h);
  }

  /** The header length rounded up to bytes splits the rest into the tree bytes and the payload. */
  lemma SectionsLayout(s: Bits, tree: seq<Byte>, payload: seq<Byte>)
    requires |tree| == (|s| + Padding(|s|)) / 8
    ensures forall ext :: Sections(Prefix(ext, |s|, tree + payload)) == (Unpack(tree), Unpack(payload))
  {
    HeaderByteCountOfPadding(|s|);
    var rest := tree + payload;
    assert rest[..|tree|] == tree && rest[|tree|..] == payload;
  }

  /**
   * Decompressing what the compressor wrote gives back the extension and the bytes, for any tree
   * whose table covers the input and whose header length fits in an `int`.
   */
  lemma RoundTripAnyTree(ext: seq<Byte>, root: Node, data: seq<Byte>)
    requires forall b :: b in data ==> b in CodeTable(root)
    requires |ext| < 128 && |Serialize(root)| < 0x8000_0000
    ensures DecompressFile(CompressedFile(ext, root, data)) == Ok(Decoded(ext, data))
  {
    var bits := EncodeWith(CodeTable(root), data);
    assert DecompressFile(CompressedFile(ext, root, data)) == Ok(Decoded(ext, DecodeFrom(Erase(root), bits, 0))) by {
      DecodeLayout(ext, root, PayloadBytes(bits));
      StripPayload(bits);
    }
    DecodeAll(root, data, bits);
  }

  /** The code bits of the input, decoded on the rebuilt tree, are the input. */
  lemma DecodeAll(root: Node, data: seq<Byte>, bits: Bits)
    requires forall b :: b in data ==> b in CodeTable(root)
    requires bits == EncodeWith(CodeTable(root), data)
    ensures DecodeFrom(Erase(root), bits, 0) == data
  {
    CodeTableOfErase(root);
    assert bits[0..|bits|] == bits;
    DecodeEncoded(Erase(root), data, bits, 0);
    assert data + [] == data;
  }

  /**
   * The round trip for the trees the compressor builds: a non-empty input, the tree built from
   * its histogram and an extension shorter than 128 characters.
   */
  lemma RoundTrip(ext: seq<Byte>, root: Node, data: seq<Byte>)
    requires |data| > 0 && CodeTreeFor(root, Histogram(data)) && |ext| < 128
    ensures forall b :: b in data ==> b in CodeTable(root)
    ensures DecompressFile(CompressedFile(ext, root, data)) == Ok(Decoded(ext, data))
  {
    CodesCoverInput(root, data);
    HuffmanTreeShape(root, Histogram(data));
    SerializeLength(root);
    InternalCountOfWellShaped(root);
    RoundTripAnyTree(ext, root, data);
  }

  /**
   * The file `writeToFile` actually writes round-trips too, as long as the code bits do not end
   * on a byte boundary.
   */
  lemma RoundTripAsWritten(ext: seq<Byte>, root: Node, data: seq<Byte>)
    requires |data| > 0 && CodeTreeFor(root, Histogram(data)) && |ext| < 128
    requires (forall b :: b in data ==> b in CodeTable(root)) && |EncodeWith(CodeTable(root), data)| % 8 != 0
    ensures DecompressFile(CompressedFileAsWritten(ext, root, data)) == Ok(Decoded(ext, data))
  {
    RoundTrip(ext, root, data);
  }

  /** Code bits that fill whole bytes: the corrected payload carries them and the count 0 alone. */
  lemma AlignedPayload(bits: Bits)
    requires |bits| % 8 == 0
    ensures Unpack(PayloadBytes(bits)) == bits + ByteBits(ToByte(0))
  {
    var n := |bits| / 8;
    PayloadOfTail(bits, n);
    assert bits[8 * n..] == [] && bits[..8 * n] == bits;
    UnpackAppend(Pack(bits), [ToByte(0)]);
    UnpackOfPack(bits);
    UnpackOne(ToByte(0));
  }

  /** Eight zero bits at the end are a padding count of 0: stripping leaves what came before. */
  lemma StripZeroCount(v: Bits)
    ensures StripPadding(v + ByteBits(ToByte(0))) == Ok(v)
  {
    var u := v + ByteBits(ToByte(0));
    SmallLength(0);
    ByteBitsValue(ToByte(0));
    assert u[|u| - 8..] == ByteBits(ToByte(0));
    assert u[..|u| - 8] == v;
  }

  /**
   * As written, code bits that fill whole bytes come back from the payload with eight extra
   * zero bits: the first zero byte is taken for data and the second for the padding count.
   */
  lemma AlignedAsWrittenBits(bits: Bits)
    requires |bits| % 8 == 0
    ensures StripPadding(Unpack(PayloadBytesAsWritten(bits))) == Ok(bits + ByteBits(ToByte(0)))
  {
    var zero := ByteBits(ToByte(0));
    AsWrittenDiffersOnlyWhenAligned(bits);
    AlignedPayload(bits);
    UnpackSnoc(PayloadBytes(bits), ToByte(0));
    assert Unpack(PayloadBytesAsWritten(bits)) == (bits + zero) + zero;
    StripZeroCount(bits + zero);
  }

  /**
   * As written, a payload whose code bits fill whole bytes decodes to more bytes than went in:
   * the extra zero byte stays among the code bits and is decoded too.
   */
  lemma AsWrittenAlignedPayload(ext: seq<Byte>, root: Node, data: seq<Byte>)
    requires forall b :: b in data ==> b in CodeTable(root)
    requires |ext| < 128 && |Serialize(root)| < 0x8000_0000
    requires |EncodeWith(CodeTable(root), data)| % 8 == 0
    ensures var r := DecompressFile(CompressedFileAsWritten(ext, root, data));
      r.Ok? && r.value.ext == ext && |r.value.data| > |data| && r.value.data[..|data|] == data
    ensures DecompressFile(CompressedFileAsWritten(ext, root, data)) != Ok(Decoded(ext, data))
  {
    var bits := EncodeWith(CodeTable(root), data);
    var longer := bits + ByteBits(ToByte(0));
    AsWrittenAlignedFile(ext, root, data);
    DecodeWithExtraZeros(root, data);
    var out := DecodeFrom(Erase(root), longer, 0);
    assert out[..|data|] == data;
  }

  /** The file as written, with aligned code bits, decodes as the code bits and eight zero bits. */
  lemma AsWrittenAlignedFile(ext: seq<Byte>, root: Node, data: seq<Byte>)
    requires forall b :: b in data ==> b in CodeTable(root)
    requires |ext| < 128 && |Serialize(root)| < 0x8000_0000
    requires |EncodeWith(CodeTable(root), data)| % 8 == 0
    ensures DecompressFile(CompressedFileAsWritten(ext, root, data)) ==
      Ok(Decoded(ext, DecodeFrom(Erase(root), EncodeWith(CodeTable(root), data) + ByteBits(ToByte(0)), 0)))
  {
    var bits := EncodeWith(CodeTable(root), data);
    DecodeLayout(ext, root, PayloadBytesAsWritten(bits));
    AlignedAsWrittenBits(bits);
  }

  /** The codes of `data` followed by eight zero bits decode to `data` and at least one byte more. */
  lemma DecodeWithExtraZeros(root: Node, data: seq<Byte>)
    requires forall b :: b in data ==> b in CodeTable(root)
    ensures var bits := EncodeWith(CodeTable(root), data);
      var longer := bits + ByteBits(ToByte(0));
      DecodeFrom(Erase(root), longer, 0) == data + DecodeFrom(Erase(root), longer, |bits|) &&
      |DecodeFrom(Erase(root), longer, |bits|)| > 0
  {
    var bits := EncodeWith(CodeTable(root), data);
    var longer := bits + ByteBits(ToByte(0));
    CodeTableOfErase(root);
    assert longer[0..|bits|] == bits;
    DecodeEncoded(Erase(root), data, longer, 0);
  }

  /** With a lone-leaf root, the walk writes the leaf's byte once for every bit. */
  lemma {:induction false} DecodeLeafRoot(s: Byte, bits: Bits, i: nat)
    requires i <= |bits|
    ensures DecodeFrom(Leaf(s, 0), bits, i) == seq(|bits| - i, _ => s)
    decreases |bits| - i
  {
    if i < |bits| {
      DecodeLeafRoot(s, bits, i + 1);
    }
  }

  /** A single repeated byte under a lone leaf: one `1` per byte. */
  lemma {:induction false} EncodeLeaf(s: Byte, n: nat)
    ensures forall b :: b in seq(n, _ => s) ==> b in CodeTable(Leaf(s, n))
    ensures EncodeWith(CodeTable(Leaf(s, n)), seq(n, _ => s)) == seq(n, _ => true)
  {
    var data := seq(n, _ => s);
    if n > 0 {
      EncodeLeafPrefix(s, n, n);
    }
  }

  lemma {:induction false} EncodeLeafPrefix(s: Byte, f: nat, k: nat)
    requires k <= f
    ensures forall b :: b in seq(k, _ => s) ==> b in CodeTable(Leaf(s, f))
    ensures EncodeWith(CodeTable(Leaf(s, f)), seq(k, _ => s)) == seq(k, _ => true)
  {
    if k > 0 {
      var data := seq(k, _ => s);
      assert data[..k - 1] == seq(k - 1, _ => s);
      EncodeLeafPrefix(s, f, k - 1);
      assert seq(k - 1, _ => true) + [true] == seq(k, _ => true);
    }
  }

  /**
   * `n` copies of one byte, `n` a multiple of 8, under the lone-leaf tree the compressor builds
   * for them: one '1' per byte fills whole bytes, and the file as written decodes to `n + 8`
   * copies (eight copies of 0x41 come back as sixteen).
   */
  lemma AsWrittenLoneLeaf(s: Byte, n: nat)
    requires n % 8 == 0
    ensures var data := seq(n, _ => s);
      var root := Leaf(s, n);
      (forall b :: b in data ==> b in CodeTable(root)) &&
      DecompressFile(CompressedFileAsWritten([], root, data)) == Ok(Decoded([], seq(n + 8, _ => s)))
  {
    var data := seq(n, _ => s);
    var root := Leaf(s, n);
    var longer := seq(n, _ => true) + ByteBits(ToByte(0));
    EncodeLeaf(s, n);
    assert DecompressFile(CompressedFileAsWritten([], root, data)) == Ok(Decoded([], DecodeFrom(Leaf(s, 0), longer, 0))) by {
      assert |Serialize(root)| == 9;
      AsWrittenAlignedFile([], root, data);
    }
    DecodeLeafRoot(s, longer, 0);
  }

  /**
   * The same for the tree the compressor builds: for `n > 0` copies of one byte, `n` a multiple
   * of 8, every tree built from their histogram gives a file that, as written, decodes to
   * `n + 8` copies.
   */
  lemma AsWrittenLoneByte(s: Byte, n: nat, root: Node)
    requires n > 0 && n % 8 == 0 && CodeTreeFor(root, Histogram(seq(n, _ => s)))
    ensures var data := seq(n, _ => s);
      (forall b :: b in data ==> b in CodeTable(root)) &&
      DecompressFile(CompressedFileAsWritten([], root, data)) == Ok(Decoded([], seq(n + 8, _ => s)))
  {
    LoneByteTree(s, n, root);
    AsWrittenLoneLeaf(s, n);
  }
}
