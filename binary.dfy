/** Java bytes and the '0'/'1' bit strings the codec builds with StringBuilder. */
module Binary {

  /** A Java `byte`: signed, two's complement, -128..127. */
  newtype Byte = x: int | -128 <= x < 128

  /** A string of '0'/'1' characters; `true` stands for '1' and `false` for '0'. */
  type Bits = seq<bool>

  function Pow2(n: nat): (r: nat)
    ensures r >= 1
  {
    if n == 0 then 1 else 2 * Pow2(n - 1)
  }

  /** `b & 0xFF`: the table index the codec uses for a byte (negative bytes are shifted by 256). */
  function Unsigned(b: Byte): (u: nat)
    ensures u < 256
    ensures u == if b < 0 then b as int + 256 else b as int
  {
    (b as int) % 256
  }

  /** Java's narrowing cast `(byte) v`: the low 8 bits of `v`, read as two's complement. */
  function ToByte(v: int): (b: Byte)
    ensures Unsigned(b) == v % 256
  {
    var u := v % 256;
    if u < 128 then u as Byte else (u - 256) as Byte
  }

  lemma ToByteOfUnsigned(b: Byte)
    ensures ToByte(Unsigned(b)) == b
  {
  }

  /** On 0..255 the cast `(byte) v` is one-to-one, undone by `& 0xFF`. */
  lemma ToByteIndex(v: int, b: Byte)
    requires 0 <= v < 256
    ensures ToByte(v) == b <==> v == Unsigned(b)
  {
  }

  lemma MulMono(d: int, a: int, b: int)
    requires d >= 0
    ensures a <= b ==> d * a <= d * b
  {
  }

  /** Division with remainder is unique (Dafny's `/` and `%` are Euclidean). */
  lemma DivModUnique(u: int, d: int, q: int, r: int)
    requires d > 0 && 0 <= r < d && u == d * q + r
    ensures u / d == q && u % d == r
  {
    var q', r' := u / d, u % d;
    assert u == d * q' + r';
    MulMono(d, q + 1, q');
    MulMono(d, q' + 1, q);
  }

  lemma DivDiv(u: nat, a: nat)
    requires a > 0
    ensures u / a / 2 == u / (2 * a)
  {
    var q, r := u / (2 * a), u % (2 * a);
    var r1, r0 := r / a, r % a;
    assert r1 < 2 by {
      MulMono(a, 2, r1);
    }
    assert u == a * (2 * q + r1) + r0;
    DivModUnique(u, a, 2 * q + r1, r0);
  }

  /** Dividing by 2^(i-1) and then by 2 is dividing by 2^i. */
  lemma DivPow2Step(u: nat, i: nat)
    requires i >= 1
    ensures u / Pow2(i - 1) / 2 == u / Pow2(i)
  {
    DivDiv(u, Pow2(i - 1));
  }

  /** The low `n` bits of `u`, most significant first. */
  function NatToBits(u: nat, n: nat): (s: Bits)
    ensures |s| == n
  {
    if n == 0 then [] else NatToBits(u / 2, n - 1) + [u % 2 == 1]
  }

  /** `Integer.parseInt(s, 2)` on a string of '0'/'1' characters. */
  function BitsToNat(s: Bits): (u: nat)
    ensures u < Pow2(|s|)
  {
    if s == [] then 0 else 2 * BitsToNat(s[..|s| - 1]) + (if s[|s| - 1] then 1 else 0)
  }

  lemma {:induction false} BitsToNatOfNatToBits(u: nat, n: nat)
    requires u < Pow2(n)
    ensures BitsToNat(NatToBits(u, n)) == u
  {
    if n > 0 {
      var s := NatToBits(u, n);
      assert s[..n - 1] == NatToBits(u / 2, n - 1);
      BitsToNatOfNatToBits(u / 2, n - 1);
    }
  }

  lemma Pow2Of8()
    ensures Pow2(8) == 256
  {
    assert Pow2(2) == 4;
    assert Pow2(4) == 16;
    assert Pow2(6) == 64;
  }

  lemma {:induction false} NatToBitsOfBitsToNat(s: Bits)
    ensures NatToBits(BitsToNat(s), |s|) == s
  {
    if s != [] {
      var n := |s|;
      var v := BitsToNat(s[..n - 1]);
      var last := if s[n - 1] then 1 else 0;
      DivModUnique(2 * v + last, 2, v, last);
      NatToBitsOfBitsToNat(s[..n - 1]);
      assert s == s[..n - 1] + [s[n - 1]];
    }
  }

  /** `byteToBinaryString(b)`: the 8 bits of `b`, most significant first. */
  function ByteBits(b: Byte): (s: Bits)
    ensures |s| == 8
  {
    NatToBits(Unsigned(b), 8)
  }

  /** `(byte) Integer.parseInt(s, 2)`. */
  function ParseByte(s: Bits): Byte
  {
    ToByte(BitsToNat(s))
  }

  lemma ParseByteOfByteBits(b: Byte)
    ensures ParseByte(ByteBits(b)) == b
  {
    Pow2Of8();
    BitsToNatOfNatToBits(Unsigned(b), 8);
  }

  lemma ByteBitsOfParseByte(s: Bits)
    requires |s| == 8
    ensures ByteBits(ParseByte(s)) == s
  {
    var v := BitsToNat(s);
    Pow2Of8();
    assert Unsigned(ToByte(v)) == v;
    NatToBitsOfBitsToNat(s);
  }

  /** The bits of a non-negative byte read back as its value. */
  lemma ByteBitsValue(b: Byte)
    requires b >= 0
    ensures BitsToNat(ByteBits(b)) == b as int
  {
    var u := Unsigned(b);
    assert u == b as int;
    Pow2Of8();
    BitsToNatOfNatToBits(u, 8);
  }

  /** Adding an even multiple of `p` does not change bit 0 of the quotient by `p`. */
  lemma QuotientParity(x: int, p: int, e: int)
    requires p > 0
    ensures ((x + p * (2 * e)) / p) % 2 == (x / p) % 2
  {
    var q, r := x / p, x % p;
    assert x + p * (2 * e) == p * (q + 2 * e) + r;
    DivModUnique(x + p * (2 * e), p, q + 2 * e, r);
  }

  /** `(b >> i) & 1` on a signed byte reads bit `i` of its unsigned value. */
  lemma ShiftBit(b: Byte, i: nat)
    requires i < 8
    ensures ((b as int) / Pow2(i)) % 2 == (Unsigned(b) / Pow2(i)) % 2
  {
    if b < 0 {
      var p, e := Pow2(i), Pow2(7 - i);
      assert 256 == p * (2 * e) by {
        PowAdd(i, 8 - i);
        Pow2Of8();
      }
      QuotientParity(b as int, p, e);
    }
  }

  lemma {:induction false} PowAdd(a: nat, b: nat)
    ensures Pow2(a) * Pow2(b) == Pow2(a + b)
  {
    if a > 0 {
      PowAdd(a - 1, b);
    }
  }

  /** The loop of `byteToBinaryString` (CompressScene) and `convertByteToBinary` (DecompressScene). */
  method ByteToBinaryString(b: Byte) returns (s: Bits)
    ensures s == ByteBits(b)
    ensures ParseByte(s) == b
  {
    s := [];
    var i := 8;
    while i > 0
      invariant 0 <= i <= 8
      invariant s == NatToBits(Unsigned(b) / Pow2(i), 8 - i)
    {
      i := i - 1;
      var bit := ((b as int) / Pow2(i)) % 2;
      ShiftBit(b, i);
      DivPow2Step(Unsigned(b), i + 1);
      s := s + [bit == 1];
    }
    assert Unsigned(b) / Pow2(0) == Unsigned(b);
    ParseByteOfByteBits(b);
  }

  /** Bytes of a bit string whose length is a multiple of 8, each read by `(byte) Integer.parseInt(..., 2)`. */
  function Pack(bits: Bits): (bytes: seq<Byte>)
    requires |bits| % 8 == 0
    ensures |bytes| == |bits| / 8
  {
    if bits == [] then [] else [ParseByte(bits[..8])] + Pack(bits[8..])
  }

  /** The concatenated 8-bit strings of a byte sequence. */
  function Unpack(bytes: seq<Byte>): (bits: Bits)
    ensures |bits| == 8 * |bytes|
  {
    if bytes == [] then [] else ByteBits(bytes[0]) + Unpack(bytes[1..])
  }

  lemma {:induction false} UnpackOfPack(bits: Bits)
    requires |bits| % 8 == 0
    ensures Unpack(Pack(bits)) == bits
  {
    if bits != [] {
      ByteBitsOfParseByte(bits[..8]);
      UnpackOfPack(bits[8..]);
      assert bits == bits[..8] + bits[8..];
    }
  }

  lemma {:induction false} PackOfUnpack(bytes: seq<Byte>)
    ensures Pack(Unpack(bytes)) == bytes
  {
    if bytes != [] {
      var bits := Unpack(bytes);
      assert bits[..8] == ByteBits(bytes[0]);
      assert bits[8..] == Unpack(bytes[1..]);
      ParseByteOfByteBits(bytes[0]);
      PackOfUnpack(bytes[1..]);
    }
  }

  lemma {:induction false} PackAppend(a: Bits, b: Bits)
    requires |a| % 8 == 0 && |b| % 8 == 0
    ensures Pack(a + b) == Pack(a) + Pack(b)
  {
    if a != [] {
      assert (a + b)[..8] == a[..8];
      assert (a + b)[8..] == a[8..] + b;
      PackAppend(a[8..], b);
    } else {
      assert a + b == b;
    }
  }

  lemma {:induction false} UnpackAppend(a: seq<Byte>, b: seq<Byte>)
    ensures Unpack(a + b) == Unpack(a) + Unpack(b)
  {
    if a != [] {
      assert (a + b)[0] == a[0];
      assert (a + b)[1..] == a[1..] + b;
      UnpackAppend(a[1..], b);
    } else {
      assert a + b == b;
    }
  }

  lemma UnpackOne(b: Byte)
    ensures Unpack([b]) == ByteBits(b)
  {
    assert [b][1..] == [];
  }

  lemma UnpackSnoc(bytes: seq<Byte>, b: Byte)
    ensures Unpack(bytes + [b]) == Unpack(bytes) + ByteBits(b)
  {
    UnpackAppend(bytes, [b]);
    UnpackOne(b);
  }

  /** Bit strings made of whole bytes and then more whole bytes pack back to those bytes first. */
  lemma PackAfterUnpack(bytes: seq<Byte>, rest: Bits)
    requires |rest| % 8 == 0
    ensures Pack(Unpack(bytes) + rest) == bytes + Pack(rest)
  {
    var u := Unpack(bytes);
    assert |u| % 8 == 0 by {
      DivModUnique(|u|, 8, |bytes|, 0);
    }
    PackAppend(u, rest);
    PackOfUnpack(bytes);
  }

  /** The first `k` bytes of a bit string. */
  function PackPrefix(bits: Bits, k: nat): (bytes: seq<Byte>)
    requires 8 * k <= |bits|
    ensures |bytes| == k
  {
    Pack(bits[..8 * k])
  }

  /** The `k`-th byte of a bit string extends the packing of the `k` bytes before it. */
  lemma PackSnoc(bits: Bits, k: nat)
    requires 8 * k + 8 <= |bits|
    ensures PackPrefix(bits, k + 1) == PackPrefix(bits, k) + [ParseByte(bits[8 * k..8 * k + 8])]
  {
    var next := bits[8 * k..8 * k + 8];
    assert bits[..8 * k + 8] == bits[..8 * k] + next;
    PackAppend(bits[..8 * k], next);
    assert next[..8] == next && next[8..] == [];
  }

  lemma PackPrefixAll(bits: Bits)
    requires |bits| % 8 == 0
    ensures PackPrefix(bits, |bits| / 8) == Pack(bits)
  {
    assert bits[..8 * (|bits| / 8)] == bits;
  }
}
