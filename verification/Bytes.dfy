/** Bytes, big-endian integers and exclusive or, as the two codecs use them. */
module Bytes {

  import opened Arithmetic

  type Byte = x: int | 0 <= x < 256

  function Pow256(n: nat): (r: nat)
    ensures r >= 1
  {
    if n == 0 then 1 else 256 * Pow256(n - 1)
  }

  /** The n low-order bytes of v, most significant first. */
  function BigEndian(n: nat, v: nat): (r: seq<Byte>)
    ensures |r| == n
  {
    if n == 0 then [] else BigEndian(n - 1, v / 256) + [v % 256]
  }

  function FromBigEndian(s: seq<Byte>): (r: nat)
    ensures r < Pow256(|s|)
  {
    if s == [] then 0 else FromBigEndian(s[..|s| - 1]) * 256 + s[|s| - 1]
  }

  /** Writing an integer that fits and reading it back. */
  lemma {:induction false} BigEndianRoundTrip(n: nat, v: nat)
    requires v < Pow256(n)
    ensures FromBigEndian(BigEndian(n, v)) == v
  {
    if n > 0 {
      BigEndianRoundTrip(n - 1, v / 256);
      var s := BigEndian(n, v);
      assert s[..n - 1] == BigEndian(n - 1, v / 256);
    }
  }

  /** Reading bytes and writing them back. */
  lemma {:induction false} FromBigEndianRoundTrip(s: seq<Byte>)
    ensures BigEndian(|s|, FromBigEndian(s)) == s
  {
    if s != [] {
      FromBigEndianRoundTrip(s[..|s| - 1]);
      LowByte(FromBigEndian(s[..|s| - 1]), s[|s| - 1]);
    }
  }

  lemma LowByte(x: nat, b: Byte)
    ensures (x * 256 + b) / 256 == x && (x * 256 + b) % 256 == b
  {
  }

  /** Different integers that fit have different encodings. */
  lemma BigEndianInjective(n: nat, v: nat, w: nat)
    requires v < Pow256(n) && w < Pow256(n) && BigEndian(n, v) == BigEndian(n, w)
    ensures v == w
  {
    BigEndianRoundTrip(n, v);
    BigEndianRoundTrip(n, w);
  }

  /** v >> 8k */
  function ShiftBytes(v: nat, k: nat): (r: nat)
    decreases k
  {
    if k == 0 then v else ShiftBytes(v / 256, k - 1)
  }

  /** Byte i of the encoding is the integer shifted right by the bytes after it. */
  lemma {:induction false} BigEndianAt(n: nat, v: nat, i: nat)
    requires i < n
    ensures BigEndian(n, v)[i] == ShiftBytes(v, n - 1 - i) % 256
  {
    if i < n - 1 {
      BigEndianAt(n - 1, v / 256, i);
    }
  }

  lemma {:induction false} ShiftIsQuotient(v: nat, k: nat)
    ensures ShiftBytes(v, k) == v / Pow256(k)
    decreases k
  {
    if k > 0 {
      ShiftIsQuotient(v / 256, k - 1);
      QuotientTwice(v, Pow256(k - 1));
    }
  }

  /** Bitwise exclusive or of the low n bits. */
  function XorBits(n: nat, a: nat, b: nat): (r: nat) {
    if n == 0 then 0 else 2 * XorBits(n - 1, a / 2, b / 2) + (a + b) % 2
  }

  /** Bit i of a, from the low end. */
  function Bit(a: nat, i: nat): nat { if i == 0 then a % 2 else Bit(a / 2, i - 1) }

  lemma {:induction false} XorBitwise(n: nat, a: nat, b: nat, i: nat)
    requires i < n
    ensures Bit(XorBits(n, a, b), i) == if Bit(a, i) == Bit(b, i) then 0 else 1
    decreases i
  {
    Halves(XorBits(n - 1, a / 2, b / 2), (a + b) % 2);
    if i > 0 { XorBitwise(n - 1, a / 2, b / 2, i - 1); }
  }

  lemma Halves(x: nat, bit: nat)
    requires bit < 2
    ensures (2 * x + bit) / 2 == x && (2 * x + bit) % 2 == bit
  {
  }

  function Pow2(n: nat): nat { if n == 0 then 1 else 2 * Pow2(n - 1) }

  lemma {:induction false} XorFits(n: nat, a: nat, b: nat)
    ensures XorBits(n, a, b) < Pow2(n)
  {
    if n > 0 { XorFits(n - 1, a / 2, b / 2); }
  }

  lemma {:induction false} XorCancels(n: nat, a: nat, x: nat, y: nat)
    requires x < Pow2(n) && y < Pow2(n) && XorBits(n, a, x) == XorBits(n, a, y)
    ensures x == y
  {
    if n > 0 {
      assert (a + x) % 2 == (a + y) % 2;
      XorCancels(n - 1, a / 2, x / 2, y / 2);
    }
  }

  function Xor(a: Byte, b: Byte): (r: Byte) {
    assert XorBits(8, a, b) < 256 by { XorFits(8, a, b); assert Pow2(8) == 256; }
    XorBits(8, a, b)
  }

  /** The exclusive or of two bytes has exactly the bits in which they differ. */
  lemma XorHasDifferingBits(a: Byte, b: Byte, i: nat)
    requires i < 8
    ensures Bit(Xor(a, b), i) == if Bit(a, i) == Bit(b, i) then 0 else 1
  {
    XorBitwise(8, a, b, i);
  }

  lemma XorInjective(a: Byte, x: Byte, y: Byte)
    requires Xor(a, x) == Xor(a, y)
    ensures x == y
  {
    assert Pow2(8) == 256;
    XorCancels(8, a, x, y);
  }
}
