/**
 * Bits and bytes as the GIF LZW writer of MD5Gif/LzwEncoder.cs packs them: each code's bits
 * go into the byte stream least significant bit first.
 */
module Bits {

  newtype byte = x: int | 0 <= x < 256

  datatype Option<T> = None | Some(value: T)

  function Pow2(n: nat): (p: nat)
    ensures p >= 1
  {
    if n == 0 then 1 else 2 * Pow2(n - 1)
  }

  /** v shifted left by k bits. */
  function Shl(v: nat, k: nat): nat
  {
    if k == 0 then v else 2 * Shl(v, k - 1)
  }

  /** The low w bits of v, least significant first. */
  function CodeBits(v: nat, w: nat): (r: seq<bool>)
    ensures |r| == w
  {
    if w == 0 then [] else [v % 2 == 1] + CodeBits(v / 2, w - 1)
  }

  /** The number a sequence of bits, least significant first, stands for. */
  function Value(bs: seq<bool>): (v: nat)
    ensures v < Pow2(|bs|)
  {
    if bs == [] then 0 else (if bs[0] then 1 else 0) + 2 * Value(bs[1..])
  }

  /** Reading back the bits of a w-bit value gives the value. */
  lemma {:induction false} ValueOfCodeBits(v: nat, w: nat)
    requires v < Pow2(w)
    ensures Value(CodeBits(v, w)) == v
  {
    if w > 0 {
      ValueOfCodeBits(v / 2, w - 1);
      assert CodeBits(v, w)[1..] == CodeBits(v / 2, w - 1);
    }
  }

  /** Writing the value of a bit sequence in that many bits gives the sequence back. */
  lemma {:induction false} CodeBitsOfValue(bs: seq<bool>)
    ensures CodeBits(Value(bs), |bs|) == bs
  {
    if bs != [] {
      CodeBitsOfValue(bs[1..]);
      var v := Value(bs);
      assert v % 2 == 1 <==> bs[0];
      assert v / 2 == Value(bs[1..]);
    }
  }

  /** Shifting left by k multiplies by 2^k. */
  lemma {:induction false} ShlIsMul(v: nat, k: nat)
    ensures Shl(v, k) == v * Pow2(k)
  {
    if k > 0 {
      ShlIsMul(v, k - 1);
      assert v * Pow2(k) == 2 * (v * Pow2(k - 1));
    }
  }

  /** The bits of lo + (hi << a), for lo below 2^a, are those of lo and then those of hi. */
  lemma {:induction false} CodeBitsAppend(lo: nat, a: nat, hi: nat, b: nat)
    requires lo < Pow2(a)
    ensures CodeBits(lo + Shl(hi, a), a + b) == CodeBits(lo, a) + CodeBits(hi, b)
  {
    if a > 0 {
      CodeBitsAppend(lo / 2, a - 1, hi, b);
    }
  }

  lemma {:induction false} Pow2Le(a: nat, b: nat)
    requires a <= b
    ensures Pow2(a) <= Pow2(b)
  {
    if a < b {
      Pow2Le(a, b - 1);
    }
  }

  /** lo + (hi << a), for lo below 2^a and hi below 2^b, is below 2^(a + b). */
  lemma {:induction false} Below(lo: nat, a: nat, hi: nat, b: nat)
    requires lo < Pow2(a) && hi < Pow2(b)
    ensures lo + Shl(hi, a) < Pow2(a + b)
  {
    if a > 0 {
      Below(lo / 2, a - 1, hi, b);
    }
  }

  /** Placing a w-bit value above k pending bits: the bits are the old ones, then the value's. */
  lemma Accumulate(pre: seq<bool>, buffer: nat, k: nat, value: nat, w: nat)
    requires buffer < Pow2(k) && value < Pow2(w)
    ensures buffer + Shl(value, k) < Pow2(k + w)
    ensures pre + CodeBits(buffer, k) + CodeBits(value, w) == pre + CodeBits(buffer + Shl(value, k), k + w)
  {
    Below(buffer, k, value, w);
    CodeBitsAppend(buffer, k, value, w);
    var x, y := CodeBits(buffer, k), CodeBits(value, w);
    assert pre + x + y == pre + (x + y);
  }

  lemma {:induction false} Pow2Plus8(k: nat)
    ensures Pow2(k + 8) == 256 * Pow2(k)
  {
    if k == 0 {
      assert Pow2(8) == 256;
    } else {
      Pow2Plus8(k - 1);
      assert k - 1 + 8 == k + 7;
    }
  }

  lemma ShlByte(v: nat)
    ensures Shl(v, 8) == 256 * v
  {
    assert Shl(v, 1) == 2 * v;
    assert Shl(v, 2) == 4 * v;
    assert Shl(v, 3) == 8 * v;
    assert Shl(v, 4) == 16 * v;
    assert Shl(v, 5) == 32 * v;
    assert Shl(v, 6) == 64 * v;
    assert Shl(v, 7) == 128 * v;
  }

  /** Taking the low byte off k >= 8 pending bits. */
  lemma Drain(buffer: nat, k: nat)
    requires 8 <= k && buffer < Pow2(k)
    ensures buffer / 256 < Pow2(k - 8)
    ensures CodeBits(buffer, k) == CodeBits(buffer % 256, 8) + CodeBits(buffer / 256, k - 8)
  {
    Pow2Plus8(k - 8);
    ShlByte(buffer / 256);
    assert buffer % 256 < Pow2(8);
    CodeBitsAppend(buffer % 256, 8, buffer / 256, k - 8);
  }

  /** Zero has only zero bits. */
  lemma {:induction false} CodeBitsOfZero(w: nat)
    ensures forall k | 0 <= k < w :: !CodeBits(0, w)[k]
  {
    if w > 0 {
      CodeBitsOfZero(w - 1);
      assert CodeBits(0, w) == [false] + CodeBits(0, w - 1);
    }
  }

  /** The bits of a byte sequence, byte after byte, each least significant bit first. */
  function BytesBits(bs: seq<byte>): (r: seq<bool>)
    ensures |r| == 8 * |bs|
  {
    if bs == [] then [] else CodeBits(bs[0] as nat, 8) + BytesBits(bs[1..])
  }

  lemma {:induction false} BytesBitsAppend(p: seq<byte>, q: seq<byte>)
    ensures BytesBits(p + q) == BytesBits(p) + BytesBits(q)
  {
    if p == [] {
      assert p + q == q;
    } else {
      assert (p + q)[1..] == p[1..] + q;
      BytesBitsAppend(p[1..], q);
    }
  }

  /**
   * In C#, `Buffer |= value << BufferBits` with Buffer below 2^BufferBits sets only bits that
   * are clear, so the OR is an addition; the writer's model adds.
   */
  lemma OrIsAdd(buffer: bv32, value: bv32, k: bv32)
    requires k < 8 && buffer < (1 << k) && value < 0x100_0000
    ensures buffer | (value << k) == buffer + (value << k)
  {
    assert buffer & (value << k) == 0;
  }

  /** The pending bits, padded with zeros, as one more byte. */
  lemma PadByte(pre: seq<byte>, buffer: nat, k: nat)
    requires 0 < k < 8 && buffer < Pow2(k)
    ensures buffer < 256
    ensures BytesBits(pre + [buffer as byte]) == BytesBits(pre) + CodeBits(buffer, k) + CodeBits(0, 8 - k)
  {
    Pow2Le(k, 8);
    assert Pow2(8) == 256;
    var b := buffer as byte;
    CodeBitsAppend(buffer, k, 0, 8 - k);
    assert Shl(0, k) == 0 by { ShlIsMul(0, k); }
    assert BytesBits([b]) == CodeBits(b as nat, 8);
    BytesBitsAppend(pre, [b]);
  }

  /** Moving the low byte of k >= 8 pending bits to the whole bytes keeps the bits in order. */
  lemma ShiftByte(pre: seq<byte>, buffer: nat, k: nat)
    requires 8 <= k && buffer < Pow2(k)
    ensures buffer / 256 < Pow2(k - 8)
    ensures BytesBits(pre) + CodeBits(buffer, k)
         == BytesBits(pre + [(buffer % 256) as byte]) + CodeBits(buffer / 256, k - 8)
  {
    Drain(buffer, k);
    var b := (buffer % 256) as byte;
    var x, y, z := BytesBits(pre), CodeBits(buffer % 256, 8), CodeBits(buffer / 256, k - 8);
    assert BytesBits([b]) == y;
    BytesBitsAppend(pre, [b]);
    assert x + (y + z) == (x + y) + z;
  }
}
