/**
 * MD5 over a byte stream, as MD5Gif/Program.cs drives transform_block: 64-byte blocks read as
 * sixteen little-endian words, folded into the chaining value from the initial value of section
 * 3.3 of RFC 1321, and the final block padded as sections 3.1 and 3.2 prescribe.
 */
module Digest {
  import opened Bits
  import opened Md5

  /** The initial chaining value of section 3.3 of RFC 1321 (the IV array of Main). */
  const InitIV: seq<Word> := [0x67452301, 0xefcdab89, 0x98badcfe, 0x10325476]

  /** Four bytes read as a little-endian 32-bit word. */
  function WordOf(b0: byte, b1: byte, b2: byte, b3: byte): Word
  {
    (b0 as int + 256 * b1 as int + 65536 * b2 as int + 16777216 * b3 as int) as Word
  }

  /** A 64-byte block as the 16 words transform_block reads. */
  function Words(block: seq<byte>): (w: seq<Word>)
    requires |block| == 64
    ensures |w| == 16
  {
    seq(16, i requires 0 <= i < 16 => WordOf(block[4 * i], block[4 * i + 1], block[4 * i + 2], block[4 * i + 3]))
  }

  /** The chaining value after folding in every whole 64-byte block of s; a shorter rest is left over. */
  function Chain(iv: seq<Word>, s: seq<byte>): (r: seq<Word>)
    requires |iv| == 4
    ensures |r| == 4
    decreases |s|
  {
    if |s| < 64 then iv else Chain(Compress(iv, Words(s[..64])), s[64..])
  }

  /** Folding a whole number of blocks and then more is folding in two goes. */
  lemma {:induction false} ChainAppend(iv: seq<Word>, a: seq<byte>, b: seq<byte>)
    requires |iv| == 4 && |a| % 64 == 0
    ensures Chain(iv, a + b) == Chain(Chain(iv, a), b)
    decreases |a|
  {
    if |a| > 0 {
      assert (a + b)[..64] == a[..64];
      assert (a + b)[64..] == a[64..] + b;
      ChainAppend(Compress(iv, Words(a[..64])), a[64..], b);
    } else {
      assert a + b == b;
    }
  }

  /** Folding one more block is one more call of the block function. */
  lemma ChainBlock(iv: seq<Word>, a: seq<byte>, block: seq<byte>)
    requires |iv| == 4 && |a| % 64 == 0 && |block| == 64
    ensures Chain(iv, a + block) == Compress(Chain(iv, a), Words(block))
  {
    ChainAppend(iv, a, block);
    ChainOne(Chain(iv, a), block);
  }

  lemma ChainOne(iv: seq<Word>, block: seq<byte>)
    requires |iv| == 4 && |block| == 64
    ensures Chain(iv, block) == Compress(iv, Words(block))
  {
    assert block[..64] == block;
    var next := Compress(iv, Words(block));
    assert Chain(iv, block) == Chain(next, block[64..]);
    assert |block[64..]| == 0;
  }

  /** The k low bytes of v, least significant first. */
  function LittleEndian(v: nat, k: nat): (r: seq<byte>)
    ensures |r| == k
    decreases k
  {
    if k == 0 then [] else [(v % 256) as byte] + LittleEndian(v / 256, k - 1)
  }

  /** The number a little-endian byte string denotes. */
  function FromLittleEndian(bs: seq<byte>): nat
    decreases |bs|
  {
    if bs == [] then 0 else bs[0] as nat + 256 * FromLittleEndian(bs[1..])
  }

  /** Reading back the k bytes of a value below 256^k gives the value. */
  lemma {:induction false} LittleEndianRoundTrip(v: nat, k: nat)
    requires v < Pow2(8 * k)
    ensures FromLittleEndian(LittleEndian(v, k)) == v
    decreases k
  {
    if k > 0 {
      var r := LittleEndian(v, k);
      assert r[1..] == LittleEndian(v / 256, k - 1);
      Pow2Plus8(8 * (k - 1));
      LittleEndianRoundTrip(v / 256, k - 1);
    }
  }

  /** v as 8 little-endian bytes, as *(ulong*) stores it. */
  function LE64(v: nat): (r: seq<byte>)
    requires v < 0x1_0000_0000_0000_0000
    ensures |r| == 8
  {
    seq(8, i requires 0 <= i < 8 => (v / Pow2(8 * i) % 256) as byte)
  }

  function Zeros(n: nat): (r: seq<byte>)
    ensures |r| == n && forall i :: 0 <= i < n ==> r[i] == 0
  {
    seq(n, _ => 0)
  }

  /**
   * The padding of sections 3.1 and 3.2 of RFC 1321 for a message of n bytes: a single 1 bit
   * (the byte 0x80), zero bytes up to 56 modulo 64, then the bit length modulo 2^64, low byte first.
   */
  function Padding(n: nat): (r: seq<byte>)
  {
    var zeros := if n % 64 <= 55 then 55 - n % 64 else 119 - n % 64;
    [0x80] + Zeros(zeros) + LE64(n * 8 % 0x1_0000_0000_0000_0000)
  }

  /** The padding makes whole blocks, adds at least one and at most 72 bytes, and puts the length last. */
  lemma PaddingLength(n: nat)
    ensures (n + |Padding(n)|) % 64 == 0
    ensures 9 <= |Padding(n)| <= 72
    ensures Padding(n)[|Padding(n)| - 8..] == LE64(n * 8 % 0x1_0000_0000_0000_0000)
  {
  }

  /** The four words of the MD5 digest of msg, before they are written out as 16 little-endian bytes. */
  function Md5State(msg: seq<byte>): (r: seq<Word>)
    ensures |r| == 4
  {
    Chain(InitIV, msg + Padding(|msg|))
  }

  /** The message digest of section 3.5 of RFC 1321: the words A, B, C, D, each low-order byte first. */
  function DigestBytes(w: seq<Word>): (r: seq<bv8>)
    requires |w| == 4
    ensures |r| == 16
  {
    seq(16, i requires 0 <= i < 16 => (w[i / 4] as int / Pow2(8 * (i % 4)) % 256) as bv8)
  }

  /**
   * When the last partial block has room for the padding (at most 55 bytes), the digest is one
   * more block function on the chaining value of the aligned prefix.
   */
  lemma DigestOfLastBlock(msg: seq<byte>, a: nat)
    requires a == |msg| - |msg| % 64 && |msg| % 64 <= 55
    ensures |msg[a..] + Padding(|msg|)| == 64
    ensures Md5State(msg) == Compress(Chain(InitIV, msg[..a]), Words(msg[a..] + Padding(|msg|)))
  {
    var pad := Padding(|msg|);
    PaddingLength(|msg|);
    assert |pad| == 64 - |msg| % 64;
    var block := msg[a..] + pad;
    assert msg == msg[..a] + msg[a..];
    assert msg + pad == msg[..a] + block;
    ChainBlock(InitIV, msg[..a], block);
  }
}
