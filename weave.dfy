/**
 * The collision loop and the tail of MD5Gif/Program.cs as a state machine over the GIF stream:
 * the bytes written so far, the MD5 chaining value IV of the stream up to lastAlignOffset, and
 * collisionCache, the list of colliding pairs with the offset where each was written.
 */
module Weave {
  import opened Bits
  import opened Md5
  import opened Digest
  import opened Layout
  import Digits

  /** One collisionCache entry: where the pair sits in the stream, and which block hides or shows. */
  datatype Record = Record(offset: nat, hideBlock: seq<byte>, showBlock: seq<byte>)

  /** The entries as WriteCommonData leaves them: 128-byte blocks at increasing, disjoint offsets below n. */
  predicate Laid(cache: seq<Record>, n: nat)
  {
    (forall i :: 0 <= i < |cache| ==>
       |cache[i].hideBlock| == 128 && |cache[i].showBlock| == 128 && cache[i].offset + 128 <= n) &&
    (forall i, j :: 0 <= i < j < |cache| ==> cache[i].offset + 128 <= cache[j].offset)
  }

  /** Each entry's window in the stream holds one of its two blocks. */
  predicate Carries(data: seq<byte>, cache: seq<Record>)
    requires Laid(cache, |data|)
  {
    forall i :: 0 <= i < |cache| ==>
      var r := cache[i];
      data[r.offset..r.offset + 128] == r.hideBlock || data[r.offset..r.offset + 128] == r.showBlock
  }

  /** The state the collision loop keeps: IV chains the aligned prefix, and the entries are in place. */
  predicate Weft(data: seq<byte>, ivs: seq<Word>, a: nat, cache: seq<Record>)
  {
    |ivs| == 4 && a % 64 == 0 && a <= |data| && ivs == Chain(InitIV, data[..a]) &&
    Laid(cache, |data|) && Carries(data, cache)
  }

  /** Writing more bytes keeps the state. */
  lemma WeftAppend(data: seq<byte>, more: seq<byte>, ivs: seq<Word>, a: nat, cache: seq<Record>)
    requires Weft(data, ivs, a, cache)
    ensures Weft(data + more, ivs, a, cache)
  {
    var s := data + more;
    assert s[..a] == data[..a];
    forall i | 0 <= i < |cache|
      ensures s[cache[i].offset..cache[i].offset + 128] == data[cache[i].offset..cache[i].offset + 128]
    {
    }
  }

  /** Writing bytes past the aligned prefix and past every entry's window keeps the state. */
  lemma WeftPatch(data: seq<byte>, at: nat, x: seq<byte>, ivs: seq<Word>, a: nat, cache: seq<Record>)
    requires Weft(data, ivs, a, cache) && at + |x| <= |data| && a <= at && Laid(cache, at)
    ensures Weft(Patch(data, at, x), ivs, a, cache)
  {
    var s := Patch(data, at, x);
    assert s[..a] == s[..at][..a] == data[..at][..a] == data[..a];
    forall i | 0 <= i < |cache|
      ensures s[cache[i].offset..cache[i].offset + 128] == data[cache[i].offset..cache[i].offset + 128]
    {
      var o := cache[i].offset;
      assert s[o..o + 128] == s[..at][o..o + 128] && data[o..o + 128] == data[..at][o..o + 128];
    }
  }

  /** Writing a pair's first block and the common data, and adding its entry, keeps the state. */
  lemma WeftAdd(data: seq<byte>, block: seq<byte>, tail: seq<byte>, ivs: seq<Word>, a: nat, cache: seq<Record>, r: Record)
    requires Weft(data, ivs, a, cache)
    requires r.offset == |data| && |r.hideBlock| == 128 && |r.showBlock| == 128
    requires block == r.hideBlock || block == r.showBlock
    ensures Weft(data + block + tail, ivs, a, cache + [r])
  {
    var s := data + (block + tail);
    WeftAppend(data, block + tail, ivs, a, cache);
    assert data + block + tail == s;
    LaidAdd(cache, r, |data|, |s|);
    assert s[|data|..|data| + 128] == block;
    CarriesAdd(s, cache, r);
  }

  lemma LaidAdd(cache: seq<Record>, r: Record, n: nat, m: nat)
    requires Laid(cache, n) && r.offset == n && |r.hideBlock| == 128 && |r.showBlock| == 128 && n + 128 <= m
    ensures Laid(cache + [r], m)
  {
    var c := cache + [r];
    assert forall i :: 0 <= i < |cache| ==> c[i] == cache[i];
  }

  lemma CarriesAdd(s: seq<byte>, cache: seq<Record>, r: Record)
    requires Laid(cache, |s|) && Carries(s, cache) && r.offset + 128 <= |s| && Laid(cache + [r], |s|)
    requires s[r.offset..r.offset + 128] == r.hideBlock || s[r.offset..r.offset + 128] == r.showBlock
    ensures Carries(s, cache + [r])
  {
    var c := cache + [r];
    assert forall i :: 0 <= i < |cache| ==> c[i] == cache[i];
  }

  /**
   * What one pass of the collision loop leaves after the pad: nothing more when no pair is
   * accepted; otherwise the first accepted pair, woven in.
   */
  predicate Stroked(padded: seq<byte>, cache0: seq<Record>, data: seq<byte>, cache: seq<Record>, pairs: seq<Pair>,
                    template: seq<byte>, numIndex: nat, strokeIndex: nat, found: bool)
    requires Blocks128(pairs) && 13 <= |template| && numIndex < 32 && strokeIndex < 7
  {
    (found <==> exists k :: 0 <= k < |pairs| && AcceptedPair(pairs, k, |template|)) &&
    (!found ==> data == padded && cache == cache0) &&
    (found ==> exists k: nat :: k < |pairs| && FirstAccepted(pairs, k, |template|) &&
                 Woven(padded, cache0, data, cache, pairs[k].0, pairs[k].1, template, numIndex, strokeIndex))
  }

  /** A colliding pair as FindCollision hands it to the callback. */
  type Pair = (seq<byte>, seq<byte>)

  predicate Blocks128(pairs: seq<Pair>)
  {
    forall k :: 0 <= k < |pairs| ==> |pairs[k].0| == 128 && |pairs[k].1| == 128
  }

  predicate AcceptedPair(pairs: seq<Pair>, k: nat, overlayLength: nat)
    requires Blocks128(pairs) && k < |pairs|
  {
    Accepted(pairs[k].0, pairs[k].1, overlayLength)
  }

  /** Pair k is the first the callback accepts. */
  predicate FirstAccepted(pairs: seq<Pair>, k: nat, overlayLength: nat)
    requires Blocks128(pairs)
  {
    k < |pairs| && AcceptedPair(pairs, k, overlayLength) &&
    forall j :: 0 <= j < k ==> !AcceptedPair(pairs, j, overlayLength)
  }

  /**
   * What an accepted pair adds: the first block and the common data for the overlay placed over
   * stroke strokeIndex of digit numIndex, and an entry recording the pair at the old stream length.
   */
  predicate Woven(data0: seq<byte>, cache0: seq<Record>, data: seq<byte>, cache: seq<Record>, b1: seq<byte>, b2: seq<byte>,
                  template: seq<byte>, numIndex: nat, strokeIndex: nat)
    requires |b1| == 128 && |b2| == 128 && 13 <= |template| && numIndex < 32 && strokeIndex < 7
    requires Accepted(b1, b2, |template|)
  {
    var c := Chosen(b1, b2, |template|);
    var p := Digits.OverlayLocation(numIndex, strokeIndex);
    data == data0 + b1 + CommonData(c.hideOffset, c.showOffset, Located(template, p.x, p.y)) &&
    cache == cache0 + [Record(|data0|, c.hideBlock, c.showBlock)]
  }

  /** bytes with the bytes x written over it from position at on. */
  function Patch(bytes: seq<byte>, at: nat, x: seq<byte>): (r: seq<byte>)
    requires at + |x| <= |bytes|
    ensures |r| == |bytes|
    ensures r[..at] == bytes[..at] && r[at..at + |x|] == x && r[at + |x|..] == bytes[at + |x|..]
  {
    bytes[..at] + x + bytes[at + |x|..]
  }

  /** Where the nonce goes in the stream after the tail written at stream length n. */
  function NonceAt(n: nat): nat
  {
    var m := n + |TailBytes(n)|;
    m - m % 64 + NonceOffset(n)
  }

  /** The nonce at position at gives the stream an MD5 state whose first word is 0x33333323. */
  predicate Hits(msg: seq<byte>, at: nat, nonce: nat)
    requires at + 8 <= |msg| && nonce < 0x1_0000_0000_0000_0000
  {
    Md5State(Patch(msg, at, LE64(nonce)))[0] == 0x33333323
  }

  /** x and y differ at most in the 8 bytes from o on. */
  predicate Agrees(x: seq<byte>, y: seq<byte>, o: nat)
  {
    |x| == |y| && o + 8 <= |x| && x[..o] == y[..o] && x[o + 8..] == y[o + 8..]
  }

  /**
   * The nonce written into the padded last block block, at o, makes the block function on ivs give
   * a first word of 0x33333323.
   */
  predicate BlockHits(ivs: seq<Word>, block: seq<byte>, o: nat, nonce: nat)
    requires |ivs| == 4 && |block| == 64 && o + 8 <= 64 && nonce < 0x1_0000_0000_0000_0000
  {
    Compress(ivs, Words(Patch(block, o, LE64(nonce))))[0] == 0x33333323
  }

  /** None of the nonces below n hits, at block level. */
  predicate BlockMisses(ivs: seq<Word>, block: seq<byte>, o: nat, n: nat)
    requires |ivs| == 4 && |block| == 64 && o + 8 <= 64 && n <= 0x1_0000_0000_0000_0000
  {
    forall j :: 0 <= j < n ==> !BlockHits(ivs, block, o, j)
  }

  lemma BlockMissesMore(ivs: seq<Word>, block: seq<byte>, o: nat, n: nat)
    requires |ivs| == 4 && |block| == 64 && o + 8 <= 64 && n < 0x1_0000_0000_0000_0000
    requires BlockMisses(ivs, block, o, n) && !BlockHits(ivs, block, o, n)
    ensures BlockMisses(ivs, block, o, n + 1)
  {
  }

  /** The nonce being the only difference, patching either block gives the same block. */
  lemma AgreesPatch(before: seq<byte>, block: seq<byte>, o: nat, v: seq<byte>)
    requires |v| == 8 && Agrees(before, block, o)
    ensures Patch(before, o, v) == Patch(block, o, v)
  {
  }

  /**
   * When ivs is the chaining value of msg up to its last whole block and block that last block
   * padded, a nonce hits at block level exactly when it hits on the stream.
   */
  lemma BlockHitsAreHits(msg: seq<byte>, a: nat, o: nat, at: nat, ivs: seq<Word>, block: seq<byte>, nonce: nat)
    requires a == |msg| - |msg| % 64 && |msg| % 64 <= 55 && at == a + o && at + 8 <= |msg| && nonce < 0x1_0000_0000_0000_0000
    requires ivs == Chain(InitIV, msg[..a]) && block == msg[a..] + Padding(|msg|)
    ensures |block| == 64 && o + 8 <= 64
    ensures BlockHits(ivs, block, o, nonce) <==> Hits(msg, at, nonce)
  {
    DigestOfLastBlock(msg, a);
    NonceDigest(msg, a, o, at, nonce, block);
  }

  /** ... and so no nonce below n hits at block level exactly when none hits on the stream. */
  lemma BlockMissesAreMisses(msg: seq<byte>, a: nat, o: nat, at: nat, ivs: seq<Word>, block: seq<byte>, n: nat)
    requires a == |msg| - |msg| % 64 && |msg| % 64 <= 55 && at == a + o && at + 8 <= |msg| && n <= 0x1_0000_0000_0000_0000
    requires ivs == Chain(InitIV, msg[..a]) && block == msg[a..] + Padding(|msg|)
    ensures |block| == 64 && o + 8 <= 64
    ensures BlockMisses(ivs, block, o, n) <==> Misses(msg, at, n)
  {
    DigestOfLastBlock(msg, a);
    if BlockMisses(ivs, block, o, n) {
      MissesFromBlock(msg, a, o, at, ivs, block, n);
    }
    if Misses(msg, at, n) {
      BlockMissesFromMisses(msg, a, o, at, ivs, block, n);
    }
  }

  lemma MissesFromBlock(msg: seq<byte>, a: nat, o: nat, at: nat, ivs: seq<Word>, block: seq<byte>, n: nat)
    requires a == |msg| - |msg| % 64 && |msg| % 64 <= 55 && at == a + o && at + 8 <= |msg| && n <= 0x1_0000_0000_0000_0000
    requires ivs == Chain(InitIV, msg[..a]) && block == msg[a..] + Padding(|msg|)
    requires |block| == 64 && o + 8 <= 64 && BlockMisses(ivs, block, o, n)
    ensures Misses(msg, at, n)
  {
    forall j | 0 <= j < n
      ensures !Hits(msg, at, j)
    {
      BlockHitsAreHits(msg, a, o, at, ivs, block, j);
    }
  }

  lemma BlockMissesFromMisses(msg: seq<byte>, a: nat, o: nat, at: nat, ivs: seq<Word>, block: seq<byte>, n: nat)
    requires a == |msg| - |msg| % 64 && |msg| % 64 <= 55 && at == a + o && at + 8 <= |msg| && n <= 0x1_0000_0000_0000_0000
    requires ivs == Chain(InitIV, msg[..a]) && block == msg[a..] + Padding(|msg|)
    requires |block| == 64 && o + 8 <= 64 && Misses(msg, at, n)
    ensures BlockMisses(ivs, block, o, n)
  {
    forall j | 0 <= j < n
      ensures !BlockHits(ivs, block, o, j)
    {
      BlockHitsAreHits(msg, a, o, at, ivs, block, j);
    }
  }

  lemma AgreesKept(before: seq<byte>, after: seq<byte>, block: seq<byte>, o: nat, v: seq<byte>)
    requires |v| == 8 && Agrees(before, block, o) && after == Patch(before, o, v)
    ensures Agrees(after, block, o)
  {
  }

  /**
   * Patching the nonce into the stream and into a last block that agrees with the stream's padded
   * last block elsewhere gives the same digest: the block function on the aligned prefix's IV.
   */
  lemma NonceDigest(msg: seq<byte>, a: nat, o: nat, at: nat, nonce: nat, block: seq<byte>)
    requires a == |msg| - |msg| % 64 && |msg| % 64 <= 55 && at == a + o && at + 8 <= |msg| && nonce < 0x1_0000_0000_0000_0000
    requires |block| == 64 && Agrees(block, msg[a..] + Padding(|msg|), o)
    ensures Md5State(Patch(msg, at, LE64(nonce))) == Compress(Chain(InitIV, msg[..a]), Words(Patch(block, o, LE64(nonce))))
    ensures Hits(msg, at, nonce) <==> Compress(Chain(InitIV, msg[..a]), Words(Patch(block, o, LE64(nonce))))[0] == 0x33333323
  {
    var v := LE64(nonce);
    var m2 := Patch(msg, at, v);
    DigestOfLastBlock(m2, a);
    assert m2[..a] == msg[..a];
    PatchedBlock(msg, a, o, v, block, m2);
  }

  lemma PatchedBlock(msg: seq<byte>, a: nat, o: nat, v: seq<byte>, block: seq<byte>, m2: seq<byte>)
    requires a <= |msg| && a + o + 8 <= |msg| && |v| == 8 && m2 == Patch(msg, a + o, v)
    requires o + 8 <= |block| && Agrees(block, msg[a..] + Padding(|msg|), o)
    ensures m2[a..] + Padding(|msg|) == Patch(block, o, v)
  {
    var pad := Padding(|msg|);
    var t := msg[a..] + pad;
    assert m2[a..] == msg[a..a + o] + v + msg[a + o + 8..];
    assert block[..o] == t[..o] == msg[a..a + o];
    assert block[o + 8..] == t[o + 8..] == msg[a + o + 8..] + pad;
  }

  /**
   * The nonce written into lastBlock and the block function run on a copy of iv: does the first
   * word come out as 0x33333323? lastBlock holds block, but for an earlier nonce.
   */
  method Probe(iv: array<Word>, lastBlock: array<byte>, o: nat, nonce: nat, ghost block: seq<byte>) returns (found: bool)
    requires iv.Length == 4 && lastBlock.Length == 64 && o + 8 <= 64 && nonce < 0x1_0000_0000_0000_0000
    requires Agrees(lastBlock[..], block, o)
    modifies lastBlock
    ensures Agrees(lastBlock[..], block, o)
    ensures found <==> BlockHits(iv[..], block, o, nonce)
  {
    ghost var before := lastBlock[..];
    var value := LE64(nonce);
    WriteAt(lastBlock, o, value);
    AgreesKept(before, lastBlock[..], block, o, value);
    AgreesPatch(before, block, o, value);
    var finalIV := CopyIV(iv);
    var m := new Word[16];
    Load(m, lastBlock[..]);
    TransformBlock(finalIV, m);
    found := finalIV[0] == 0x33333323;
  }

  /** finalIV as the two 8-byte stores copy IV into it. */
  method CopyIV(iv: array<Word>) returns (finalIV: array<Word>)
    requires iv.Length == 4
    ensures fresh(finalIV) && finalIV[..] == iv[..]
  {
    finalIV := new Word[4];
    finalIV[0], finalIV[1], finalIV[2], finalIV[3] := iv[0], iv[1], iv[2], iv[3];
    assert finalIV[..] == iv[..];
  }

  /** *(ulong*)(lastBlock + at) = ...: the bytes x written into block from position at on. */
  method WriteAt(block: array<byte>, at: nat, x: seq<byte>)
    requires at + |x| <= block.Length
    modifies block
    ensures block[..] == Patch(old(block[..]), at, x)
  {
    for i := 0 to |x|
      invariant forall j :: 0 <= j < block.Length && !(at <= j < at + i) ==> block[j] == old(block[j])
      invariant forall j :: 0 <= j < i ==> block[at + j] == x[j]
    {
      block[at + i] := x[i];
    }
    assert block[..] == Patch(old(block[..]), at, x);
  }

  /** The sixteen words of a 64-byte block, as transform_block reads them through its pointer. */
  method Load(m: array<Word>, block: seq<byte>)
    requires m.Length == 16 && |block| == 64
    modifies m
    ensures m[..] == Words(block)
  {
    for i := 0 to 16
      invariant forall j :: 0 <= j < i ==> m[j] == Words(block)[j]
    {
      m[i] := WordOf(block[4 * i], block[4 * i + 1], block[4 * i + 2], block[4 * i + 3]);
    }
  }

  class Weaver {
    /** The contents of gifStream. */
    var data: seq<byte>
    /** IV: the chaining value of data[..lastAlignOffset]. */
    const iv: array<Word>
    var lastAlignOffset: nat
    var cache: seq<Record>

    ghost predicate Valid()
      reads this, iv
    {
      iv.Length == 4 && Weft(data, iv[..], lastAlignOffset, cache)
    }

    /** The stream after the GIF header, with IV at its initial value. */
    constructor (header: seq<byte>)
      ensures Valid() && fresh(iv)
      ensures data == header && lastAlignOffset == 0 && cache == [] && iv[..] == InitIV
    {
      data := header;
      var v := new Word[4];
      v[0], v[1], v[2], v[3] := 0x67452301, 0xefcdab89, 0x98badcfe, 0x10325476;
      iv := v;
      lastAlignOffset := 0;
      cache := [];
      new;
      assert header[..0] == [];
    }

    /** WriteMySign: length bytes of the sign text. */
    method WriteMySign(length: nat)
      modifies `data
      ensures data == old(data) + Sign(length)
    {
      var i := 0;
      while i < length
        invariant i <= length
        invariant data == old(data) + Sign(i)
      {
        assert Sign(i + 1) == Sign(i) + [SignText[i % |SignText|]];
        data := data + [SignText[i % |SignText|]];
        i := i + 1;
      }
    }

    /** The alignment comment written before each collision. */
    method Pad()
      requires Valid()
      modifies `data
      ensures Valid() && data == old(data) + PadComment(|old(data)|) && |data| % 64 == 0
    {
      ghost var n := |data|;
      var commentSpace := 64 - |data| % 64;
      if commentSpace < 3 {
        commentSpace := commentSpace + 64;
      }
      data := data + [0x21, 0xfe];
      commentSpace := commentSpace - 3;
      var len := (commentSpace + 19) as byte;
      data := data + [len];
      WriteMySign(commentSpace);
      Concat3(old(data), [0x21, 0xfe], [len], Sign(commentSpace));
      PadCommentParts(n, commentSpace, len);
      WeftAppend(old(data), PadComment(n), iv[..], lastAlignOffset, cache);
      PadAligns(n);
    }

    /**
     * UpdateMD5IV: fold every whole block after lastAlignOffset into IV, then move lastAlignOffset
     * to the stream length rounded down to a multiple of 64.
     */
    method UpdateMD5IV()
      requires Valid()
      modifies `lastAlignOffset, iv
      ensures Valid() && lastAlignOffset == |data| - |data| % 64
    {
      ghost var a := lastAlignOffset;
      ghost var ivs := iv[..];
      var prevGifData := data[lastAlignOffset..];
      var offs := FoldBlocks(iv, prevGifData);
      lastAlignOffset := |data| - |data| % 64;
      WeftAdvance(data, ivs, a, cache, prevGifData, offs, iv[..], lastAlignOffset);
    }

    /**
     * The scan of one colliding block: follow the comment sub-blocks from the length byte at 19
     * until the chain leaves the block, giving up on a zero length byte.
     */
    static method ScanPath(msgBlock: seq<byte>) returns (r: Option<nat>)
      requires |msgBlock| == 128
      ensures r == PathEnd(msgBlock, 19)
    {
      var pathOffset := 19;
      while pathOffset < 128
        invariant PathEnd(msgBlock, pathOffset) == PathEnd(msgBlock, 19)
        decreases 128 - pathOffset
      {
        var commentLength := msgBlock[pathOffset];
        if commentLength == 0 {
          return None;
        }
        pathOffset := pathOffset + commentLength as nat + 1;
      }
      return Some(pathOffset);
    }

    /**
     * WriteCommonData: filler up to the hide path's end, its closing zero, the overlay, the bridge
     * to the show path's end, and the pair's collisionCache entry.
     */
    method WriteCommonData(overlayData: seq<byte>, fileOffset: nat, hidePathOffset: nat, showPathOffset: nat,
                           hideMsgBlock: seq<byte>, showMsgBlock: seq<byte>)
      requires 128 <= hidePathOffset && hidePathOffset + |overlayData| <= showPathOffset <= 253
      modifies `data, `cache
      ensures data == old(data) + CommonData(hidePathOffset, showPathOffset, overlayData)
      ensures cache == old(cache) + [Record(fileOffset, hideMsgBlock, showMsgBlock)]
    {
      WriteMySign(hidePathOffset - 128);
      data := data + [0];
      data := data + overlayData;
      Concat3(old(data), Sign(hidePathOffset - 128), [0], overlayData);
      ghost var d1 := data;
      var hideEnd := hidePathOffset + |overlayData|;
      var gap := showPathOffset - hideEnd;
      if hideEnd != showPathOffset {
        BridgeParts(gap);
        data := data + [0x21, 0xfe];
        if showPathOffset - hideEnd > 4 {
          data := data + [(showPathOffset - hideEnd - 4) as byte];
          WriteMySign(showPathOffset - hideEnd - 4);
          data := data + [0];
          Concat4(d1, [0x21, 0xfe], [(gap - 4) as byte], Sign(gap - 4), [0]);
        } else {
          data := data + [0];
          Concat2(d1, [0x21, 0xfe], [0]);
        }
      }
      assert data == d1 + Bridge(gap);
      Concat2(old(data), Sign(hidePathOffset - 128) + [0] + overlayData, Bridge(gap));
      cache := cache + [Record(fileOffset, hideMsgBlock, showMsgBlock)];
    }

    /**
     * The FindCollision callback for one colliding pair: scan both blocks and filter; on
     * acceptance write the first block and the common data and record the pair.
     */
    method OnCollision(msgBlock1: seq<byte>, msgBlock2: seq<byte>, template: seq<byte>, numIndex: nat, strokeIndex: nat)
      returns (ok: bool)
      requires Valid() && |msgBlock1| == 128 && |msgBlock2| == 128
      requires numIndex < 32 && strokeIndex < 7 && 13 <= |template|
      modifies `data, `cache
      ensures Valid()
      ensures ok == Accepted(msgBlock1, msgBlock2, |template|)
      ensures !ok ==> data == old(data) && cache == old(cache)
      ensures ok ==> Woven(old(data), old(cache), data, cache, msgBlock1, msgBlock2, template, numIndex, strokeIndex)
    {
      var r1 := ScanPath(msgBlock1);
      if r1.None? {
        return false;
      }
      var r2 := ScanPath(msgBlock2);
      if r2.None? {
        return false;
      }
      var pathOffset1, pathOffset2 := r1.value, r2.value;
      if pathOffset1 > 253 || pathOffset2 > 253 {
        return false;
      }
      var offsetDiff: int := Abs(pathOffset1 as int - pathOffset2 as int) - |template|;
      if offsetDiff < 0 || offsetDiff == 1 || offsetDiff == 2 || offsetDiff == 4 {
        return false;
      }
      PathEndBounds(msgBlock1, 19);
      PathEndBounds(msgBlock2, 19);
      var fileOffset := |data|;
      data := data + msgBlock1;
      var location := Digits.OverlayLocation(numIndex, strokeIndex);
      var overlayData := Located(template, location.x, location.y);
      ghost var c := Chosen(msgBlock1, msgBlock2, |template|);
      if pathOffset1 < pathOffset2 {
        WriteCommonData(overlayData, fileOffset, pathOffset1, pathOffset2, msgBlock1, msgBlock2);
      } else {
        WriteCommonData(overlayData, fileOffset, pathOffset2, pathOffset1, msgBlock2, msgBlock1);
      }
      WeftAdd(old(data), msgBlock1, CommonData(c.hideOffset, c.showOffset, overlayData), iv[..], lastAlignOffset,
              old(cache), Record(fileOffset, c.hideBlock, c.showBlock));
      return true;
    }

    /**
     * One pass of the inner collision loop: pad, bring IV up to date, then offer FindCollision's
     * pairs to the callback in order until one is accepted.
     */
    method WeaveStroke(template: seq<byte>, numIndex: nat, strokeIndex: nat, pairs: seq<Pair>) returns (found: bool)
      requires Valid() && numIndex < 32 && strokeIndex < 7 && 13 <= |template| && Blocks128(pairs)
      modifies this, iv
      ensures Valid()
      ensures var padded := old(data) + PadComment(|old(data)|);
              lastAlignOffset == |padded| && iv[..] == Chain(InitIV, padded) &&
              Stroked(padded, old(cache), data, cache, pairs, template, numIndex, strokeIndex, found)
    {
      Pad();
      UpdateMD5IV();
      assert data[..lastAlignOffset] == data;
      found := Search(template, numIndex, strokeIndex, pairs);
    }

    /** FindCollision's side of the pass: the pairs in order, until the callback accepts one. */
    method Search(template: seq<byte>, numIndex: nat, strokeIndex: nat, pairs: seq<Pair>) returns (found: bool)
      requires Valid() && numIndex < 32 && strokeIndex < 7 && 13 <= |template| && Blocks128(pairs)
      modifies `data, `cache
      ensures Valid()
      ensures Stroked(old(data), old(cache), data, cache, pairs, template, numIndex, strokeIndex, found)
    {
      var k := 0;
      while k < |pairs|
        invariant k <= |pairs| && Valid() && data == old(data) && cache == old(cache)
        invariant forall j :: 0 <= j < k ==> !AcceptedPair(pairs, j, |template|)
      {
        found := OnCollision(pairs[k].0, pairs[k].1, template, numIndex, strokeIndex);
        if found {
          assert FirstAccepted(pairs, k, |template|);
          return;
        }
        k := k + 1;
      }
      found := false;
    }

    /**
     * The collision loop over the 32 digits and their 7 strokes; candidates[7 * n + s] are the
     * pairs FindCollision offers for stroke s of digit n. Stops when a stroke finds no pair.
     */
    method WeaveAll(template: seq<byte>, candidates: seq<seq<Pair>>) returns (ok: bool)
      requires Valid() && 13 <= |template| && |candidates| == 224
      requires forall k :: 0 <= k < 224 ==> Blocks128(candidates[k])
      modifies this, iv
      ensures Valid()
      ensures ok ==> |cache| == |old(cache)| + 224
    {
      var numIndex := 0;
      while numIndex < 32
        invariant numIndex <= 32 && Valid() && |cache| == |old(cache)| + 7 * numIndex
      {
        var strokeIndex := 0;
        while strokeIndex < 7
          invariant strokeIndex <= 7 && Valid() && |cache| == |old(cache)| + 7 * numIndex + strokeIndex
        {
          var found := WeaveStroke(template, numIndex, strokeIndex, candidates[7 * numIndex + strokeIndex]);
          if !found {
            return false;
          }
          strokeIndex := strokeIndex + 1;
        }
        numIndex := numIndex + 1;
      }
      return true;
    }

    /**
     * The tail: a comment whose single sub-block of zeros will hold the nonce (34 bytes, reaching
     * into a new block, when fewer than 22 bytes are left in this one; 8 otherwise), the trailer,
     * and IV brought up to date.
     */
    method Tail() returns (nonceOffset: nat)
      requires Valid()
      modifies `data, `lastAlignOffset, iv
      ensures Valid() && data == old(data) + TailBytes(|old(data)|) && nonceOffset == NonceOffset(|old(data)|)
      ensures lastAlignOffset == |data| - |data| % 64
    {
      ghost var n := |data|;
      var blockOffset := |data| % 64;
      var tailSpace := if blockOffset != 0 then 64 - blockOffset else 0;
      var length: byte;
      if tailSpace < 22 {
        data := data + [0x21, 0xfe];
        length := 34;
        data := data + [length];
        data := data + Zeros(34);
        data := data + [0];
        nonceOffset := 8;
      } else {
        data := data + [0x21, 0xfe];
        length := 8;
        data := data + [length];
        data := data + Zeros(8);
        data := data + [0];
        nonceOffset := blockOffset + 3;
      }
      data := data + [0x3b];
      TailParts(n, length);
      Concat5(old(data), [0x21, 0xfe], [length], Zeros(length as nat), [0], [0x3b]);
      WeftAppend(old(data), TailBytes(n), iv[..], lastAlignOffset, cache);
      UpdateMD5IV();
    }

    /**
     * The tail and the nonce loop, for the nonces below limit, over the IV and the padded last
     * block of the stream tailed: the first nonce that hits is written into the tail comment.
     * SealedOf says what that means for the MD5 digest of the stream.
     */
    method Seal(limit: nat) returns (found: bool, nonce: nat, ghost tailed: seq<byte>, ghost block: seq<byte>)
      requires Valid() && limit <= 0x1_0000_0000_0000_0000
      modifies `data, `lastAlignOffset, iv
      ensures Valid()
      ensures tailed == old(data) + TailBytes(|old(data)|)
      ensures lastAlignOffset == |tailed| - |tailed| % 64 && |tailed| % 64 <= 55
      ensures lastAlignOffset + NonceOffset(|old(data)|) == NonceAt(|old(data)|) && NonceAt(|old(data)|) + 8 <= |tailed|
      ensures iv[..] == Chain(InitIV, tailed[..lastAlignOffset]) && block == tailed[lastAlignOffset..] + Padding(|tailed|)
      ensures |block| == 64 && NonceOffset(|old(data)|) + 8 <= 64
      ensures Stamped(iv[..], block, NonceOffset(|old(data)|), limit, found, nonce, tailed, NonceAt(|old(data)|), data)
    {
      ghost var n := |data|;
      var nonceOffset := Tail();
      NonceFits(n, |data|, lastAlignOffset, nonceOffset);
      tailed := data;
      var sealed;
      found, nonce, sealed, block := SealTail(iv, data, lastAlignOffset, nonceOffset, limit);
      SealKeeps(n, tailed, sealed, lastAlignOffset, nonceOffset, found, nonce, iv[..], cache);
      data := sealed;
    }
  }

  /** The nonce written into the tail comment, after every entry's window, keeps the state. */
  lemma SealKeeps(n: nat, tailed: seq<byte>, sealed: seq<byte>, a: nat, o: nat, found: bool, nonce: nat,
                  ivs: seq<Word>, cache: seq<Record>)
    requires Weft(tailed, ivs, a, cache) && Laid(cache, n) && n <= a + o && a + o + 8 <= |tailed|
    requires found ==> nonce < 0x1_0000_0000_0000_0000 && sealed == Patch(tailed, a + o, LE64(nonce))
    requires !found ==> sealed == tailed
    ensures Weft(sealed, ivs, a, cache)
  {
    if found {
      WeftPatch(tailed, a + o, LE64(nonce), ivs, a, cache);
    }
  }

  /** After the tail the padding fits in the last block and so does the nonce, at NonceAt. */
  lemma NonceFits(n: nat, m: nat, a: nat, o: nat)
    requires m == n + |TailBytes(n)| && a == m - m % 64 && o == NonceOffset(n)
    ensures m % 64 <= 55 && n + 3 <= a + o && a + o + 8 <= m && a + o == NonceAt(n)
  {
    TailLayout(n);
  }

  /**
   * The outcome of the nonce loop seen at block level: the first nonce below limit whose block
   * function on ivs and block (the nonce written at o) hits, and msg with it written at at; or
   * no nonce below limit hits and msg is left as it was.
   */
  predicate Stamped(ivs: seq<Word>, block: seq<byte>, o: nat, limit: nat, found: bool, nonce: nat,
                    msg: seq<byte>, at: nat, sealed: seq<byte>)
    requires |ivs| == 4 && |block| == 64 && o + 8 <= 64 && limit <= 0x1_0000_0000_0000_0000 && at + 8 <= |msg|
  {
    (found ==> nonce < limit && BlockHits(ivs, block, o, nonce) && sealed == Patch(msg, at, LE64(nonce))) &&
    (!found ==> sealed == msg) &&
    BlockMisses(ivs, block, o, if found then nonce else limit)
  }

  /**
   * The outcome of the nonce loop on the stream tailed, with the nonce at position at, over the
   * nonces below limit: the first nonce that gives the stream an MD5 digest beginning with the
   * bytes 23 33 33 33, written into the stream; or no nonce below limit does, and the stream is
   * as it was.
   */
  predicate Sealed(tailed: seq<byte>, at: nat, limit: nat, found: bool, nonce: nat, data: seq<byte>)
    requires at + 8 <= |tailed| && limit <= 0x1_0000_0000_0000_0000
  {
    (found ==> nonce < limit && data == Patch(tailed, at, LE64(nonce)) && Md5State(data)[0] == 0x33333323) &&
    (!found ==> data == tailed) &&
    Misses(tailed, at, if found then nonce else limit)
  }

  /** lastBlock filled from msg, the nonce loop over it, and the stream patched with the nonce found. */
  method SealTail(iv: array<Word>, msg: seq<byte>, a: nat, o: nat, limit: nat)
      returns (found: bool, nonce: nat, sealed: seq<byte>, ghost block: seq<byte>)
    requires iv.Length == 4 && limit <= 0x1_0000_0000_0000_0000
    requires a == |msg| - |msg| % 64 && |msg| % 64 <= 55 && a + o + 8 <= |msg|
    ensures found ==> nonce < limit && sealed == Patch(msg, a + o, LE64(nonce))
    ensures !found ==> sealed == msg
    ensures block == msg[a..] + Padding(|msg|) && |block| == 64 && o + 8 <= 64
    ensures Stamped(iv[..], block, o, limit, found, nonce, msg, a + o, sealed)
  {
    var lastBlock := LastBlock(msg[a..], |msg|);
    block := lastBlock[..];
    ghost var ivs := iv[..];
    found, nonce := NonceLoop(iv, lastBlock, o, limit, ivs, block);
    sealed := msg;
    if found {
      sealed := Patch(msg, a + o, LE64(nonce));
    }
  }

  /**
   * The outcome in block terms is the outcome in stream terms, when ivs is the chaining value
   * of msg up to its last whole block and block that block padded: the source's shortcut of one
   * block function per nonce computes the MD5 digest of the whole stream.
   */
  lemma SealedOf(msg: seq<byte>, a: nat, o: nat, at: nat, ivs: seq<Word>, block: seq<byte>,
                 limit: nat, found: bool, nonce: nat, sealed: seq<byte>)
    requires a == |msg| - |msg| % 64 && |msg| % 64 <= 55 && at == a + o && at + 8 <= |msg| && limit <= 0x1_0000_0000_0000_0000
    requires ivs == Chain(InitIV, msg[..a]) && block == msg[a..] + Padding(|msg|) && |block| == 64 && o + 8 <= 64
    requires Stamped(ivs, block, o, limit, found, nonce, msg, at, sealed)
    ensures Sealed(msg, at, limit, found, nonce, sealed)
  {
    BlockMissesAreMisses(msg, a, o, at, ivs, block, if found then nonce else limit);
    if found {
      BlockHitsAreHits(msg, a, o, at, ivs, block, nonce);
    }
  }

  /** None of the nonces below n hits. */
  predicate Misses(msg: seq<byte>, at: nat, n: nat)
    requires at + 8 <= |msg| && n <= 0x1_0000_0000_0000_0000
  {
    forall j :: 0 <= j < n ==> !Hits(msg, at, j)
  }

  /**
   * The nonce loop, for the nonces below limit, over lastBlock holding block and iv: the first
   * nonce that hits ends the loop.
   */
  method NonceLoop(iv: array<Word>, lastBlock: array<byte>, o: nat, limit: nat, ghost ivs: seq<Word>, ghost block: seq<byte>)
      returns (found: bool, nonce: nat)
    requires iv.Length == 4 && lastBlock.Length == 64 && o + 8 <= 64 && limit <= 0x1_0000_0000_0000_0000
    requires iv[..] == ivs && lastBlock[..] == block
    modifies lastBlock
    ensures found ==> nonce < limit && BlockHits(ivs, block, o, nonce)
    ensures BlockMisses(ivs, block, o, if found then nonce else limit)
  {
    nonce := 0;
    found := false;
    while nonce < limit
      invariant nonce <= limit && !found
      invariant iv[..] == ivs && Agrees(lastBlock[..], block, o)
      invariant BlockMisses(ivs, block, o, nonce)
    {
      found := Probe(iv, lastBlock, o, nonce, block);
      if found {
        return;
      }
      BlockMissesMore(ivs, block, o, nonce);
      nonce := nonce + 1;
    }
  }

  /**
   * lastBlock: the bytes of the stream after lastAlignOffset (rest, from a stream of n bytes),
   * then the padding of sections 3.1 and 3.2 of RFC 1321 for the whole stream.
   */
  method LastBlock(rest: seq<byte>, n: nat) returns (lastBlock: array<byte>)
    requires |rest| <= 55 && n % 64 == |rest|
    ensures fresh(lastBlock) && lastBlock[..] == rest + Padding(n)
  {
    lastBlock := new byte[64];
    var lastLength := |rest|;
    for i := 0 to lastLength
      invariant forall j :: 0 <= j < i ==> lastBlock[j] == rest[j]
    {
      lastBlock[i] := rest[i];
    }
    var paddingBytes := 64 - 9 - lastLength;
    var gifBitCount := n * 8 % 0x1_0000_0000_0000_0000;
    lastBlock[lastLength] := 0x80;
    for i := lastLength + 1 to lastLength + 1 + paddingBytes
      invariant forall j :: 0 <= j < lastLength ==> lastBlock[j] == rest[j]
      invariant lastBlock[lastLength] == 0x80
      invariant forall j :: lastLength < j < i ==> lastBlock[j] == 0
    {
      lastBlock[i] := 0;
    }
    var count := LE64(gifBitCount);
    for i := 0 to 8
      invariant forall j :: 0 <= j < lastLength ==> lastBlock[j] == rest[j]
      invariant lastBlock[lastLength] == 0x80
      invariant forall j :: lastLength < j < 56 ==> lastBlock[j] == 0
      invariant forall j :: 0 <= j < i ==> lastBlock[56 + j] == count[j]
    {
      lastBlock[56 + i] := count[i];
    }
    LastBlockIs(lastBlock[..], rest, n);
  }

  lemma Concat3<T>(d: seq<T>, x: seq<T>, y: seq<T>, z: seq<T>)
    ensures d + x + y + z == d + (x + y + z)
  {
  }

  lemma Concat4<T>(d: seq<T>, w: seq<T>, x: seq<T>, y: seq<T>, z: seq<T>)
    ensures d + w + x + y + z == d + (w + x + y + z)
  {
  }

  lemma Concat5<T>(d: seq<T>, v: seq<T>, w: seq<T>, x: seq<T>, y: seq<T>, z: seq<T>)
    ensures d + v + w + x + y + z == d + (v + w + x + y + z)
  {
  }

  /** The tail comment as Tail writes it, piece by piece. */
  lemma TailParts(n: nat, length: byte)
    requires length == (if TailSpace(n) < 22 then 34 else 8)
    ensures TailBytes(n) == [0x21, 0xfe] + [length] + Zeros(length as nat) + [0] + [0x3b]
  {
  }

  /** A block filled as LastBlock fills it is the rest of the stream and its padding. */
  lemma LastBlockIs(b: seq<byte>, rest: seq<byte>, n: nat)
    requires |b| == 64 && |rest| <= 55 && n % 64 == |rest|
    requires forall j :: 0 <= j < |rest| ==> b[j] == rest[j]
    requires b[|rest|] == 0x80 && forall j :: |rest| < j < 56 ==> b[j] == 0
    requires forall j :: 0 <= j < 8 ==> b[56 + j] == LE64(n * 8 % 0x1_0000_0000_0000_0000)[j]
    ensures b == rest + Padding(n)
  {
    var count := LE64(n * 8 % 0x1_0000_0000_0000_0000);
    var zeros := Zeros(55 - |rest|);
    assert Padding(n) == [0x80] + zeros + count;
    assert b[..|rest|] == rest;
    assert b[|rest|..56] == [0x80] + zeros;
    assert b[56..] == count;
    assert b == b[..|rest|] + b[|rest|..56] + b[56..];
  }

  lemma Concat2<T>(d: seq<T>, x: seq<T>, y: seq<T>)
    ensures d + x + y == d + (x + y)
  {
  }

  /** The bridge as WriteCommonData writes it, piece by piece. */
  lemma BridgeParts(gap: nat)
    requires 0 < gap < 260
    ensures gap > 4 ==> Bridge(gap) == [0x21, 0xfe] + [(gap - 4) as byte] + Sign(gap - 4) + [0]
    ensures gap <= 4 ==> Bridge(gap) == [0x21, 0xfe] + [0]
  {
  }

  lemma PadCommentParts(n: nat, space: int, len: byte)
    requires space == CommentSpace(n) - 3 && 0 <= space && len as int == space + 19
    ensures PadComment(n) == [0x21, 0xfe] + [len] + Sign(space)
  {
  }

  /** Folding the whole blocks after a moves the aligned offset to the last boundary and keeps the state. */
  lemma WeftAdvance(data: seq<byte>, ivs: seq<Word>, a: nat, cache: seq<Record>, rest: seq<byte>, offs: nat,
                    ivs2: seq<Word>, b: nat)
    requires Weft(data, ivs, a, cache) && rest == data[a..]
    requires offs == |rest| - |rest| % 64 && ivs2 == Chain(ivs, rest[..offs]) && b == |data| - |data| % 64
    ensures Weft(data, ivs2, b, cache)
  {
    ChainAdvance(data, ivs, a, rest, offs, ivs2, b);
  }

  lemma ChainAdvance(data: seq<byte>, ivs: seq<Word>, a: nat, rest: seq<byte>, offs: nat, ivs2: seq<Word>, b: nat)
    requires a % 64 == 0 && a <= |data| && ivs == Chain(InitIV, data[..a]) && rest == data[a..]
    requires offs == |rest| - |rest| % 64 && ivs2 == Chain(ivs, rest[..offs]) && b == |data| - |data| % 64
    ensures b % 64 == 0 && ivs2 == Chain(InitIV, data[..b])
  {
    AlignedEnd(a, |data|, offs, b);
    ChainJoin(data, ivs, a, rest[..offs], ivs2, b);
  }

  lemma AlignedEnd(a: nat, n: nat, offs: nat, b: nat)
    requires a % 64 == 0 && a <= n && offs == (n - a) - (n - a) % 64 && b == n - n % 64
    ensures b % 64 == 0 && b == a + offs && offs % 64 == 0
  {
    ModShift(a, n);
  }

  lemma ChainJoin(data: seq<byte>, ivs: seq<Word>, a: nat, q: seq<byte>, ivs2: seq<Word>, b: nat)
    requires a % 64 == 0 && a <= b <= |data| && ivs == Chain(InitIV, data[..a])
    requires q == data[a..b] && ivs2 == Chain(ivs, q)
    ensures ivs2 == Chain(InitIV, data[..b])
  {
    var p := data[..a];
    assert data[..b] == p + q;
    ChainAppend(InitIV, p, q);
  }

  lemma ModShift(a: nat, n: nat)
    requires a % 64 == 0 && a <= n
    ensures (n - a) % 64 == n % 64
  {
    var q := a / 64;
    assert n - a == (n / 64 - q) * 64 + n % 64;
  }

  /** The loop of UpdateMD5IV: one block function per whole 64-byte block of s. */
  method FoldBlocks(iv: array<Word>, s: seq<byte>) returns (offs: nat)
    requires iv.Length == 4
    modifies iv
    ensures offs == |s| - |s| % 64
    ensures iv[..] == Chain(old(iv[..]), s[..offs])
  {
    ghost var iv0 := iv[..];
    var m := new Word[16];
    offs := 0;
    while offs + 64 <= |s|
      invariant offs % 64 == 0 && offs <= |s|
      invariant Folded(iv[..], iv0, s, offs)
      decreases |s| - offs
    {
      FoldOne(iv, m, s, offs, iv0);
      offs := offs + 64;
    }
    RoundDown(|s|, offs);
  }

  /** ivs chains iv0 through the first offs bytes of s. */
  predicate Folded(ivs: seq<Word>, iv0: seq<Word>, s: seq<byte>, offs: nat)
  {
    |iv0| == 4 && offs <= |s| && ivs == Chain(iv0, s[..offs])
  }

  /** One pass of that loop: the block at offs. */
  method FoldOne(iv: array<Word>, m: array<Word>, s: seq<byte>, offs: nat, ghost iv0: seq<Word>)
    requires iv.Length == 4 && m.Length == 16 && iv != m && |iv0| == 4
    requires offs % 64 == 0 && offs + 64 <= |s| && Folded(iv[..], iv0, s, offs)
    modifies iv, m
    ensures Folded(iv[..], iv0, s, offs + 64)
  {
    var block := s[offs..offs + 64];
    Load(m, block);
    ghost var before := iv[..];
    TransformBlock(iv, m);
    FoldStep(iv0, s, offs, block, before, iv[..], m[..]);
  }

  lemma RoundDown(n: nat, k: nat)
    requires k % 64 == 0 && k <= n < k + 64
    ensures k == n - n % 64
  {
  }

  lemma FoldStep(iv: seq<Word>, s: seq<byte>, offs: nat, block: seq<byte>, before: seq<Word>, after: seq<Word>, m: seq<Word>)
    requires |iv| == 4 && offs % 64 == 0 && offs + 64 <= |s| && block == s[offs..offs + 64]
    requires before == Chain(iv, s[..offs]) && m == Words(block) && after == Compress(before, m)
    ensures after == Chain(iv, s[..offs + 64])
  {
    assert s[..offs + 64] == s[..offs] + block;
    ChainBlock(iv, s[..offs], block);
  }
}
