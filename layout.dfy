/**
 * The byte layout MD5Gif/Program.cs weaves around each MD5 collision: the comment that pads the
 * stream to a 64-byte boundary, the comment sub-block chains a GIF decoder follows through the
 * two colliding 128-byte blocks, the filter on where those chains end, the bytes that bring both
 * chains back together, and the comment that carries the nonce in the last block.
 */
module Layout {
  import opened Bits
  import opened Digest

  /** "github.com/ibukisaer ", the filler text WriteMySign repeats. */
  const SignText: seq<byte> :=
    [103, 105, 116, 104, 117, 98, 46, 99, 111, 109, 47, 105, 98, 117, 107, 105, 115, 97, 101, 114, 32]

  /** The n filler bytes WriteMySign writes: the sign text over and over. */
  function Sign(n: nat): (r: seq<byte>)
    ensures |r| == n
  {
    seq(n, i requires 0 <= i < n => SignText[i % |SignText|])
  }

  function Abs(x: int): nat
  {
    if x < 0 then -x else x
  }

  // ---------------------------------------------------------------------------------------------
  // The alignment comment written before each collision.

  /** commentSpace: the bytes to the next 64-byte boundary, one block more when fewer than 3. */
  function CommentSpace(n: nat): int
  {
    var space := 64 - n % 64;
    if space < 3 then space + 64 else space
  }

  /**
   * The comment extension written at stream length n: 0x21 0xfe, one sub-block whose length byte
   * counts the sign bytes that follow plus 19 more, and the sign bytes.
   */
  function PadComment(n: nat): seq<byte>
  {
    var space := CommentSpace(n) - 3;
    [0x21, 0xfe, (space + 19) as byte] + Sign(space)
  }

  /**
   * The pad is the shortest comment of at least 3 bytes that ends on a 64-byte boundary, and its
   * sub-block runs exactly 19 bytes into the next block, so the colliding block's byte 19 is the
   * next length byte a decoder reads.
   */
  lemma PadAligns(n: nat)
    ensures var pad := PadComment(n);
            3 <= |pad| <= 66 && (n + |pad|) % 64 == 0 && pad[..2] == [0x21, 0xfe] &&
            n + 3 + pad[2] as nat == n + |pad| + 19
    ensures forall m :: n + 3 <= m < n + |PadComment(n)| ==> !Aligned(m)
  {
  }

  predicate Aligned(m: nat)
  {
    m % 64 == 0
  }

  // ---------------------------------------------------------------------------------------------
  // The path scan over one colliding block.

  /**
   * Where the chain of comment sub-blocks that starts with the length byte at p leaves the
   * 128-byte block: the first length byte at offset 128 or beyond, or None when a zero length byte
   * inside the block ends the comment first.
   */
  function PathEnd(block: seq<byte>, p: nat): (r: Option<nat>)
    requires |block| == 128
    ensures r.Some? ==> 128 <= r.value && p <= r.value
    decreases 128 - p
  {
    if p >= 128 then Some(p)
    else if block[p] == 0 then None
    else PathEnd(block, p + block[p] as nat + 1)
  }

  /** From inside the block, a chain leaves it no further than one maximal sub-block past its end. */
  lemma {:induction false} PathEndBounds(block: seq<byte>, p: nat)
    requires |block| == 128 && p < 128
    ensures PathEnd(block, p).Some? ==> 128 <= PathEnd(block, p).value <= 383
    decreases 128 - p
  {
    if block[p] != 0 && p + block[p] as nat + 1 < 128 {
      PathEndBounds(block, p + block[p] as nat + 1);
    }
  }

  /**
   * The filter: both chains end within 253 bytes and the gap the overlay leaves between them is
   * 0, 3 or at least 5.
   */
  predicate Accept(p1: int, p2: int, overlayLength: int)
  {
    var gap := Abs(p1 - p2) - overlayLength;
    p1 <= 253 && p2 <= 253 && !(gap < 0 || gap == 1 || gap == 2 || gap == 4)
  }

  /** Which block hides the stroke and which shows it, and where each one's chain ends. */
  datatype Paths = Paths(hideBlock: seq<byte>, showBlock: seq<byte>, hideOffset: nat, showOffset: nat)

  /** The block whose chain ends first is the hide path. */
  function Choose(b1: seq<byte>, b2: seq<byte>, p1: nat, p2: nat, overlayLength: nat): (c: Paths)
    requires Accept(p1, p2, overlayLength) && overlayLength > 0
    ensures c.hideOffset < c.showOffset <= 253
    ensures (c.hideBlock, c.hideOffset, c.showBlock, c.showOffset) == (b1, p1, b2, p2) ||
            (c.hideBlock, c.hideOffset, c.showBlock, c.showOffset) == (b2, p2, b1, p1)
    ensures Bridgeable(c.showOffset - c.hideOffset - overlayLength)
  {
    if p1 < p2 then Paths(b1, b2, p1, p2) else Paths(b2, b1, p2, p1)
  }

  /** A gap the reconverging comment can fill exactly. */
  predicate Bridgeable(gap: int)
  {
    gap == 0 || gap == 3 || gap >= 5
  }

  /** The callback's verdict on a pair: both scans reach past the block and the filter passes. */
  predicate Accepted(b1: seq<byte>, b2: seq<byte>, overlayLength: nat)
    requires |b1| == 128 && |b2| == 128
  {
    var r1 := PathEnd(b1, 19);
    var r2 := PathEnd(b2, 19);
    r1.Some? && r2.Some? && Accept(r1.value, r2.value, overlayLength)
  }

  /** For an accepted pair: hide and show blocks, each with its own chain's end, hide first. */
  function Chosen(b1: seq<byte>, b2: seq<byte>, overlayLength: nat): (c: Paths)
    requires |b1| == 128 && |b2| == 128 && overlayLength > 0 && Accepted(b1, b2, overlayLength)
    ensures 128 <= c.hideOffset && c.hideOffset + overlayLength <= c.showOffset <= 253
    ensures Bridgeable(c.showOffset - c.hideOffset - overlayLength)
    ensures |c.hideBlock| == 128 && PathEnd(c.hideBlock, 19) == Some(c.hideOffset)
    ensures |c.showBlock| == 128 && PathEnd(c.showBlock, 19) == Some(c.showOffset)
    ensures (c.hideBlock, c.showBlock) == (b1, b2) || (c.hideBlock, c.showBlock) == (b2, b1)
  {
    PathEndBounds(b1, 19);
    PathEndBounds(b2, 19);
    Choose(b1, b2, PathEnd(b1, 19).value, PathEnd(b2, 19).value, overlayLength)
  }

  /** v as 2 little-endian bytes, as WriteUInt16LittleEndian stores it. */
  function LE16(v: nat): (r: seq<byte>)
    requires v < 65536
    ensures |r| == 2
  {
    LittleEndian(v, 2)
  }

  /** The overlay template with its Image Descriptor's left and top (bytes 9 to 12) set to x and y. */
  function Located(template: seq<byte>, x: nat, y: nat): (r: seq<byte>)
    requires 13 <= |template| && x < 65536 && y < 65536
    ensures |r| == |template|
  {
    template[..9] + LE16(x) + LE16(y) + template[13..]
  }

  /** A decoder reads x and y back from the left and top fields; every other byte is the template's. */
  lemma LocatedFields(template: seq<byte>, x: nat, y: nat)
    requires 13 <= |template| && x < 65536 && y < 65536
    ensures var r := Located(template, x, y);
            FromLittleEndian(r[9..11]) == x && FromLittleEndian(r[11..13]) == y &&
            r[..9] == template[..9] && r[13..] == template[13..]
  {
    var r := Located(template, x, y);
    assert r[9..11] == LE16(x) && r[11..13] == LE16(y);
    Pow2Sixteen();
    LittleEndianRoundTrip(x, 2);
    LittleEndianRoundTrip(y, 2);
  }

  lemma Pow2Sixteen()
    ensures Pow2(8 * 2) == 65536
  {
    Pow2Plus8(8);
    Pow2Plus8(0);
  }

  // ---------------------------------------------------------------------------------------------
  // WriteCommonData: the bytes after the pair.

  /**
   * The comment that closes a gap of the given size after the overlay (nothing for no gap). It
   * fills the gap exactly unless the gap is 1, 2 or 4 bytes, the sizes the filter turns away.
   */
  function Bridge(gap: nat): (r: seq<byte>)
    requires gap < 260
    ensures |r| == gap <==> Bridgeable(gap)
  {
    if gap == 0 then []
    else if gap > 4 then [0x21, 0xfe, (gap - 4) as byte] + Sign(gap - 4) + [0]
    else [0x21, 0xfe, 0]
  }

  /**
   * Filler up to the hide path's end, the zero length byte that ends its comment there, the overlay
   * image, and the bridge up to the show path's end.
   */
  function CommonData(hideOffset: nat, showOffset: nat, overlay: seq<byte>): seq<byte>
    requires 128 <= hideOffset && hideOffset + |overlay| <= showOffset <= 253
  {
    Sign(hideOffset - 128) + [0] + overlay + Bridge(showOffset - hideOffset - |overlay|)
  }

  /**
   * After the 128-byte pair the common data ends exactly at the show path's end, precisely for
   * the gaps the filter lets through.
   */
  lemma CommonDataLength(hideOffset: nat, showOffset: nat, overlay: seq<byte>)
    requires 128 <= hideOffset && hideOffset + |overlay| <= showOffset <= 253
    ensures 128 + |CommonData(hideOffset, showOffset, overlay)| == showOffset + 1 <==>
            Bridgeable(showOffset - hideOffset - |overlay|)
  {
  }

  /**
   * Where the chain of sub-blocks whose first length byte is at p ends in the stream s: the
   * position of the zero length byte, or None when the stream ends first.
   */
  function SkipBlocks(s: seq<byte>, p: nat): Option<nat>
    decreases |s| - p
  {
    if p >= |s| then None
    else if s[p] == 0 then Some(p)
    else SkipBlocks(s, p + s[p] as nat + 1)
  }

  /** A block's chain, followed in a stream that holds the block at base, ends where PathEnd said. */
  lemma {:induction false} ChainThrough(s: seq<byte>, base: nat, block: seq<byte>, p: nat, q: nat)
    requires |block| == 128 && base + 128 <= |s| && s[base..base + 128] == block
    requires PathEnd(block, p) == Some(q) && base + q < |s| && s[base + q] == 0
    ensures SkipBlocks(s, base + p) == Some(base + q)
    decreases 128 - p
  {
    if p < 128 {
      assert s[base + p] == block[p];
      ChainThrough(s, base, block, p + block[p] as nat + 1, q);
    }
  }

  /**
   * The hide path: with the hide block in place, a decoder's comment ends at hideOffset, the
   * overlay image follows, and (unless the gap is 0) a comment whose chain ends at showOffset.
   * Both paths then end at the same byte, the stream's last.
   */
  lemma HidePath(pre: seq<byte>, hideBlock: seq<byte>, hideOffset: nat, showOffset: nat, overlay: seq<byte>)
    requires |hideBlock| == 128 && PathEnd(hideBlock, 19) == Some(hideOffset)
    requires 128 <= hideOffset && hideOffset + |overlay| <= showOffset <= 253
    requires Bridgeable(showOffset - hideOffset - |overlay|)
    ensures HideParse(pre + hideBlock + CommonData(hideOffset, showOffset, overlay), |pre|, hideOffset, showOffset, overlay)
  {
    var tail := CommonData(hideOffset, showOffset, overlay);
    var s := pre + hideBlock + tail;
    assert s[|pre|..|pre| + 128] == hideBlock;
    assert s[|pre| + 128..] == tail;
    HideParts(s, |pre|, hideBlock, hideOffset, showOffset, overlay);
  }

  lemma HideParts(s: seq<byte>, b: nat, hideBlock: seq<byte>, hideOffset: nat, showOffset: nat, overlay: seq<byte>)
    requires |hideBlock| == 128 && PathEnd(hideBlock, 19) == Some(hideOffset)
    requires 128 <= hideOffset && hideOffset + |overlay| <= showOffset <= 253
    requires Bridgeable(showOffset - hideOffset - |overlay|)
    requires b + 128 <= |s| && s[b..b + 128] == hideBlock && s[b + 128..] == CommonData(hideOffset, showOffset, overlay)
    ensures HideParse(s, b, hideOffset, showOffset, overlay)
  {
    var after := b + hideOffset + |overlay|;
    HideEnd(s, b, hideBlock, hideOffset, showOffset, overlay);
    OverlayAt(s, b, hideOffset, showOffset, overlay, after + 1);
    BridgeAfter(s, b, hideOffset, showOffset, overlay, after);
  }

  lemma HideEnd(s: seq<byte>, b: nat, hideBlock: seq<byte>, hideOffset: nat, showOffset: nat, overlay: seq<byte>)
    requires |hideBlock| == 128 && PathEnd(hideBlock, 19) == Some(hideOffset)
    requires 128 <= hideOffset && hideOffset + |overlay| <= showOffset <= 253
    requires Bridgeable(showOffset - hideOffset - |overlay|)
    requires b + 128 <= |s| && s[b..b + 128] == hideBlock && s[b + 128..] == CommonData(hideOffset, showOffset, overlay)
    ensures |s| == b + showOffset + 1
    ensures SkipBlocks(s, b + 19) == Some(b + hideOffset)
  {
    var tail := CommonData(hideOffset, showOffset, overlay);
    CommonDataLength(hideOffset, showOffset, overlay);
    CommonDataShape(hideOffset, showOffset, overlay);
    assert s[b + hideOffset] == tail[hideOffset - 128];
    ChainThrough(s, b, hideBlock, 19, hideOffset);
  }

  lemma OverlayAt(s: seq<byte>, b: nat, hideOffset: nat, showOffset: nat, overlay: seq<byte>, e: nat)
    requires 128 <= hideOffset && hideOffset + |overlay| <= showOffset <= 253
    requires b + 128 <= |s| && s[b + 128..] == CommonData(hideOffset, showOffset, overlay)
    requires e == b + hideOffset + |overlay| + 1
    ensures e <= |s| && s[b + hideOffset + 1..e] == overlay
  {
    var tail := CommonData(hideOffset, showOffset, overlay);
    CommonDataShape(hideOffset, showOffset, overlay);
    Slice(s, b + 128, tail, hideOffset - 127, |overlay|, b + hideOffset + 1, e);
  }

  lemma BridgeAfter(s: seq<byte>, b: nat, hideOffset: nat, showOffset: nat, overlay: seq<byte>, after: nat)
    requires 128 <= hideOffset && hideOffset + |overlay| <= showOffset <= 253
    requires Bridgeable(showOffset - hideOffset - |overlay|)
    requires b + 128 <= |s| && s[b + 128..] == CommonData(hideOffset, showOffset, overlay)
    requires after == b + hideOffset + |overlay|
    ensures Bridged(s, after, b + showOffset)
  {
    var tail := CommonData(hideOffset, showOffset, overlay);
    CommonDataShape(hideOffset, showOffset, overlay);
    Suffix(s, b + 128, tail, hideOffset - 127 + |overlay|, after + 1);
    BridgeAt(s, after, b + showOffset, showOffset - hideOffset - |overlay|);
  }

  lemma BridgeAt(s: seq<byte>, after: nat, end: nat, gap: nat)
    requires gap < 260 && Bridgeable(gap) && after + gap == end
    requires after + 1 <= |s| && s[after + 1..] == Bridge(gap)
    ensures Bridged(s, after, end)
  {
    if gap > 0 {
      BridgeEnds(s, after, gap);
    }
  }

  lemma Slice(s: seq<byte>, i: nat, t: seq<byte>, j: nat, n: nat, k: nat, e: nat)
    requires i <= |s| && s[i..] == t && j + n <= |t| && k == i + j && e == k + n
    ensures s[k..e] == t[j..j + n]
  {
    assert forall x :: 0 <= x < n ==> s[k..e][x] == s[i..][j + x];
  }

  lemma Suffix(s: seq<byte>, i: nat, t: seq<byte>, j: nat, k: nat)
    requires i <= |s| && s[i..] == t && j <= |t| && k == i + j
    ensures s[k..] == t[j..]
  {
    assert forall x :: 0 <= x < |t| - j ==> s[k..][x] == s[i..][j + x];
  }

  /**
   * How a decoder reads the stream s along the hide path of the pair at b: its comment ends at
   * b + hideOffset, the overlay image follows, then (unless nothing is left) a comment whose chain
   * ends at b + showOffset, the stream's last byte.
   */
  predicate HideParse(s: seq<byte>, b: nat, hideOffset: nat, showOffset: nat, overlay: seq<byte>)
  {
    var after := b + hideOffset + |overlay|;
    |s| == b + showOffset + 1 && after <= b + showOffset &&
    SkipBlocks(s, b + 19) == Some(b + hideOffset) &&
    s[b + hideOffset + 1..after + 1] == overlay &&
    Bridged(s, after, b + showOffset)
  }

  /** Either nothing lies between after and end, or a comment starts just after after and ends at end. */
  predicate Bridged(s: seq<byte>, after: nat, end: nat)
  {
    after < end ==>
      after + 3 <= |s| && s[after + 1] == 0x21 && s[after + 2] == 0xfe && SkipBlocks(s, after + 3) == Some(end)
  }

  /** Where the pieces of the common data sit, counted from the end of the pair. */
  lemma CommonDataShape(hideOffset: nat, showOffset: nat, overlay: seq<byte>)
    requires 128 <= hideOffset && hideOffset + |overlay| <= showOffset <= 253
    ensures var tail := CommonData(hideOffset, showOffset, overlay);
            var k := hideOffset - 127;
            |tail| == k + |overlay| + |Bridge(showOffset - hideOffset - |overlay|)| &&
            tail[k - 1] == 0 && tail[k..k + |overlay|] == overlay &&
            tail[k + |overlay|..] == Bridge(showOffset - hideOffset - |overlay|)
  {
    var tail := CommonData(hideOffset, showOffset, overlay);
    var filler := Sign(hideOffset - 128);
    var bridge := Bridge(showOffset - hideOffset - |overlay|);
    assert tail == (filler + [0]) + overlay + bridge;
  }

  /** A bridge for a non-zero gap, just after position after, is a comment ending at the stream's last byte. */
  lemma BridgeEnds(s: seq<byte>, after: nat, gap: nat)
    requires 0 < gap < 260 && Bridgeable(gap) && after + 1 <= |s| && s[after + 1..] == Bridge(gap)
    ensures after + 1 + gap == |s|
    ensures s[after + 1] == 0x21 && s[after + 2] == 0xfe && SkipBlocks(s, after + 3) == Some(after + gap)
  {
    var bridge := Bridge(gap);
    assert s[after + 3] == bridge[2];
    if gap > 4 {
      assert s[after + 3 + bridge[2] as nat + 1] == bridge[gap - 1];
    }
  }

  /**
   * The show path: with the show block in place, a decoder's comment runs on past the hide path's
   * end and the overlay, up to the stream's last byte, which ends it.
   */
  lemma ShowPath(pre: seq<byte>, showBlock: seq<byte>, hideOffset: nat, showOffset: nat, overlay: seq<byte>)
    requires |showBlock| == 128 && PathEnd(showBlock, 19) == Some(showOffset)
    requires 128 <= hideOffset && hideOffset + |overlay| <= showOffset <= 253
    requires Bridgeable(showOffset - hideOffset - |overlay|)
    requires overlay != [] && overlay[|overlay| - 1] == 0
    ensures var s := pre + showBlock + CommonData(hideOffset, showOffset, overlay);
            |s| == |pre| + showOffset + 1 && SkipBlocks(s, |pre| + 19) == Some(|pre| + showOffset)
  {
    var tail := CommonData(hideOffset, showOffset, overlay);
    var s := pre + showBlock + tail;
    var b := |pre|;
    CommonDataLength(hideOffset, showOffset, overlay);
    assert s[b..b + 128] == showBlock;
    assert s[|s| - 1] == tail[|tail| - 1] == 0;
    ChainThrough(s, b, showBlock, 19, showOffset);
  }

  // ---------------------------------------------------------------------------------------------
  // The tail: a comment that holds the 8-byte nonce, then the trailer.

  /** Bytes from stream length n to the next 64-byte boundary (0 when on one). */
  function TailSpace(n: nat): nat
  {
    if n % 64 != 0 then 64 - n % 64 else 0
  }

  /**
   * The comment written at stream length n, then the trailer 0x3b: with fewer than 22 bytes left
   * in the block, a 34-byte comment that reaches into a new block; otherwise an 8-byte one. Either
   * way it is a comment extension whose single sub-block holds at least 8 zero bytes.
   */
  function TailBytes(n: nat): (r: seq<byte>)
    ensures |r| >= 13 && |r| == 5 + r[2] as nat && r[..2] == [0x21, 0xfe] && r[2] as nat >= 8
    ensures forall i :: 3 <= i < 3 + r[2] as nat ==> r[i] == 0
    ensures r[|r| - 2] == 0 && r[|r| - 1] == 0x3b
  {
    if TailSpace(n) < 22 then [0x21, 0xfe, 34] + Zeros(34) + [0] + [0x3b]
    else [0x21, 0xfe, 8] + Zeros(8) + [0] + [0x3b]
  }

  /** nonceOffset: where the nonce starts inside the last 64-byte block. */
  function NonceOffset(n: nat): nat
  {
    if TailSpace(n) < 22 then 8 else n % 64 + 3
  }

  /**
   * After the tail the last block has room for the MD5 padding (at most 55 bytes used), and the
   * nonce's 8 bytes lie in that block, end at or before byte 56, and sit inside the zero data of
   * the tail comment's single sub-block.
   */
  lemma TailLayout(n: nat)
    ensures var t := TailBytes(n);
            var m := n + |t|;
            var a := m - m % 64;
            var o := NonceOffset(n);
            m % 64 <= 55 && o + 8 <= 56 &&
            t[..2] == [0x21, 0xfe] && |t| == 5 + t[2] as nat && t[3 + t[2] as nat] == 0 && t[|t| - 1] == 0x3b &&
            n + 3 <= a + o && a + o + 8 <= n + 3 + t[2] as nat &&
            forall i :: a + o - n <= i < a + o - n + 8 ==> t[i] == 0
  {
  }
}
