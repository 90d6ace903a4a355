/**
 * The last part of MD5Gif/Program.cs: with the digest of the finished stream known, every
 * collisionCache entry gets the block of its pair that shows or hides its stroke, so that the
 * digits drawn spell the digest; and the two debug images with every stroke shown or hidden.
 */
module Select {
  import opened Bits
  import opened Md5
  import opened Digest
  import opened Weave
  import Digits
  import Layout

  /** The block of the pair that is copied in: showBlock when show, else hideBlock. */
  function Pick(r: Record, show: bool): seq<byte>
  {
    if show then r.showBlock else r.hideBlock
  }

  /** The stream f after the first k entries of cache got their picked block, in cache order. */
  function Overlaid(f: seq<byte>, cache: seq<Record>, shows: seq<bool>, k: nat): (r: seq<byte>)
    requires k <= |cache| && k <= |shows| && Laid(cache, |f|)
    ensures |r| == |f|
    decreases k
  {
    if k == 0 then f
    else
      var e := cache[k - 1];
      var prev := Overlaid(f, cache, shows, k - 1);
      var x := Pick(e, shows[k - 1]);
      seq(|f|, p requires 0 <= p < |f| => if e.offset <= p < e.offset + 128 then x[p - e.offset] else prev[p])
  }

  /** p lies in none of the windows of the first k entries. */
  predicate Outside(cache: seq<Record>, k: nat, p: nat)
    requires k <= |cache|
  {
    forall i :: 0 <= i < k ==> !(cache[i].offset <= p < cache[i].offset + 128)
  }

  /** Overlaid one step further is one more patch. */
  lemma OverlaidNext(f: seq<byte>, cache: seq<Record>, shows: seq<bool>, k: nat)
    requires 0 < k <= |cache| && k <= |shows| && Laid(cache, |f|)
    ensures Overlaid(f, cache, shows, k) ==
            Patch(Overlaid(f, cache, shows, k - 1), cache[k - 1].offset, Pick(cache[k - 1], shows[k - 1]))
  {
    var e := cache[k - 1];
    var x := Pick(e, shows[k - 1]);
    var prev := Overlaid(f, cache, shows, k - 1);
    var r := Overlaid(f, cache, shows, k);
    forall p | 0 <= p < |f|
      ensures r[p] == Patch(prev, e.offset, x)[p]
    {
      if e.offset <= p < e.offset + 128 {
        PatchInside(prev, e.offset, x, p);
      } else {
        PatchOutside(prev, e.offset, x, p);
      }
    }
  }

  /** After the first k entries are written, entry i < k's window holds its picked block. */
  lemma OverlaidWindow(f: seq<byte>, cache: seq<Record>, shows: seq<bool>, k: nat, i: nat)
    requires k <= |cache| && k <= |shows| && Laid(cache, |f|) && i < k
    ensures Overlaid(f, cache, shows, k)[cache[i].offset..cache[i].offset + 128] == Pick(cache[i], shows[i])
  {
    var o := cache[i].offset;
    var r := Overlaid(f, cache, shows, k);
    forall p | o <= p < o + 128
      ensures r[p] == Pick(cache[i], shows[i])[p - o]
    {
      OverlaidByte(f, cache, shows, k, i, p);
    }
  }

  /** Byte p of entry i's window, i < k, is the matching byte of its picked block. */
  lemma {:induction false} OverlaidByte(f: seq<byte>, cache: seq<Record>, shows: seq<bool>, k: nat, i: nat, p: nat)
    requires k <= |cache| && k <= |shows| && Laid(cache, |f|) && i < k
    requires cache[i].offset <= p < cache[i].offset + 128
    ensures Overlaid(f, cache, shows, k)[p] == Pick(cache[i], shows[i])[p - cache[i].offset]
    decreases k
  {
    if i < k - 1 {
      OverlaidByte(f, cache, shows, k - 1, i, p);
      assert p < cache[k - 1].offset;
    }
  }

  /** A patch puts x's bytes in its range. */
  lemma PatchInside(prev: seq<byte>, at: nat, x: seq<byte>, p: nat)
    requires at + |x| <= |prev| && at <= p < at + |x|
    ensures Patch(prev, at, x)[p] == x[p - at]
  {
    var r := Patch(prev, at, x);
    assert r[at..at + |x|][p - at] == x[p - at];
  }

  /** A patch leaves every byte outside the patched range as it was. */
  lemma PatchOutside(prev: seq<byte>, at: nat, x: seq<byte>, p: nat)
    requires at + |x| <= |prev| && p < |prev| && !(at <= p < at + |x|)
    ensures Patch(prev, at, x)[p] == prev[p]
  {
    var r := Patch(prev, at, x);
    if p < at {
      assert r[..at][p] == prev[..at][p];
    } else {
      assert r[at + |x|..][p - at - |x|] == prev[at + |x|..][p - at - |x|];
    }
  }

  /** A byte outside the windows of the first k entries is the byte of f. */
  lemma {:induction false} OverlaidOutside(f: seq<byte>, cache: seq<Record>, shows: seq<bool>, k: nat, p: nat)
    requires k <= |cache| && k <= |shows| && Laid(cache, |f|) && p < |f| && Outside(cache, k, p)
    ensures Overlaid(f, cache, shows, k)[p] == f[p]
    decreases k
  {
    if k > 0 {
      assert !(cache[k - 1].offset <= p < cache[k - 1].offset + 128);
      OverlaidOutside(f, cache, shows, k - 1, p);
    }
  }

  /** The windows of entries at or after k are as in f. */
  lemma OverlaidLater(f: seq<byte>, cache: seq<Record>, shows: seq<bool>, k: nat, j: nat)
    requires k <= |cache| && k <= |shows| && Laid(cache, |f|) && k <= j < |cache|
    ensures Overlaid(f, cache, shows, k)[cache[j].offset..cache[j].offset + 128] == f[cache[j].offset..cache[j].offset + 128]
  {
    var o := cache[j].offset;
    var r := Overlaid(f, cache, shows, k);
    forall p | o <= p < o + 128
      ensures r[p] == f[p]
    {
      assert Outside(cache, k, p);
      OverlaidOutside(f, cache, shows, k, p);
    }
  }

  /** Writing picked blocks keeps every window holding one of its two blocks. */
  lemma OverlaidCarries(f: seq<byte>, cache: seq<Record>, shows: seq<bool>, k: nat)
    requires k <= |cache| && k <= |shows| && Laid(cache, |f|) && Carries(f, cache)
    ensures Laid(cache, |Overlaid(f, cache, shows, k)|) && Carries(Overlaid(f, cache, shows, k), cache)
  {
    var r := Overlaid(f, cache, shows, k);
    forall i | 0 <= i < |cache|
      ensures r[cache[i].offset..cache[i].offset + 128] == cache[i].hideBlock ||
              r[cache[i].offset..cache[i].offset + 128] == cache[i].showBlock
    {
      if i < k {
        OverlaidWindow(f, cache, shows, k, i);
      } else {
        OverlaidLater(f, cache, shows, k, i);
      }
    }
  }

  // ---------------------------------------------------------------------------------------------
  // Why the selection keeps the digest: each pair is a collision for the chaining value in front
  // of it, so either block leaves the chaining value after the pair, and so the digest, as it was.
  // The argument uses only the block-by-block structure of Chain, so it is made for any block
  // function h (Fold) and then applied to the MD5 block function (Absorb).

  /**
   * What FindCollision promises about each entry of f: the pair starts on a block boundary and
   * both its blocks take the chaining value of the stream before it to the same value.
   */
  predicate Collide(f: seq<byte>, cache: seq<Record>)
    requires Laid(cache, |f|)
  {
    forall i :: 0 <= i < |cache| ==>
      var o := cache[i].offset;
      o % 64 == 0 && Chain(Chain(InitIV, f[..o]), cache[i].hideBlock) == Chain(Chain(InitIV, f[..o]), cache[i].showBlock)
  }

  /** A block function: the chaining value after one 64-byte block. */
  type Absorber = (seq<Word>, seq<byte>) -> seq<Word>

  /** Chain with the block function h in place of transform_block. */
  function Fold(h: Absorber, c: seq<Word>, s: seq<byte>): seq<Word>
    decreases |s|
  {
    if |s| < 64 then c else Fold(h, h(c, s[..64]), s[64..])
  }

  /** The MD5 block function, total: transform_block on the block's sixteen words. */
  function Absorb(c: seq<Word>, block: seq<byte>): seq<Word>
  {
    if |c| == 4 && |block| == 64 then Compress(c, Words(block)) else c
  }

  /** Folding with the MD5 block function is Chain. */
  lemma {:induction false} FoldIsChain(c: seq<Word>, s: seq<byte>)
    requires |c| == 4
    ensures Fold(Absorb, c, s) == Chain(c, s)
    decreases |s|
  {
    if |s| >= 64 {
      assert Absorb(c, s[..64]) == Compress(c, Words(s[..64]));
      FoldIsChain(Compress(c, Words(s[..64])), s[64..]);
    }
  }

  /** Folding a whole number of blocks and then more is folding in two goes. */
  lemma {:induction false} FoldAppend(h: Absorber, c: seq<Word>, a: seq<byte>, b: seq<byte>)
    requires |a| % 64 == 0
    ensures Fold(h, c, a + b) == Fold(h, Fold(h, c, a), b)
    decreases |a|
  {
    if |a| > 0 {
      assert (a + b)[..64] == a[..64];
      assert (a + b)[64..] == a[64..] + b;
      FoldAppend(h, h(c, a[..64]), a[64..], b);
    } else {
      assert a + b == b;
    }
  }

  /** Collide for a block function h and an initial value c0. */
  predicate CollideBy(h: Absorber, c0: seq<Word>, f: seq<byte>, cache: seq<Record>)
    requires Laid(cache, |f|)
  {
    forall i :: 0 <= i < |cache| ==>
      var o := cache[i].offset;
      o % 64 == 0 && Fold(h, Fold(h, c0, f[..o]), cache[i].hideBlock) == Fold(h, Fold(h, c0, f[..o]), cache[i].showBlock)
  }

  /** The collision promise about MD5 is the one about its block function. */
  lemma CollideIsBy(f: seq<byte>, cache: seq<Record>)
    requires Laid(cache, |f|) && Collide(f, cache)
    ensures CollideBy(Absorb, InitIV, f, cache)
  {
    forall i | 0 <= i < |cache|
      ensures var o := cache[i].offset;
              Fold(Absorb, Fold(Absorb, InitIV, f[..o]), cache[i].hideBlock) ==
              Fold(Absorb, Fold(Absorb, InitIV, f[..o]), cache[i].showBlock)
    {
      var o := cache[i].offset;
      FoldIsChain(InitIV, f[..o]);
      FoldIsChain(Chain(InitIV, f[..o]), cache[i].hideBlock);
      FoldIsChain(Chain(InitIV, f[..o]), cache[i].showBlock);
    }
  }
  /** And back: a collision of the block function is a collision of MD5. */
  lemma ByIsCollide(f: seq<byte>, cache: seq<Record>)
    requires Laid(cache, |f|) && CollideBy(Absorb, InitIV, f, cache)
    ensures Collide(f, cache)
  {
    forall i | 0 <= i < |cache|
      ensures var o := cache[i].offset;
              Chain(Chain(InitIV, f[..o]), cache[i].hideBlock) == Chain(Chain(InitIV, f[..o]), cache[i].showBlock)
    {
      var o := cache[i].offset;
      FoldIsChain(InitIV, f[..o]);
      FoldIsChain(Chain(InitIV, f[..o]), cache[i].hideBlock);
      FoldIsChain(Chain(InitIV, f[..o]), cache[i].showBlock);
    }
  }

  /** For any block function, bytes that follow every window keep each pair's collision. */
  lemma CollideByKept(h: Absorber, c0: seq<Word>, f: seq<byte>, g: seq<byte>, n: nat, cache: seq<Record>)
    requires Laid(cache, n) && n <= |f| && n <= |g| && f[..n] == g[..n] && CollideBy(h, c0, f, cache)
    ensures Laid(cache, |g|) && CollideBy(h, c0, g, cache)
  {
    forall i | 0 <= i < |cache|
      ensures g[..cache[i].offset] == f[..cache[i].offset]
    {
      var o := cache[i].offset;
      assert g[..o] == g[..n][..o] == f[..n][..o] == f[..o];
    }
  }

  /**
   * Bytes written after the windows keep the promise: the tail appended by the collision loop and
   * the nonce Seal writes past every entry leave each chaining value in front of a pair as it was.
   */
  lemma CollideKept(f: seq<byte>, g: seq<byte>, n: nat, cache: seq<Record>)
    requires Laid(cache, n) && n <= |f| && n <= |g| && f[..n] == g[..n] && Collide(f, cache)
    ensures Laid(cache, |g|) && Collide(g, cache)
  {
    CollideIsBy(f, cache);
    CollideByKept(Absorb, InitIV, f, g, n, cache);
    ByIsCollide(g, cache);
  }

  /** For any block function, an entry appended at a block boundary that collides for what precedes it. */
  lemma CollideByAppend(h: Absorber, c0: seq<Word>, data0: seq<byte>, cache0: seq<Record>, more: seq<byte>, r: Record)
    requires Laid(cache0, |data0|) && CollideBy(h, c0, data0, cache0) && |data0| % 64 == 0
    requires r.offset == |data0| && |r.hideBlock| == 128 && |r.showBlock| == 128 && 128 <= |more|
    requires Fold(h, Fold(h, c0, data0), r.hideBlock) == Fold(h, Fold(h, c0, data0), r.showBlock)
    ensures Laid(cache0 + [r], |data0 + more|) && CollideBy(h, c0, data0 + more, cache0 + [r])
  {
    var data := data0 + more;
    assert data[..|data0|] == data0;
    CollideByKept(h, c0, data0, data, |data0|, cache0);
  }

  /** An entry appended at a block boundary, colliding for the chaining value of what precedes it. */
  lemma CollideAppend(data0: seq<byte>, cache0: seq<Record>, more: seq<byte>, r: Record)
    requires Laid(cache0, |data0|) && Collide(data0, cache0) && |data0| % 64 == 0
    requires r.offset == |data0| && |r.hideBlock| == 128 && |r.showBlock| == 128 && 128 <= |more|
    requires Chain(Chain(InitIV, data0), r.hideBlock) == Chain(Chain(InitIV, data0), r.showBlock)
    ensures Laid(cache0 + [r], |data0 + more|) && Collide(data0 + more, cache0 + [r])
  {
    CollideIsBy(data0, cache0);
    FoldIsChain(InitIV, data0);
    FoldIsChain(Chain(InitIV, data0), r.hideBlock);
    FoldIsChain(Chain(InitIV, data0), r.showBlock);
    CollideByAppend(Absorb, InitIV, data0, cache0, more, r);
    ByIsCollide(data0 + more, cache0 + [r]);
  }

  /** What one pass appends: the first block and the common data, and the entry at the old end. */
  lemma WovenAppends(data0: seq<byte>, cache0: seq<Record>, data: seq<byte>, cache: seq<Record>,
                     b1: seq<byte>, b2: seq<byte>, template: seq<byte>, numIndex: nat, strokeIndex: nat)
      returns (more: seq<byte>, r: Record)
    requires |b1| == 128 && |b2| == 128 && 13 <= |template| && numIndex < 32 && strokeIndex < 7
    requires Layout.Accepted(b1, b2, |template|) && Woven(data0, cache0, data, cache, b1, b2, template, numIndex, strokeIndex)
    ensures data == data0 + more && 128 <= |more| && cache == cache0 + [r] && r.offset == |data0|
    ensures (r.hideBlock, r.showBlock) == (b1, b2) || (r.hideBlock, r.showBlock) == (b2, b1)
  {
    var c := Layout.Chosen(b1, b2, |template|);
    var p := Digits.OverlayLocation(numIndex, strokeIndex);
    more := b1 + Layout.CommonData(c.hideOffset, c.showOffset, Layout.Located(template, p.x, p.y));
    r := Record(|data0|, c.hideBlock, c.showBlock);
  }

  /**
   * One pass of the collision loop keeps the promise when FindCollision keeps its own: the pair
   * accepted for the padded stream collides for the IV it was handed, the chaining value of the
   * padded stream, and the new entry sits at the padded stream's end.
   */
  lemma CollideWoven(data0: seq<byte>, cache0: seq<Record>, data: seq<byte>, cache: seq<Record>,
                     b1: seq<byte>, b2: seq<byte>, template: seq<byte>, numIndex: nat, strokeIndex: nat)
    requires |b1| == 128 && |b2| == 128 && 13 <= |template| && numIndex < 32 && strokeIndex < 7
    requires Layout.Accepted(b1, b2, |template|) && Woven(data0, cache0, data, cache, b1, b2, template, numIndex, strokeIndex)
    requires Laid(cache0, |data0|) && Collide(data0, cache0) && |data0| % 64 == 0
    requires Chain(Chain(InitIV, data0), b1) == Chain(Chain(InitIV, data0), b2)
    ensures Laid(cache, |data|) && Collide(data, cache)
  {
    var more, r := WovenAppends(data0, cache0, data, cache, b1, b2, template, numIndex, strokeIndex);
    CollideAppend(data0, cache0, more, r);
  }

  /**
   * Each stroke's pass keeps the promise when every pair the callback would accept collides for
   * the IV FindCollision was handed: the chaining value of the padded stream.
   */
  lemma CollideStroked(padded: seq<byte>, cache0: seq<Record>, data: seq<byte>, cache: seq<Record>, pairs: seq<Pair>,
                       template: seq<byte>, numIndex: nat, strokeIndex: nat, found: bool)
    requires Blocks128(pairs) && 13 <= |template| && numIndex < 32 && strokeIndex < 7
    requires Stroked(padded, cache0, data, cache, pairs, template, numIndex, strokeIndex, found)
    requires Laid(cache0, |padded|) && Collide(padded, cache0) && |padded| % 64 == 0
    requires forall k :: 0 <= k < |pairs| && AcceptedPair(pairs, k, |template|) ==>
               Chain(Chain(InitIV, padded), pairs[k].0) == Chain(Chain(InitIV, padded), pairs[k].1)
    ensures Laid(cache, |data|) && Collide(data, cache)
  {
    if found {
      var k: nat :| k < |pairs| && FirstAccepted(pairs, k, |template|) &&
                    Woven(padded, cache0, data, cache, pairs[k].0, pairs[k].1, template, numIndex, strokeIndex);
      CollideWoven(padded, cache0, data, cache, pairs[k].0, pairs[k].1, template, numIndex, strokeIndex);
    }
  }


  /**
   * g is f with some choice of block in each window: every window of g holds one of its two
   * blocks, and every byte outside the windows is f's.
   */
  predicate Swapped(g: seq<byte>, f: seq<byte>, cache: seq<Record>)
    requires Laid(cache, |f|)
  {
    |g| == |f| && Carries(g, cache) &&
    forall p :: 0 <= p < |f| && Outside(cache, |cache|, p) ==> g[p] == f[p]
  }

  /** No window of cache meets [b, q): windows before k end by b, windows from k on start at q or later. */
  predicate Gap(cache: seq<Record>, k: nat, b: nat, q: nat)
    requires k <= |cache|
  {
    (k == 0 || cache[k - 1].offset + 128 <= b) && (k == |cache| || q <= cache[k].offset)
  }

  /** Between windows, a swapped stream is f. */
  lemma GapAgrees(g: seq<byte>, f: seq<byte>, cache: seq<Record>, k: nat, b: nat, q: nat)
    requires Laid(cache, |f|) && Swapped(g, f, cache) && k <= |cache| && b <= q <= |f| && Gap(cache, k, b, q)
    ensures g[b..q] == f[b..q]
  {
    forall p | b <= p < q
      ensures g[p] == f[p]
    {
      forall i | 0 <= i < |cache|
        ensures !(cache[i].offset <= p < cache[i].offset + 128)
      {
        if i < k - 1 {
          assert cache[i].offset + 128 <= cache[k - 1].offset;
        } else if k < i {
          assert cache[k].offset + 128 <= cache[i].offset;
        }
      }
      assert Outside(cache, |cache|, p);
    }
  }

  /**
   * The chaining value of a block-aligned prefix of a swapped stream that ends between windows k - 1
   * and k is the one of f: induction over the windows, each pair colliding after equal prefixes.
   */
  lemma {:induction false} PrefixFold(h: Absorber, c0: seq<Word>, g: seq<byte>, f: seq<byte>, cache: seq<Record>, k: nat, q: nat)
    requires Laid(cache, |f|) && Carries(f, cache) && CollideBy(h, c0, f, cache) && Swapped(g, f, cache) && k <= |cache|
    requires q % 64 == 0 && q <= |f| && Gap(cache, k, q, q)
    ensures Fold(h, c0, g[..q]) == Fold(h, c0, f[..q])
    decreases k
  {
    if k == 0 {
      GapAgrees(g, f, cache, 0, 0, q);
      assert g[..q] == f[..q];
    } else {
      var o := cache[k - 1].offset;
      assert k - 1 == 0 || cache[k - 2].offset + 128 <= o;
      PrefixFold(h, c0, g, f, cache, k - 1, o);
      var x := g[o..o + 128];
      assert f[o..o + 128] == cache[k - 1].hideBlock || f[o..o + 128] == cache[k - 1].showBlock;
      assert x == cache[k - 1].hideBlock || x == cache[k - 1].showBlock;
      GapAgrees(g, f, cache, k, o + 128, q);
      FoldThree(h, c0, g, o, q);
      FoldThree(h, c0, f, o, q);
    }
  }

  /** The fold of s[..q] in three parts: up to o, the 128 bytes at o, and the rest. */
  lemma FoldThree(h: Absorber, c0: seq<Word>, s: seq<byte>, o: nat, q: nat)
    requires o % 64 == 0 && o + 128 <= q <= |s|
    ensures Fold(h, c0, s[..q]) == Fold(h, Fold(h, Fold(h, c0, s[..o]), s[o..o + 128]), s[o + 128..q])
  {
    assert s[..q] == s[..o] + s[o..q];
    FoldAppend(h, c0, s[..o], s[o..q]);
    assert s[o..q] == s[o..o + 128] + s[o + 128..q];
    FoldAppend(h, Fold(h, c0, s[..o]), s[o..o + 128], s[o + 128..q]);
  }

  /** Whichever block each colliding pair holds, the fold of the stream and any suffix is that of f. */
  lemma SwappedFold(h: Absorber, c0: seq<Word>, g: seq<byte>, f: seq<byte>, cache: seq<Record>, pad: seq<byte>)
    requires Laid(cache, |f|) && Carries(f, cache) && CollideBy(h, c0, f, cache) && Swapped(g, f, cache)
    ensures Fold(h, c0, g + pad) == Fold(h, c0, f + pad)
  {
    var q := |f| - |f| % 64;
    AlignDown(|f|, q);
    if |cache| > 0 {
      RoundUnder(cache[|cache| - 1].offset + 128, |f|, q);
    }
    PrefixFold(h, c0, g, f, cache, |cache|, q);
    GapAgrees(g, f, cache, |cache|, q, |f|);
    assert g[q..] == f[q..];
    FoldAt(h, c0, g, pad, q);
    FoldAt(h, c0, f, pad, q);
  }

  /** The fold of s + pad continues from the fold of the block-aligned prefix s[..q]. */
  lemma FoldAt(h: Absorber, c0: seq<Word>, s: seq<byte>, pad: seq<byte>, q: nat)
    requires q % 64 == 0 && q <= |s|
    ensures Fold(h, c0, s + pad) == Fold(h, Fold(h, c0, s[..q]), s[q..] + pad)
  {
    assert s + pad == s[..q] + (s[q..] + pad);
    FoldAppend(h, c0, s[..q], s[q..] + pad);
  }

  /** Copying in picked blocks gives a swapped stream. */
  lemma OverlaidSwapped(f: seq<byte>, cache: seq<Record>, shows: seq<bool>, k: nat)
    requires k <= |cache| && k <= |shows| && Laid(cache, |f|) && Carries(f, cache)
    ensures Swapped(Overlaid(f, cache, shows, k), f, cache)
  {
    var g := Overlaid(f, cache, shows, k);
    OverlaidCarries(f, cache, shows, k);
    forall p | 0 <= p < |f| && Outside(cache, |cache|, p)
      ensures g[p] == f[p]
    {
      assert Outside(cache, k, p);
      OverlaidOutside(f, cache, shows, k, p);
    }
  }

  /** Whichever block each colliding pair holds, the MD5 digest of the stream is that of f. */
  lemma SwappedDigest(g: seq<byte>, f: seq<byte>, cache: seq<Record>)
    requires Laid(cache, |f|) && Carries(f, cache) && Collide(f, cache) && Swapped(g, f, cache)
    ensures Md5State(g) == Md5State(f)
  {
    CollideIsBy(f, cache);
    SwappedFold(Absorb, InitIV, g, f, cache, Padding(|f|));
    FoldIsChain(InitIV, g + Padding(|f|));
    FoldIsChain(InitIV, f + Padding(|f|));
  }

  /** Copying in picked blocks leaves the MD5 digest of the stream as it was. */
  lemma OverlaidDigest(f: seq<byte>, cache: seq<Record>, shows: seq<bool>, k: nat)
    requires k <= |cache| && k <= |shows| && Laid(cache, |f|) && Carries(f, cache) && Collide(f, cache)
    ensures Md5State(Overlaid(f, cache, shows, k)) == Md5State(f)
  {
    OverlaidSwapped(f, cache, shows, k);
    SwappedDigest(Overlaid(f, cache, shows, k), f, cache);
  }

  /** A multiple of 64 up to n is at most n rounded down to a multiple of 64. */
  lemma RoundUnder(m: nat, n: nat, q: nat)
    requires m % 64 == 0 && m <= n && q == n - n % 64
    ensures m <= q
  {
  }

  /** n rounded down to a multiple of 64 is a multiple of 64 and at most n. */
  lemma AlignDown(n: nat, q: nat)
    requires q == n - n % 64
    ensures q % 64 == 0 && q <= n
  {
  }

  /** Every character of the digest text is an upper-case hex digit, as "X2" formats them. */
  predicate HexText(hashStr: string)
  {
    forall n :: 0 <= n < |hashStr| ==> Digits.IsHexUpper(hashStr[n])
  }

  /**
   * The selector's choice for entry i = 7 * numIndex + strokeIndex: the show block exactly when
   * numStrokes of digit numIndex of the text lights stroke strokeIndex.
   */
  function Shows(hashStr: string): (r: seq<bool>)
    requires HexText(hashStr)
    ensures |r| == 7 * |hashStr|
  {
    seq(7 * |hashStr|, i requires 0 <= i < 7 * |hashStr| => Lit(hashStr, i / 7, i % 7))
  }

  /** numStrokes[num][strokeIndex] != 0 for the digit num at hashStr[numIndex]. */
  predicate Lit(hashStr: string, numIndex: nat, strokeIndex: nat)
    requires HexText(hashStr) && numIndex < |hashStr| && strokeIndex < 7
  {
    Digits.DigitValueRange(hashStr[numIndex]);
    Digits.Segments(Digits.DigitValue(hashStr[numIndex]) as nat)[strokeIndex] != 0
  }

  /**
   * The selector: for each digit of the digest text and each of its seven strokes, the next
   * entry's hide or show block is copied over its window of file.
   */
  method SelectPaths(file: array<byte>, cache: seq<Record>, hashStr: string)
    requires HexText(hashStr) && 7 * |hashStr| <= |cache| && Laid(cache, file.Length)
    modifies file
    ensures file[..] == Overlaid(old(file[..]), cache, Shows(hashStr), 7 * |hashStr|)
  {
    ghost var f := file[..];
    ghost var shows := Shows(hashStr);
    var i := 0;
    for numIndex := 0 to |hashStr|
      invariant i == 7 * numIndex
      invariant file[..] == Overlaid(f, cache, shows, i)
    {
      Digits.DigitValueRange(hashStr[numIndex]);
      var num := Digits.DigitValue(hashStr[numIndex]) as nat;
      for strokeIndex := 0 to 7
        invariant i == 7 * numIndex + strokeIndex
        invariant file[..] == Overlaid(f, cache, shows, i)
      {
        ShowsAt(hashStr, i, numIndex, strokeIndex);
        Place(file, cache, i, Digits.Segments(num)[strokeIndex] != 0, f, shows);
        i := i + 1;
      }
    }
  }

  /** One copy of the selector: entry i's hide or show block over its window of file. */
  method Place(file: array<byte>, cache: seq<Record>, i: nat, show: bool, ghost f: seq<byte>, ghost shows: seq<bool>)
    requires Laid(cache, |f|) && file.Length == |f| && i < |cache| && i < |shows| && shows[i] == show
    requires file[..] == Overlaid(f, cache, shows, i)
    modifies file
    ensures file[..] == Overlaid(f, cache, shows, i + 1)
  {
    var e := cache[i];
    if show {
      WriteAt(file, e.offset, e.showBlock);
    } else {
      WriteAt(file, e.offset, e.hideBlock);
    }
  }

  /** Entry i = 7 * numIndex + strokeIndex is chosen by stroke strokeIndex of digit numIndex. */
  lemma ShowsAt(hashStr: string, i: nat, numIndex: nat, strokeIndex: nat)
    requires HexText(hashStr) && numIndex < |hashStr| && strokeIndex < 7 && i == 7 * numIndex + strokeIndex
    ensures i < 7 * |hashStr| && Digits.DigitValue(hashStr[numIndex]) < 16
    ensures Shows(hashStr)[i] == (Digits.Segments(Digits.DigitValue(hashStr[numIndex]) as nat)[strokeIndex] != 0)
  {
    Digits.DigitValueRange(hashStr[numIndex]);
    assert i / 7 == numIndex && i % 7 == strokeIndex;
  }

  /** What the drawn digits then read: entry 7 * numIndex + strokeIndex holds show exactly when the stroke is lit. */
  lemma SelectedStroke(f: seq<byte>, cache: seq<Record>, hashStr: string, i: nat, numIndex: nat, strokeIndex: nat)
    requires HexText(hashStr) && 7 * |hashStr| <= |cache| && Laid(cache, |f|)
    requires numIndex < |hashStr| && strokeIndex < 7 && i == 7 * numIndex + strokeIndex
    ensures i < |cache|
    ensures Overlaid(f, cache, Shows(hashStr), 7 * |hashStr|)[cache[i].offset..cache[i].offset + 128] ==
            if Digits.Segments(Digits.DigitValue(hashStr[numIndex]) as nat)[strokeIndex] == 0 then cache[i].hideBlock
            else cache[i].showBlock
  {
    ShowsAt(hashStr, i, numIndex, strokeIndex);
    OverlaidWindow(f, cache, Shows(hashStr), 7 * |hashStr|, i);
  }

  /** The text of a digest is hex text (HashToString formats each byte with "X2"). */
  lemma DigestText(digest: seq<bv8>)
    ensures HexText(Digits.HexString(digest))
  {
    forall n | 0 <= n < |Digits.HexString(digest)|
      ensures Digits.IsHexUpper(Digits.HexString(digest)[n])
    {
      Digits.HexStringDigits(digest, n);
    }
  }

  /**
   * With the text of a digest selected, entry 7 * numIndex + strokeIndex shows exactly when that
   * stroke of the digest's nibble numIndex (high nibble of each byte first) is lit.
   */
  lemma DigestDrawn(f: seq<byte>, cache: seq<Record>, digest: seq<bv8>, i: nat, numIndex: nat, strokeIndex: nat)
    requires 14 * |digest| <= |cache| && Laid(cache, |f|)
    requires numIndex < 2 * |digest| && strokeIndex < 7 && i == 7 * numIndex + strokeIndex
    ensures HexText(Digits.HexString(digest)) && i < |cache|
    ensures var nibble := if numIndex % 2 == 0 then digest[numIndex / 2] as nat / 16 else digest[numIndex / 2] as nat % 16;
            Overlaid(f, cache, Shows(Digits.HexString(digest)), 14 * |digest|)[cache[i].offset..cache[i].offset + 128] ==
            if Digits.Segments(nibble)[strokeIndex] == 0 then cache[i].hideBlock else cache[i].showBlock
  {
    var hashStr := Digits.HexString(digest);
    DigestText(digest);
    Digits.HexStringDigits(digest, numIndex);
    assert 7 * |hashStr| == 14 * |digest|;
    SelectedStroke(f, cache, hashStr, i, numIndex, strokeIndex);
  }

  /**
   * The point of the program: when the collision pairs are laid in f and the selector is run with
   * the hex text of f's own MD5 digest, the resulting stream has that same digest, and each stroke's
   * window shows or hides the stroke exactly as the digit of that digest lights it.
   */
  lemma SelfDigest(f: seq<byte>, cache: seq<Record>, i: nat, numIndex: nat, strokeIndex: nat)
    requires Laid(cache, |f|) && Carries(f, cache) && Collide(f, cache) && 224 <= |cache|
    requires numIndex < 32 && strokeIndex < 7 && i == 7 * numIndex + strokeIndex
    ensures HexText(Digits.HexString(DigestBytes(Md5State(f))))
    ensures var g := Overlaid(f, cache, Shows(Digits.HexString(DigestBytes(Md5State(f)))), 224);
            var d := DigestBytes(Md5State(g));
            var nibble := if numIndex % 2 == 0 then d[numIndex / 2] as nat / 16 else d[numIndex / 2] as nat % 16;
            Md5State(g) == Md5State(f) &&
            g[cache[i].offset..cache[i].offset + 128] ==
            if Digits.Segments(nibble)[strokeIndex] == 0 then cache[i].hideBlock else cache[i].showBlock
  {
    var digest := DigestBytes(Md5State(f));
    DigestDrawn(f, cache, digest, i, numIndex, strokeIndex);
    OverlaidDigest(f, cache, Shows(Digits.HexString(digest)), 224);
  }

  /** The debug images: the block every entry shows (show) or hides (not show) with. */
  method PaintAll(file: array<byte>, cache: seq<Record>, show: bool)
    requires Laid(cache, file.Length)
    modifies file
    ensures file[..] == Overlaid(old(file[..]), cache, seq(|cache|, _ => show), |cache|)
  {
    ghost var f := file[..];
    ghost var shows := seq(|cache|, _ => show);
    for i := 0 to |cache|
      invariant file[..] == Overlaid(f, cache, shows, i)
    {
      Place(file, cache, i, show, f, shows);
    }
  }

  /** After PaintAll every window holds the chosen block of its pair. */
  lemma PaintedAll(f: seq<byte>, cache: seq<Record>, show: bool, i: nat)
    requires Laid(cache, |f|) && i < |cache|
    ensures Overlaid(f, cache, seq(|cache|, _ => show), |cache|)[cache[i].offset..cache[i].offset + 128] ==
            if show then cache[i].showBlock else cache[i].hideBlock
  {
    OverlaidWindow(f, cache, seq(|cache|, _ => show), |cache|, i);
  }
}
