/**
 * The data sub-blocks of section 15 of the GIF89a specification: a payload is cut into blocks
 * of at most 255 bytes, each preceded by its length, and ends with a zero-length block.
 */
module SubBlocks {
  import opened Bits

  /** Payload bytes framed as full 255-byte blocks, as the writer emits them whenever its buffer fills. */
  function Blocks(p: seq<byte>): (r: seq<byte>)
    requires |p| % 255 == 0
    ensures |r| == |p| + |p| / 255
    decreases |p|
  {
    if p == [] then [] else [255 as byte] + p[..255] + Blocks(p[255..])
  }

  /** Payload bytes framed as sub-blocks: full blocks first, one shorter non-empty block, the terminator. */
  function Framed(p: seq<byte>): seq<byte>
    decreases |p|
  {
    if p == [] then [0]
    else if |p| < 255 then [|p| as byte] + p + [0]
    else [255 as byte] + p[..255] + Framed(p[255..])
  }

  /** At most 255 bytes make one block (none for no bytes) and then the terminator. */
  lemma FramedShort(p: seq<byte>)
    requires |p| <= 255
    ensures Framed(p) == if p == [] then [0] else [|p| as byte] + p + [0]
  {
    if |p| == 255 {
      assert p[..255] == p;
      assert p[255..] == [];
    }
  }

  /** Appending one full block. */
  lemma {:induction false} BlocksAppend(p: seq<byte>, q: seq<byte>)
    requires |p| % 255 == 0 && |q| == 255
    ensures Blocks(p + q) == Blocks(p) + [255 as byte] + q
    decreases |p|
  {
    if p != [] {
      assert (p + q)[..255] == p[..255];
      assert (p + q)[255..] == p[255..] + q;
      BlocksAppend(p[255..], q);
    } else {
      assert q[255..] == [];
      assert q[..255] == q;
    }
  }

  /** Full blocks followed by the framing of the rest frame the whole payload. */
  lemma {:induction false} BlocksThenFramed(p: seq<byte>, q: seq<byte>)
    requires |p| % 255 == 0
    ensures Blocks(p) + Framed(q) == Framed(p + q)
    decreases |p|
  {
    if p != [] {
      assert (p + q)[..255] == p[..255];
      assert (p + q)[255..] == p[255..] + q;
      BlocksThenFramed(p[255..], q);
    } else {
      assert p + q == q;
    }
  }

  /** The last, short block and the terminator after the full blocks frame all the bytes. */
  lemma Closing(start: seq<byte>, p: seq<byte>, q: seq<byte>)
    requires |p| % 255 == 0 && |q| <= 255
    ensures q != [] ==> start + Blocks(p) + [|q| as byte] + q + [0] == start + Framed(p + q)
    ensures q == [] ==> start + Blocks(p) + [0] == start + Framed(p + q)
  {
    FramedShort(q);
    BlocksThenFramed(p, q);
  }

  /** A sequence of sub-blocks: non-empty length-prefixed blocks up to a single zero byte that ends it. */
  predicate WellFramed(s: seq<byte>)
    decreases |s|
  {
    if s == [] then false
    else if s[0] == 0 then |s| == 1
    else |s| > s[0] as int && WellFramed(s[s[0] as int + 1..])
  }

  /** What a GIF reader takes out of well-framed sub-blocks: the blocks' contents, in order. */
  function Payload(s: seq<byte>): seq<byte>
    requires WellFramed(s)
    decreases |s|
  {
    if s[0] == 0 then [] else s[1..s[0] as int + 1] + Payload(s[s[0] as int + 1..])
  }

  /** The framing is well formed: every block but the terminator has between 1 and 255 bytes. */
  lemma {:induction false} FramedIsWellFramed(p: seq<byte>)
    ensures WellFramed(Framed(p))
    decreases |p|
  {
    if |p| >= 255 {
      var s := Framed(p);
      assert s[256..] == Framed(p[255..]);
      FramedIsWellFramed(p[255..]);
    } else if p != [] {
      var s := Framed(p);
      assert s[|p| + 1..] == [0];
    }
  }

  /** A reader of the framing gets the payload back. */
  lemma {:induction false} PayloadOfFramed(p: seq<byte>)
    ensures WellFramed(Framed(p)) && Payload(Framed(p)) == p
    decreases |p|
  {
    FramedIsWellFramed(p);
    var s := Framed(p);
    if |p| >= 255 {
      assert s[1..256] == p[..255];
      assert s[256..] == Framed(p[255..]);
      PayloadOfFramed(p[255..]);
    } else if p != [] {
      assert s[1..|p| + 1] == p;
      assert s[|p| + 1..] == [0];
    }
  }
}
