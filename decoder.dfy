/**
 * A reference GIF LZW decoder (Appendix F of the GIF89a specification), the partner of the coder
 * of MD5Gif/LzwEncoder.cs. It reads a sequence of codes, each with the width it is read in,
 * and rebuilds the dictionary as it goes: CLEAR resets it to the one-pixel strings, and every code
 * after the first one following a CLEAR adds the previous code's string followed by the first
 * pixel of the current one, until 4096 codes are known. A code one past the dictionary is the
 * string being defined by that very code (the previous string followed by its own first pixel).
 */
module LzwDecoder {
  import opened Bits

  const MaxMaxBits: nat := 12
  /** 1 << MaxMaxBits: the number of codes there are. */
  const CodeLimit: nat := 4096

  /** A code in the data stream: its value and the number of bits it is written in. */
  datatype Code = Code(value: nat, width: nat)

  /** The strings of the codes after CLEAR: each pixel value alone, then CLEAR and the end code, which stand for no string. */
  function Initial(initBits: nat): (d: seq<seq<byte>>)
    ensures |d| == Pow2(initBits) + 2
    ensures forall j :: 0 <= j < |d| ==> (d[j] == [] <==> j >= Pow2(initBits))
  {
    seq(Pow2(initBits) + 2, j requires 0 <= j < Pow2(initBits) + 2 => if j < Pow2(initBits) then [(j % 256) as byte] else [])
  }

  /**
   * The width the next code is read in from b bits on: the fewest bits, at most 12, in which the
   * number n itself fits (n < 2^b), so that code n, the one about to be defined, can be read.
   */
  function WidthFrom(b: nat, n: nat): nat
    decreases MaxMaxBits - b
  {
    if b >= MaxMaxBits || n < Pow2(b) then b else WidthFrom(b + 1, n)
  }

  /**
   * The width a decoder holding n strings reads the next code in: at least initBits + 1 bits, one
   * more each time the dictionary reaches a power of two, and never more than 12.
   */
  function Width(initBits: nat, n: nat): nat
  {
    WidthFrom(initBits + 1, n)
  }

  /**
   * WidthFrom finds the least width: b is it when n fits in b bits (or b is 12) and n does not fit
   * in b - 1 bits (or b is where the search starts).
   */
  lemma {:induction false} WidthFromIs(b0: nat, n: nat, b: nat)
    requires b0 <= b <= MaxMaxBits && (n < Pow2(b) || b == MaxMaxBits) && (b == b0 || Pow2(b - 1) <= n)
    ensures WidthFrom(b0, n) == b
    decreases b - b0
  {
    if b0 < b {
      Pow2Le(b0, b - 1);
      WidthFromIs(b0 + 1, n, b);
    }
  }

  /** The decoder between codes: its dictionary, the code before (negative right after CLEAR), and the pixels so far. */
  datatype State = State(dict: seq<seq<byte>>, prev: int, out: seq<byte>)

  /** Before the first code: no dictionary, so the first code must be CLEAR. */
  function Start(): State
  {
    State([], -1, [])
  }

  /** One more entry, unless all 4096 codes are known. */
  function Grow(dict: seq<seq<byte>>, e: seq<byte>): (r: seq<seq<byte>>)
    ensures |dict| < CodeLimit ==> r == dict + [e]
    ensures |dict| >= CodeLimit ==> r == dict
  {
    if |dict| < CodeLimit then dict + [e] else dict
  }

  /**
   * Reading code c: None when it is not written in the width the decoder expects or does not
   * stand for a string the decoder can know. The end code is left to Decode.
   */
  function Feed(initBits: nat, st: State, c: Code): Option<State>
  {
    var dict := st.dict;
    var k := c.value;
    if c.width != Width(initBits, |dict|) then None
    else if k == Pow2(initBits) then Some(State(Initial(initBits), -1, st.out))
    else if k < |dict| && dict[k] != [] then
      if st.prev < 0 then Some(State(dict, k, st.out + dict[k]))
      else if st.prev < |dict| && dict[st.prev] != [] then
        Some(State(Grow(dict, dict[st.prev] + [dict[k][0]]), k, st.out + dict[k]))
      else None
    else if k == |dict| && 0 <= st.prev < |dict| && dict[st.prev] != [] && |dict| < CodeLimit then
      var e := dict[st.prev] + [dict[st.prev][0]];
      Some(State(dict + [e], k, st.out + e))
    else None
  }

  /** Reading every code of cs in turn from the start. */
  function Run(initBits: nat, cs: seq<Code>): Option<State>
    decreases |cs|
  {
    if cs == [] then Some(Start())
    else match Run(initBits, cs[..|cs| - 1])
      case None => None
      case Some(st) => Feed(initBits, st, cs[|cs| - 1])
  }

  /** Reading one code more is one more Feed. */
  lemma RunSnoc(initBits: nat, cs: seq<Code>, c: Code, st: State)
    requires Run(initBits, cs) == Some(st)
    ensures Run(initBits, cs + [c]) == Feed(initBits, st, c)
  {
    assert (cs + [c])[..|cs|] == cs;
  }

  /**
   * The pixels a data stream of codes decodes to: the codes before the last must all be read,
   * and the last must be the end code (whose width is not checked).
   */
  function Decode(initBits: nat, cs: seq<Code>): Option<seq<byte>>
  {
    if cs == [] || cs[|cs| - 1].value != Pow2(initBits) + 1 then None
    else match Run(initBits, cs[..|cs| - 1])
      case None => None
      case Some(st) => Some(st.out)
  }

  /**
   * The pixels a data stream of codes decodes to when the end code, like every other code, must
   * come in the width the decoder expects.
   */
  function DecodeChecked(initBits: nat, cs: seq<Code>): Option<seq<byte>>
  {
    if cs == [] || cs[|cs| - 1].value != Pow2(initBits) + 1 then None
    else match Run(initBits, cs[..|cs| - 1])
      case None => None
      case Some(st) => if cs[|cs| - 1].width == Width(initBits, |st.dict|) then Some(st.out) else None
  }

  /** What the width-checking decoder accepts, Decode accepts with the same pixels. */
  lemma CheckedDecodes(initBits: nat, cs: seq<Code>)
    ensures DecodeChecked(initBits, cs).Some? ==> Decode(initBits, cs) == DecodeChecked(initBits, cs)
  {
  }

  /**
   * The codes the coder writes for the pixels 0 0 0 at initBits 2: CLEAR, 0, then 6, the code
   * the decoder is just about to define ([0] followed by its own first pixel), then the end code.
   */
  lemma DecodeRepeat()
    ensures Decode(2, [Code(4, 3), Code(0, 3), Code(6, 3), Code(5, 3)]) == Some([0, 0, 0])
  {
    assert Pow2(2) == 4 && Pow2(3) == 8;
    var d := Initial(2);
    assert d[0] == [0];
    WidthFromIs(3, 0, 3);
    WidthFromIs(3, 6, 3);
    assert |d| == 6 && Width(2, |d|) == 3 && Width(2, 0) == 3;
    assert d[0] != [] && [] + d[0] == [0];
    assert d[0] + [d[0][0]] == [0, 0] && [0] + [0, 0] == [0, 0, 0];
    var s1 := State(d, -1, []);
    var s2 := State(d, 0, [0]);
    var s3 := State(d + [[0, 0]], 6, [0, 0, 0]);
    RunSnoc(2, [], Code(4, 3), Start());
    assert [] + [Code(4, 3)] == [Code(4, 3)];
    assert Feed(2, Start(), Code(4, 3)) == Some(s1);
    assert Feed(2, s1, Code(0, 3)) == Some(s2);
    RunSnoc(2, [Code(4, 3)], Code(0, 3), s1);
    assert [Code(4, 3)] + [Code(0, 3)] == [Code(4, 3), Code(0, 3)];
    assert Feed(2, s2, Code(6, 3)) == Some(s3);
    RunSnoc(2, [Code(4, 3), Code(0, 3)], Code(6, 3), s2);
    assert [Code(4, 3), Code(0, 3)] + [Code(6, 3)] == [Code(4, 3), Code(0, 3), Code(6, 3)];
    assert [Code(4, 3), Code(0, 3), Code(6, 3), Code(5, 3)][..3] == [Code(4, 3), Code(0, 3), Code(6, 3)];
  }

  /** Right after CLEAR only a pixel value can come: code 6 is not yet defined, and the stream is refused. */
  lemma DecodeUndefined()
    ensures Decode(2, [Code(4, 3), Code(6, 3), Code(5, 3)]) == None
  {
    assert Pow2(2) == 4 && Pow2(3) == 8;
    var d := Initial(2);
    WidthFromIs(3, 0, 3);
    WidthFromIs(3, 6, 3);
    assert |d| == 6 && Width(2, |d|) == 3 && Width(2, 0) == 3;
    var s1 := State(d, -1, []);
    RunSnoc(2, [], Code(4, 3), Start());
    assert [] + [Code(4, 3)] == [Code(4, 3)];
    assert Feed(2, Start(), Code(4, 3)) == Some(s1);
    assert Feed(2, s1, Code(6, 3)) == None;
    RunSnoc(2, [Code(4, 3)], Code(6, 3), s1);
    assert [Code(4, 3)] + [Code(6, 3)] == [Code(4, 3), Code(6, 3)];
    assert [Code(4, 3), Code(6, 3), Code(5, 3)][..2] == [Code(4, 3), Code(6, 3)];
  }

  /**
   * The codes the coder writes for the pixels 0 0 0 0 at initBits 2: CLEAR, 0, 6, 0, then the end
   * code in the 3 bits of the code before it. Reading the last 0 gives the decoder 8 strings, so it
   * reads the end code in 4 bits: Decode, which does not check that width, gets the pixels back,
   * DecodeChecked refuses the stream, and accepts it with the end code in 4 bits.
   */
  lemma DecodeLateEnd()
    ensures Decode(2, [Code(4, 3), Code(0, 3), Code(6, 3), Code(0, 3), Code(5, 3)]) == Some([0, 0, 0, 0])
    ensures DecodeChecked(2, [Code(4, 3), Code(0, 3), Code(6, 3), Code(0, 3), Code(5, 3)]) == None
    ensures DecodeChecked(2, [Code(4, 3), Code(0, 3), Code(6, 3), Code(0, 3), Code(5, 4)]) == Some([0, 0, 0, 0])
  {
    assert Pow2(2) == 4 && Pow2(3) == 8 && Pow2(4) == 16;
    var d := Initial(2);
    assert d[0] == [0];
    WidthFromIs(3, 0, 3);
    WidthFromIs(3, 6, 3);
    WidthFromIs(3, 7, 3);
    WidthFromIs(3, 8, 4);
    assert |d| == 6 && Width(2, |d|) == 3 && Width(2, 0) == 3 && Width(2, 7) == 3 && Width(2, 8) == 4;
    assert d[0] != [] && [] + d[0] == [0];
    assert d[0] + [d[0][0]] == [0, 0] && [0] + [0, 0] == [0, 0, 0] && [0, 0] + [0] == [0, 0, 0];
    assert [0, 0, 0] + [0] == [0, 0, 0, 0];
    var d7 := d + [[0, 0]];
    assert d7[6] == [0, 0] && d7[0] == [0];
    var s1 := State(d, -1, []);
    var s2 := State(d, 0, [0]);
    var s3 := State(d7, 6, [0, 0, 0]);
    var s4 := State(d7 + [[0, 0, 0]], 0, [0, 0, 0, 0]);
    RunSnoc(2, [], Code(4, 3), Start());
    assert [] + [Code(4, 3)] == [Code(4, 3)];
    assert Feed(2, Start(), Code(4, 3)) == Some(s1);
    assert Feed(2, s1, Code(0, 3)) == Some(s2);
    RunSnoc(2, [Code(4, 3)], Code(0, 3), s1);
    assert [Code(4, 3)] + [Code(0, 3)] == [Code(4, 3), Code(0, 3)];
    assert Feed(2, s2, Code(6, 3)) == Some(s3);
    RunSnoc(2, [Code(4, 3), Code(0, 3)], Code(6, 3), s2);
    assert [Code(4, 3), Code(0, 3)] + [Code(6, 3)] == [Code(4, 3), Code(0, 3), Code(6, 3)];
    assert Feed(2, s3, Code(0, 3)) == Some(s4);
    RunSnoc(2, [Code(4, 3), Code(0, 3), Code(6, 3)], Code(0, 3), s3);
    assert [Code(4, 3), Code(0, 3), Code(6, 3)] + [Code(0, 3)] == [Code(4, 3), Code(0, 3), Code(6, 3), Code(0, 3)];
    assert |s4.dict| == 8;
    assert [Code(4, 3), Code(0, 3), Code(6, 3), Code(0, 3), Code(5, 3)][..4] == [Code(4, 3), Code(0, 3), Code(6, 3), Code(0, 3)];
    assert [Code(4, 3), Code(0, 3), Code(6, 3), Code(0, 3), Code(5, 4)][..4] == [Code(4, 3), Code(0, 3), Code(6, 3), Code(0, 3)];
  }
}
