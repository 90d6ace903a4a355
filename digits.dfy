/**
 * The picture side of MD5Gif/Program.cs: the seven-segment table numStrokes, the layout of the
 * 32 digits, where the overlay image that hides one stroke is placed, and the upper-case hex
 * text of the digest that chooses which strokes show.
 */
module Digits {

  const StrokeThickness := 3
  const StrokeLength := 17
  const StrokeLongWidth := StrokeThickness * 2 + StrokeLength
  const StrokeShortWidth := StrokeThickness * 2 + 1
  const NumberSmallSpacing := 7
  const NumberBigSpacing := 23
  const NumberWidth := StrokeShortWidth * 2 + StrokeLongWidth
  const NumberHeight := StrokeShortWidth * 3 + StrokeLongWidth * 2
  const ImagePadding := 23
  const ImageWidth := NumberWidth * 16 + NumberSmallSpacing * 8 + NumberBigSpacing * 7 + ImagePadding * 2
  const ImageHeight := NumberHeight * 2 + NumberBigSpacing + ImagePadding * 2

  /** The overlay image is a square of the long stroke width. */
  const OverlaySize := StrokeLongWidth

  // ---------------------------------------------------------------------------------------------
  // The seven-segment table. Stroke 0 is the top bar, 1 the middle bar, 2 the bottom bar, 3 and 4
  // the upper left and right bars, 5 and 6 the lower left and right bars.

  /** Row d of numStrokes: 1 where digit d lights the stroke. */
  function Segments(d: nat): (r: seq<int>)
    requires d < 16
    ensures |r| == 7
  {
    match d
    case 0 => [1, 0, 1, 1, 1, 1, 1]
    case 1 => [0, 0, 0, 0, 1, 0, 1]
    case 2 => [1, 1, 1, 0, 1, 1, 0]
    case 3 => [1, 1, 1, 0, 1, 0, 1]
    case 4 => [0, 1, 0, 1, 1, 0, 1]
    case 5 => [1, 1, 1, 1, 0, 0, 1]
    case 6 => [1, 1, 1, 1, 0, 1, 1]
    case 7 => [1, 0, 0, 0, 1, 0, 1]
    case 8 => [1, 1, 1, 1, 1, 1, 1]
    case 9 => [1, 1, 1, 1, 1, 0, 1]
    case 10 => [1, 1, 0, 1, 1, 1, 1]
    case 11 => [0, 1, 1, 1, 0, 1, 1]
    case 12 => [1, 0, 1, 1, 0, 1, 0]
    case 13 => [0, 1, 1, 0, 1, 1, 1]
    case 14 => [1, 1, 1, 1, 0, 1, 0]
    case _ => [1, 1, 0, 1, 0, 1, 0]
  }

  /** Every entry of the table is 0 or 1, and 8 (the background every digit starts from) lights all. */
  lemma SegmentsAreFlags(d: nat)
    requires d < 16
    ensures forall s :: 0 <= s < 7 ==> Segments(d)[s] == 0 || Segments(d)[s] == 1
    ensures d == 8 <==> forall s :: 0 <= s < 7 ==> Segments(d)[s] == 1
  {
    if d != 8 {
      var s := Unlit(d);
    }
  }

  /** A stroke that every digit other than 8 leaves dark. */
  function Unlit(d: nat): (s: nat)
    requires d < 16 && d != 8
    ensures s < 7 && Segments(d)[s] == 0
  {
    match d
    case 0 => 1
    case 1 => 0
    case 2 => 3
    case 3 => 3
    case 4 => 0
    case 5 => 4
    case 6 => 4
    case 7 => 1
    case 9 => 5
    case 10 => 2
    case 11 => 0
    case 12 => 1
    case 13 => 0
    case 14 => 4
    case _ => 2
  }

  /** The digit shown by a pattern of lit strokes, if any: the first row of the table equal to it. */
  function Reading(p: seq<int>, d: nat): (r: int)
    requires d <= 16
    ensures -1 <= r < 16
    decreases 16 - d
  {
    if d == 16 then -1 else if Segments(d) == p then d else Reading(p, d + 1)
  }

  /** The 16 patterns differ pairwise, so the picture determines the digit. */
  lemma {:induction false} ReadingOfSegments(d: nat)
    requires d < 16
    ensures Reading(Segments(d), 0) == d
  {
    ReadingFrom(d, 0);
  }

  lemma {:induction false} ReadingFrom(d: nat, e: nat)
    requires d < 16 && e <= d
    ensures Reading(Segments(d), e) == d
    decreases d - e
  {
    if e < d {
      Distinct(d, e);
      ReadingFrom(d, e + 1);
    }
  }

  lemma Distinct(d: nat, e: nat)
    requires e < d < 16
    ensures Segments(d) != Segments(e)
  {
    CodeOfDigit(d);
    CodeOfDigit(e);
  }

  /** Row d read as a 7-bit number, stroke 0 the least significant bit. */
  function Code(d: nat): nat
    requires d < 16
  {
    var r := Segments(d);
    r[0] + 2 * r[1] + 4 * r[2] + 8 * r[3] + 16 * r[4] + 32 * r[5] + 64 * r[6]
  }

  function DigitOfCode(c: nat): int
  {
    match c
    case 125 => 0
    case 80 => 1
    case 55 => 2
    case 87 => 3
    case 90 => 4
    case 79 => 5
    case 111 => 6
    case 81 => 7
    case 127 => 8
    case 95 => 9
    case 123 => 10
    case 110 => 11
    case 45 => 12
    case 118 => 13
    case 47 => 14
    case 43 => 15
    case _ => -1
  }

  lemma CodeOfDigit(d: nat)
    requires d < 16
    ensures DigitOfCode(Code(d)) == d
  {
  }

  // ---------------------------------------------------------------------------------------------
  // Layout. All coordinates are pixels of the logical screen, x to the right and y downwards.

  datatype Point = Point(x: int, y: int)

  /** A rectangle [x, x + w) by [y, y + h). */
  datatype Rect = Rect(x: int, y: int, w: nat, h: nat)

  predicate Within(inner: Rect, outer: Rect)
  {
    outer.x <= inner.x && inner.x + inner.w <= outer.x + outer.w &&
    outer.y <= inner.y && inner.y + inner.h <= outer.y + outer.h
  }

  predicate Apart(r: Rect, q: Rect)
  {
    r.x + r.w <= q.x || q.x + q.w <= r.x || r.y + r.h <= q.y || q.y + q.h <= r.y
  }

  /**
   * Top left corner of digit n, as both DrawNumber8 and GetOverlayImageLocation compute it: eight
   * pairs per row, two rows. The source's (n / 2) & 7 is (n / 2) % 8 for the non-negative n used.
   */
  function Origin(n: nat): Point
  {
    var x := ImagePadding + ((n / 2) % 8) * (NumberWidth * 2 + NumberSmallSpacing + NumberBigSpacing);
    var y := ImagePadding + (n / 16) * (NumberHeight + NumberBigSpacing);
    if n % 2 != 0 then Point(x + NumberWidth + NumberSmallSpacing, y) else Point(x, y)
  }

  /** Offset and size, inside a digit, of the stroke template that DrawNumber8 draws (strokeInfos). */
  function StrokeBox(s: nat): (r: Rect)
    requires s < 7
    ensures r.w > 0 && r.h > 0 && Within(r, Rect(0, 0, NumberWidth, NumberHeight))
  {
    var long, short := StrokeLongWidth, StrokeShortWidth;
    match s
    case 0 => Rect(short, 0, long, short)
    case 1 => Rect(short, short + long, long, short)
    case 2 => Rect(short, short * 2 + long * 2, long, short)
    case 3 => Rect(0, short, short, long)
    case 4 => Rect(short + long, short, short, long)
    case 5 => Rect(0, short * 2 + long, short, long)
    case _ => Rect(short + long, short * 2 + long, short, long)
  }

  /** Offset, inside a digit, of the overlay image that hides stroke s (overlayInfos). */
  function OverlayOffset(s: nat): (p: Point)
    requires s < 7
    ensures Within(StrokeBox(s), Rect(p.x, p.y, OverlaySize, OverlaySize))
  {
    var long, short := StrokeLongWidth, StrokeShortWidth;
    match s
    case 0 => Point(short, 0)
    case 1 => Point(short, short + long)
    case 2 => Point(short, short * 2 + long * 2)
    case 3 => Point(0, short)
    case 4 => Point(short * 2, short)
    case 5 => Point(0, short * 2 + long)
    case _ => Point(short * 2, short * 2 + long)
  }

  /** GetOverlayImageLocation: where the overlay for stroke s of digit n goes. */
  function OverlayLocation(n: nat, s: nat): (p: Point)
    requires n < 32 && s < 7
    ensures 0 <= p.x < 65536 && 0 <= p.y < 65536
  {
    var o := Origin(n);
    var d := OverlayOffset(s);
    Point(o.x + d.x, o.y + d.y)
  }

  /** The pixels DrawNumber8 fills for stroke s of digit n. */
  function Stroke(n: nat, s: nat): Rect
    requires s < 7
  {
    var o := Origin(n);
    var b := StrokeBox(s);
    Rect(o.x + b.x, o.y + b.y, b.w, b.h)
  }

  function Overlay(n: nat, s: nat): Rect
    requires n < 32 && s < 7
  {
    var p := OverlayLocation(n, s);
    Rect(p.x, p.y, OverlaySize, OverlaySize)
  }

  const Screen := Rect(0, 0, ImageWidth, ImageHeight)

  /**
   * The overlay for stroke s of digit n lies on the screen, covers that stroke, and misses every
   * other stroke of every digit: decoding it hides exactly one stroke.
   */
  lemma OverlayHidesOneStroke(n: nat, s: nat, n2: nat, s2: nat)
    requires n < 32 && s < 7 && n2 < 32 && s2 < 7
    ensures Within(Overlay(n, s), Screen)
    ensures Within(Stroke(n, s), Overlay(n, s))
    ensures n2 != n || s2 != s ==> Apart(Overlay(n, s), Stroke(n2, s2))
  {
    OverlayInCell(n, s);
    StrokeInCell(n2, s2);
    CellOnScreen(n);
    if n2 != n {
      CellsApart(n, n2);
    } else if s2 != s {
      OverlaysMissOtherStrokes(s, s2);
    }
  }

  /** Inside one digit, the overlay of stroke s covers stroke s and misses the other six. */
  lemma OverlaysMissOtherStrokes(s: nat, s2: nat)
    requires s < 7 && s2 < 7
    ensures var o := OverlayOffset(s);
            Within(StrokeBox(s), Rect(o.x, o.y, OverlaySize, OverlaySize))
    ensures var o := OverlayOffset(s);
            s2 != s ==> Apart(Rect(o.x, o.y, OverlaySize, OverlaySize), StrokeBox(s2))
  {
  }

  /** The digit's box, extended below by the bottom overlay, which reaches into the spacing. */
  function Cell(n: nat): Rect
  {
    var o := Origin(n);
    Rect(o.x, o.y, NumberWidth, 83)
  }

  lemma OverlayInCell(n: nat, s: nat)
    requires n < 32 && s < 7
    ensures Within(Overlay(n, s), Cell(n))
    ensures Within(Stroke(n, s), Overlay(n, s))
  {
    OverlaysMissOtherStrokes(s, s);
  }

  lemma StrokeInCell(n: nat, s: nat)
    requires s < 7
    ensures Within(Stroke(n, s), Cell(n))
  {
  }

  /** Every digit's cell lies on the screen. */
  lemma CellOnScreen(n: nat)
    requires n < 32
    ensures Within(Cell(n), Screen)
  {
    var r, m := n / 16, n % 16;
    assert n == 16 * r + m;
    OriginAt(n, r, m / 2, m % 2);
    assert ImageWidth == 855 && ImageHeight == 203 && NumberWidth == 37;
  }

  /** Two different digits are at least a digit width plus spacing apart across, or a row apart down. */
  lemma CellsApart(n: nat, n2: nat)
    requires n < 32 && n2 < 32 && n != n2
    ensures Origin(n).x + 44 <= Origin(n2).x || Origin(n2).x + 44 <= Origin(n).x ||
            Origin(n).y + 90 <= Origin(n2).y || Origin(n2).y + 90 <= Origin(n).y
  {
    var r, m, r2, m2 := n / 16, n % 16, n2 / 16, n2 % 16;
    assert n == 16 * r + m && n2 == 16 * r2 + m2;
    var c, b, c2, b2 := m / 2, m % 2, m2 / 2, m2 % 2;
    assert m == 2 * c + b && m2 == 2 * c2 + b2;
    OriginAt(n, r, c, b);
    OriginAt(n2, r2, c2, b2);
    GridApart(r, c, b, r2, c2, b2);
  }

  /** Distinct grid places are 44 apart across or 90 apart down. */
  lemma GridApart(r: nat, c: nat, b: nat, r2: nat, c2: nat, b2: nat)
    requires c < 8 && b < 2 && c2 < 8 && b2 < 2 && (r, c, b) != (r2, c2, b2)
    ensures var x, x2 := 23 + 104 * c + 44 * b, 23 + 104 * c2 + 44 * b2;
            var y, y2 := 23 + 90 * r, 23 + 90 * r2;
            x + 44 <= x2 || x2 + 44 <= x || y + 90 <= y2 || y2 + 90 <= y
  {
  }

  /** The origin of the digit in row r, pair c, member b of the pair. */
  lemma OriginAt(n: nat, r: nat, c: nat, b: nat)
    requires c < 8 && b < 2 && n == 16 * r + 2 * c + b
    ensures Origin(n) == Point(23 + 104 * c + 44 * b, 23 + 90 * r)
  {
    assert n / 2 == 8 * r + c && n % 2 == b;
    assert (n / 2) % 8 == c && n / 16 == r;
    assert NumberWidth * 2 + NumberSmallSpacing + NumberBigSpacing == 104;
    assert NumberHeight + NumberBigSpacing == 90 && NumberWidth + NumberSmallSpacing == 44;
  }

  // ---------------------------------------------------------------------------------------------
  // The digest as text: each byte formatted "X2" (two upper-case hex digits), and the selector's
  // switch that turns a digit character back into its value.

  function HexChar(v: nat): (c: char)
    requires v < 16
    ensures IsHexUpper(c)
  {
    if v < 10 then ('0' as int + v) as char else ('A' as int + v - 10) as char
  }

  predicate IsHexUpper(c: char)
  {
    '0' <= c <= '9' || 'A' <= c <= 'F'
  }

  /**
   * The switch at the head of the selector loop: '0'..'9' are 0..9, any other character c is
   * c - 'A' + 10. An upper-case hex digit gets a value 0..15, a row of numStrokes.
   */
  function DigitValue(c: char): (r: int)
    ensures IsHexUpper(c) ==> 0 <= r < 16
  {
    if '0' <= c <= '9' then c as int - '0' as int else c as int - 'A' as int + 10
  }

  lemma DigitValueOfHex(v: nat)
    requires v < 16
    ensures DigitValue(HexChar(v)) == v
  {
  }

  /** The switch is one-to-one on upper-case hex digits: the hex digit of the value is the character. */
  lemma DigitValueRange(c: char)
    requires IsHexUpper(c)
    ensures 0 <= DigitValue(c) < 16
    ensures HexChar(DigitValue(c)) == c
  {
  }

  /** string.Concat of b.ToString("X2") over the digest bytes. */
  function HexString(digest: seq<bv8>): (r: string)
    ensures |r| == 2 * |digest|
  {
    if digest == [] then []
    else HexString(digest[..|digest| - 1]) + [HexChar(Last(digest) as nat / 16), HexChar(Last(digest) as nat % 16)]
  }

  function Last<T>(s: seq<T>): T
    requires s != []
  {
    s[|s| - 1]
  }

  /** Digit 2i of the text is the high nibble of byte i and digit 2i+1 its low nibble. */
  lemma {:induction false} HexStringDigits(digest: seq<bv8>, k: nat)
    requires k < 2 * |digest|
    ensures IsHexUpper(HexString(digest)[k])
    ensures DigitValue(HexString(digest)[k]) ==
            if k % 2 == 0 then digest[k / 2] as nat / 16 else digest[k / 2] as nat % 16
  {
    var n := |digest|;
    var front := digest[..n - 1];
    if k < 2 * (n - 1) {
      HexStringDigits(front, k);
      assert HexString(digest)[k] == HexString(front)[k];
      assert digest[k / 2] == front[k / 2];
    } else {
      DigitValueOfHex(Last(digest) as nat / 16);
      DigitValueOfHex(Last(digest) as nat % 16);
    }
  }
}
