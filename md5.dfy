/**
 * The MD5 compression function of section 3.4 of RFC 1321, as MD5/md5.cpp writes it:
 * the four auxiliary functions, left rotation, the step macro R and transform_block,
 * which folds one 16-word message block into the 4-word chaining value.
 */
module Md5 {

  type Word = bv32

  /** Bit i (0 is the least significant) of a word. */
  predicate Bit(w: Word, i: bv32)
    requires i < 32
  {
    (w >> i) & 1 == 1
  }

  /** Addition of words modulo 2^32, as C++ adds u32 values. */
  function Add(x: Word, y: Word): Word
  {
    x + y
  }

  /** Round 1 function in the optimised form of md5.cpp; it is the RFC form XY v not(X)Z. */
  function F(x: Word, y: Word, z: Word): (r: Word)
    ensures r == (x & y) | (!x & z)
  {
    (x & (y ^ z)) ^ z
  }

  /** Round 2 function in the optimised form of md5.cpp; it is the RFC form XZ v Y not(Z). */
  function G(x: Word, y: Word, z: Word): (r: Word)
    ensures r == (x & z) | (y & !z)
  {
    (z & (x ^ y)) ^ y
  }

  /** Round 3 function: X xor Y xor Z, literally the RFC form. */
  function H(x: Word, y: Word, z: Word): Word
  {
    x ^ y ^ z
  }

  /** Round 4 function: Y xor (X v not(Z)), literally the RFC form. */
  function I(x: Word, y: Word, z: Word): Word
  {
    y ^ (x | !z)
  }

  /** Left rotation by n bits; the shift by 32 - n is defined in C++ only for 1 <= n <= 31. */
  function RL(x: Word, n: bv32): Word
    requires 1 <= n <= 31
  {
    (x << n) | (x >> (32 - n))
  }

  lemma OrBit(u: Word, v: Word, i: bv32)
    requires i < 32
    ensures ((u | v) >> i) & 1 == ((u >> i) & 1) | ((v >> i) & 1)
  {
  }

  lemma ShlBelow(x: Word, n: bv32, i: bv32)
    requires n < 32 && i < n
    ensures ((x << n) >> i) & 1 == 0
  {
  }

  lemma ShlAbove(x: Word, n: bv32, i: bv32)
    requires n <= i < 32
    ensures ((x << n) >> i) & 1 == (x >> (i - n)) & 1
  {
  }

  lemma ShrWithin(x: Word, p: bv32, i: bv32)
    requires p < 32 && i < 32 && p + i < 32
    ensures ((x >> p) >> i) & 1 == (x >> (p + i)) & 1
  {
  }

  lemma ShrBeyond(x: Word, p: bv32, i: bv32)
    requires p < 32 && i < 32 && 32 <= p + i
    ensures (x >> p) >> i == 0
  {
  }

  /** Bits n..31 of RL(x, n) are bits 0..31-n of x. */
  lemma RLHigh(x: Word, n: bv32, i: bv32)
    requires 1 <= n <= 31 && n <= i < 32
    ensures Bit(RL(x, n), i) <==> Bit(x, i - n)
  {
    OrBit(x << n, x >> (32 - n), i);
    ShlAbove(x, n, i);
    ShrBeyond(x, 32 - n, i);
  }

  /** Bits 0..n-1 of RL(x, n) are bits 32-n..31 of x. */
  lemma RLLow(x: Word, n: bv32, i: bv32)
    requires 1 <= n <= 31 && i < n
    ensures Bit(RL(x, n), i) <==> Bit(x, 32 - n + i)
  {
    OrBit(x << n, x >> (32 - n), i);
    ShlBelow(x, n, i);
    ShrWithin(x, 32 - n, i);
  }

  /** RL is a rotation: bit i of the result is bit (i - n) mod 32 of x. */
  lemma RLRotates(x: Word, n: bv32, i: bv32)
    requires 1 <= n <= 31 && i < 32
    ensures Bit(RL(x, n), i) <==> Bit(x, (i - n) & 31)
  {
    if n <= i {
      RLHigh(x, n, i);
      assert (i - n) & 31 == i - n;
    } else {
      RLLow(x, n, i);
      assert (i - n) & 31 == 32 - n + i;
    }
  }

  /** Which auxiliary function a step uses. */
  datatype Aux = AuxF | AuxG | AuxH | AuxI

  function Apply(f: Aux, x: Word, y: Word, z: Word): Word
  {
    match f
    case AuxF => F(x, y, z)
    case AuxG => G(x, y, z)
    case AuxH => H(x, y, z)
    case AuxI => I(x, y, z)
  }

  /** The macro R: the new value of register a, a + f(b, c, d) + m + k rotated by s, plus b. */
  function Step(f: Aux, a: Word, b: Word, c: Word, d: Word, m: Word, k: Word, s: bv32): Word
    requires 1 <= s <= 31
  {
    Add(RL(Add(Add(Add(a, Apply(f, b, c, d)), m), k), s), b)
  }

  // ---------------------------------------------------------------------------------------------
  // The 64 invocations of R in transform_block, and the RFC 1321 schedules they follow.

  /** The register an invocation of R updates; the other three follow it in cyclic order a, b, c, d. */
  datatype Name = A | B | C | D

  /** The arguments of one invocation of R: updated register, auxiliary function, message word, constant, shift. */
  datatype Row = Row(r: Name, f: Aux, x: nat, t: Word, s: bv32)

  /** The arguments of the 64 R lines of transform_block, in order (lines 22-88 of md5.cpp). */
  function Line(i: nat): (row: Row)
    requires i < 64
    ensures row.x < 16 && 1 <= row.s <= 31
  {
    if i < 16 then Round1Line(i) else if i < 32 then Round2Line(i) else if i < 48 then Round3Line(i) else Round4Line(i)
  }

  /** Lines 0 to 15: round 1. */
  function Round1Line(i: nat): (row: Row)
    requires i < 16
    ensures row.x < 16 && 1 <= row.s <= 31
  {
    match i
    case 0 => Row(A, AuxF, 0, 0xd76aa478, 7)
    case 1 => Row(D, AuxF, 1, 0xe8c7b756, 12)
    case 2 => Row(C, AuxF, 2, 0x242070db, 17)
    case 3 => Row(B, AuxF, 3, 0xc1bdceee, 22)
    case 4 => Row(A, AuxF, 4, 0xf57c0faf, 7)
    case 5 => Row(D, AuxF, 5, 0x4787c62a, 12)
    case 6 => Row(C, AuxF, 6, 0xa8304613, 17)
    case 7 => Row(B, AuxF, 7, 0xfd469501, 22)
    case 8 => Row(A, AuxF, 8, 0x698098d8, 7)
    case 9 => Row(D, AuxF, 9, 0x8b44f7af, 12)
    case 10 => Row(C, AuxF, 10, 0xffff5bb1, 17)
    case 11 => Row(B, AuxF, 11, 0x895cd7be, 22)
    case 12 => Row(A, AuxF, 12, 0x6b901122, 7)
    case 13 => Row(D, AuxF, 13, 0xfd987193, 12)
    case 14 => Row(C, AuxF, 14, 0xa679438e, 17)
    case _ => Row(B, AuxF, 15, 0x49b40821, 22)
  }

  /** Lines 16 to 31: round 2. */
  function Round2Line(i: nat): (row: Row)
    requires 16 <= i < 32
    ensures row.x < 16 && 1 <= row.s <= 31
  {
    match i
    case 16 => Row(A, AuxG, 1, 0xf61e2562, 5)
    case 17 => Row(D, AuxG, 6, 0xc040b340, 9)
    case 18 => Row(C, AuxG, 11, 0x265e5a51, 14)
    case 19 => Row(B, AuxG, 0, 0xe9b6c7aa, 20)
    case 20 => Row(A, AuxG, 5, 0xd62f105d, 5)
    case 21 => Row(D, AuxG, 10, 0x02441453, 9)
    case 22 => Row(C, AuxG, 15, 0xd8a1e681, 14)
    case 23 => Row(B, AuxG, 4, 0xe7d3fbc8, 20)
    case 24 => Row(A, AuxG, 9, 0x21e1cde6, 5)
    case 25 => Row(D, AuxG, 14, 0xc33707d6, 9)
    case 26 => Row(C, AuxG, 3, 0xf4d50d87, 14)
    case 27 => Row(B, AuxG, 8, 0x455a14ed, 20)
    case 28 => Row(A, AuxG, 13, 0xa9e3e905, 5)
    case 29 => Row(D, AuxG, 2, 0xfcefa3f8, 9)
    case 30 => Row(C, AuxG, 7, 0x676f02d9, 14)
    case _ => Row(B, AuxG, 12, 0x8d2a4c8a, 20)
  }

  /** Lines 32 to 47: round 3. */
  function Round3Line(i: nat): (row: Row)
    requires 32 <= i < 48
    ensures row.x < 16 && 1 <= row.s <= 31
  {
    match i
    case 32 => Row(A, AuxH, 5, 0xfffa3942, 4)
    case 33 => Row(D, AuxH, 8, 0x8771f681, 11)
    case 34 => Row(C, AuxH, 11, 0x6d9d6122, 16)
    case 35 => Row(B, AuxH, 14, 0xfde5380c, 23)
    case 36 => Row(A, AuxH, 1, 0xa4beea44, 4)
    case 37 => Row(D, AuxH, 4, 0x4bdecfa9, 11)
    case 38 => Row(C, AuxH, 7, 0xf6bb4b60, 16)
    case 39 => Row(B, AuxH, 10, 0xbebfbc70, 23)
    case 40 => Row(A, AuxH, 13, 0x289b7ec6, 4)
    case 41 => Row(D, AuxH, 0, 0xeaa127fa, 11)
    case 42 => Row(C, AuxH, 3, 0xd4ef3085, 16)
    case 43 => Row(B, AuxH, 6, 0x04881d05, 23)
    case 44 => Row(A, AuxH, 9, 0xd9d4d039, 4)
    case 45 => Row(D, AuxH, 12, 0xe6db99e5, 11)
    case 46 => Row(C, AuxH, 15, 0x1fa27cf8, 16)
    case _ => Row(B, AuxH, 2, 0xc4ac5665, 23)
  }

  /** Lines 48 to 63: round 4. */
  function Round4Line(i: nat): (row: Row)
    requires 48 <= i < 64
    ensures row.x < 16 && 1 <= row.s <= 31
  {
    match i
    case 48 => Row(A, AuxI, 0, 0xf4292244, 6)
    case 49 => Row(D, AuxI, 7, 0x432aff97, 10)
    case 50 => Row(C, AuxI, 14, 0xab9423a7, 15)
    case 51 => Row(B, AuxI, 5, 0xfc93a039, 21)
    case 52 => Row(A, AuxI, 12, 0x655b59c3, 6)
    case 53 => Row(D, AuxI, 3, 0x8f0ccc92, 10)
    case 54 => Row(C, AuxI, 10, 0xffeff47d, 15)
    case 55 => Row(B, AuxI, 1, 0x85845dd1, 21)
    case 56 => Row(A, AuxI, 8, 0x6fa87e4f, 6)
    case 57 => Row(D, AuxI, 15, 0xfe2ce6e0, 10)
    case 58 => Row(C, AuxI, 6, 0xa3014314, 15)
    case 59 => Row(B, AuxI, 13, 0x4e0811a1, 21)
    case 60 => Row(A, AuxI, 4, 0xf7537e82, 6)
    case 61 => Row(D, AuxI, 11, 0xbd3af235, 10)
    case 62 => Row(C, AuxI, 2, 0x2ad7d2bb, 15)
    case _ => Row(B, AuxI, 9, 0xeb86d391, 21)
  }

  /** The register operation i of section 3.4 updates: A, D, C, B in turn. */
  function RegOf(i: nat): Name
  {
    var j := i % 4;
    if j == 0 then A else if j == 1 then D else if j == 2 then C else B
  }

  /** The auxiliary function of operation i: F, G, H and I for the four rounds of 16 operations. */
  function RoundAux(i: nat): Aux
    requires i < 64
  {
    if i < 16 then AuxF else if i < 32 then AuxG else if i < 48 then AuxH else AuxI
  }

  /** The message word of operation i: j, 1 + 5j, 5 + 3j and 7j (mod 16) in the four rounds, j = i mod 16. */
  function MsgIndex(i: nat): (x: nat)
    requires i < 64
    ensures x < 16
  {
    var j := i % 16;
    if i < 16 then j else if i < 32 then (1 + 5 * j) % 16 else if i < 48 then (5 + 3 * j) % 16 else (7 * j) % 16
  }

  /** The shift of operation i; each round cycles through four amounts. */
  function Shift(i: nat): (s: bv32)
    requires i < 64
    ensures 4 <= s <= 23
  {
    var j := i % 4;
    if i < 16 then (if j == 0 then 7 else if j == 1 then 12 else if j == 2 then 17 else 22)
    else if i < 32 then (if j == 0 then 5 else if j == 1 then 9 else if j == 2 then 14 else 20)
    else if i < 48 then (if j == 0 then 4 else if j == 1 then 11 else if j == 2 then 16 else 23)
    else (if j == 0 then 6 else if j == 1 then 10 else if j == 2 then 15 else 21)
  }

  /**
   * Operation i as section 3.4 prescribes it: register, function, message word and shift from the
   * RFC's schedules. The constants T[i] are taken from the table, not derived from the sine function.
   */
  function RfcRow(i: nat): Row
    requires i < 64
  {
    Row(RegOf(i), RoundAux(i), MsgIndex(i), Line(i).t, Shift(i))
  }

  /** Every R line of transform_block is the operation section 3.4 prescribes at its position. */
  lemma LinesFollowSchedule(i: nat)
    requires i < 64
    ensures Line(i) == RfcRow(i)
  {
    if i < 16 {
      ScheduleRound1(i);
    } else if i < 32 {
      ScheduleRound2(i);
    } else if i < 48 {
      ScheduleRound3(i);
    } else {
      ScheduleRound4(i);
    }
  }

  lemma {:induction false} ScheduleRound1(i: nat)
    requires i < 16
    ensures Line(i) == RfcRow(i)
  {
    match i
    case 0 =>
    case 1 =>
    case 2 =>
    case 3 =>
    case 4 =>
    case 5 =>
    case 6 =>
    case 7 =>
    case 8 =>
    case 9 =>
    case 10 =>
    case 11 =>
    case 12 =>
    case 13 =>
    case 14 =>
    case _ =>
  }

  lemma {:induction false} ScheduleRound2(i: nat)
    requires 16 <= i < 32
    ensures Line(i) == RfcRow(i)
  {
    match i
    case 16 =>
    case 17 =>
    case 18 =>
    case 19 =>
    case 20 =>
    case 21 =>
    case 22 =>
    case 23 =>
    case 24 =>
    case 25 =>
    case 26 =>
    case 27 =>
    case 28 =>
    case 29 =>
    case 30 =>
    case _ =>
  }

  lemma {:induction false} ScheduleRound3(i: nat)
    requires 32 <= i < 48
    ensures Line(i) == RfcRow(i)
  {
    match i
    case 32 =>
    case 33 =>
    case 34 =>
    case 35 =>
    case 36 =>
    case 37 =>
    case 38 =>
    case 39 =>
    case 40 =>
    case 41 =>
    case 42 =>
    case 43 =>
    case 44 =>
    case 45 =>
    case 46 =>
    case _ =>
  }

  lemma {:induction false} ScheduleRound4(i: nat)
    requires 48 <= i < 64
    ensures Line(i) == RfcRow(i)
  {
    match i
    case 48 =>
    case 49 =>
    case 50 =>
    case 51 =>
    case 52 =>
    case 53 =>
    case 54 =>
    case 55 =>
    case 56 =>
    case 57 =>
    case 58 =>
    case 59 =>
    case 60 =>
    case 61 =>
    case 62 =>
    case _ =>
  }

  // ---------------------------------------------------------------------------------------------
  // The block function.

  datatype Regs = Regs(a: Word, b: Word, c: Word, d: Word)

  /** One invocation of R with message word w: the named register gets Step of itself and the next three. */
  function Exec(g: Regs, w: Word, row: Row): (r: Regs)
    requires 1 <= row.s <= 31
    ensures row.r != A ==> r.a == g.a
    ensures row.r != B ==> r.b == g.b
    ensures row.r != C ==> r.c == g.c
    ensures row.r != D ==> r.d == g.d
  {
    match row.r
    case A => g.(a := Step(row.f, g.a, g.b, g.c, g.d, w, row.t, row.s))
    case B => g.(b := Step(row.f, g.b, g.c, g.d, g.a, w, row.t, row.s))
    case C => g.(c := Step(row.f, g.c, g.d, g.a, g.b, w, row.t, row.s))
    case D => g.(d := Step(row.f, g.d, g.a, g.b, g.c, w, row.t, row.s))
  }

  /** The registers after the first n R lines of transform_block. */
  function Run(g: Regs, m: seq<Word>, n: nat): Regs
    requires |m| == 16 && n <= 64
  {
    if n == 0 then g else Exec(Run(g, m, n - 1), m[Line(n - 1).x], Line(n - 1))
  }

  /** The registers after the first n operations of section 3.4, computed from its schedules. */
  function RfcRun(g: Regs, m: seq<Word>, n: nat): Regs
    requires |m| == 16 && n <= 64
  {
    if n == 0 then g
    else
      var row := RfcRow(n - 1);
      Exec(RfcRun(g, m, n - 1), m[MsgIndex(n - 1)], row)
  }

  /** The lines of transform_block perform the operations of section 3.4, one by one. */
  lemma {:induction false} RunIsRfcRun(g: Regs, m: seq<Word>, n: nat)
    requires |m| == 16 && n <= 64
    ensures Run(g, m, n) == RfcRun(g, m, n)
  {
    if n > 0 {
      RunIsRfcRun(g, m, n - 1);
      LinesFollowSchedule(n - 1);
    }
  }

  /** The new chaining value: each old word plus the corresponding final register, modulo 2^32. */
  function Compress(iv: seq<Word>, m: seq<Word>): (r: seq<Word>)
    requires |iv| == 4 && |m| == 16
    ensures |r| == 4
  {
    var f := Run(Regs(iv[0], iv[1], iv[2], iv[3]), m, 64);
    [Add(iv[0], f.a), Add(iv[1], f.b), Add(iv[2], f.c), Add(iv[3], f.d)]
  }

  /** Compress is the block update of section 3.4: A = A + AA and so on, after the 64 operations. */
  lemma CompressIsRfc(iv: seq<Word>, m: seq<Word>)
    requires |iv| == 4 && |m| == 16
    ensures var f := RfcRun(Regs(iv[0], iv[1], iv[2], iv[3]), m, 64);
            Compress(iv, m) == [Add(iv[0], f.a), Add(iv[1], f.b), Add(iv[2], f.c), Add(iv[3], f.d)]
  {
    RunIsRfcRun(Regs(iv[0], iv[1], iv[2], iv[3]), m, 64);
  }

  /** Compress in terms of the final registers. */
  lemma CompressOf(iv: seq<Word>, m: seq<Word>, f: Regs)
    requires |iv| == 4 && |m| == 16 && f == Run(Regs(iv[0], iv[1], iv[2], iv[3]), m, 64)
    ensures Compress(iv, m) == [Add(iv[0], f.a), Add(iv[1], f.b), Add(iv[2], f.c), Add(iv[3], f.d)]
  {
  }

  /**
   * transform_block: copies IV into a, b, c, d, performs the 64 R lines (one loop iteration per
   * line of the table), then adds the registers into IV in place. M is only read.
   */
  method TransformBlock(iv: array<Word>, m: array<Word>)
    requires iv.Length == 4 && m.Length == 16 && iv != m
    modifies iv
    ensures iv[..] == Compress(old(iv[..]), m[..])
  {
    ghost var iv0 := iv[..];
    ghost var ms := m[..];
    var a, b, c, d := iv[0], iv[1], iv[2], iv[3];
    ghost var start := Regs(a, b, c, d);
    for i := 0 to 64
      invariant Regs(a, b, c, d) == Run(start, ms, i)
      invariant iv[..] == iv0
    {
      var row := Line(i);
      var w := m[row.x];
      assert w == ms[row.x];
      var g := Exec(Regs(a, b, c, d), w, row);
      a, b, c, d := g.a, g.b, g.c, g.d;
    }
    CompressOf(iv0, ms, Regs(a, b, c, d));
    iv[0], iv[1], iv[2], iv[3] := Add(iv[0], a), Add(iv[1], b), Add(iv[2], c), Add(iv[3], d);
    assert iv[..] == [Add(iv0[0], a), Add(iv0[1], b), Add(iv0[2], c), Add(iv0[3], d)];
  }

}
