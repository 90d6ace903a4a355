/**
 * The variable-width LZW coder of MD5Gif/LzwEncoder.cs (Appendix F of the GIF89a specification):
 * codes start one bit wider than the pixels, grow to at most 12 bits, and the dictionary is an
 * open-addressing table of 5003 slots. When all 4096 codes are assigned, an overflow table counts
 * the new strings seen, and only when that count passes maxOverflowCount is a CLEAR code sent and
 * the dictionary emptied.
 */
module Lzw {
  import opened Bits
  import opened SubBlocks
  import opened GifWriter
  import opened LzwDecoder

  const HashTableLength: nat := 5003

  /** The exceptions Encode throws before it writes anything, and a probe that never ends. */
  datatype Error = NullStream | EmptyData | InitBitsOutOfRange | OverflowCountOutOfRange | ProbeLimit

  datatype Outcome = Done | Failed(error: Error)

  /** The bits of a sequence of codes, each least significant bit first. */
  function CodesBits(cs: seq<Code>): (r: seq<bool>)
  {
    if cs == [] then [] else CodesBits(cs[..|cs| - 1]) + CodeBits(cs[|cs| - 1].value, cs[|cs| - 1].width)
  }

  lemma CodesBitsSnoc(cs: seq<Code>, c: Code)
    ensures CodesBits(cs + [c]) == CodesBits(cs) + CodeBits(c.value, c.width)
  {
    assert (cs + [c])[..|cs|] == cs;
  }

  /** A code of the output: at least initBits + 1 and at most 12 bits wide, and its value fits. */
  predicate Fits(c: Code, initBits: nat)
  {
    initBits + 1 <= c.width <= MaxMaxBits && c.value < Pow2(c.width)
  }

  /** Bitwise exclusive or of two naturals. */
  function Xor(a: nat, b: nat): nat
    decreases a + b
  {
    if a == 0 then b
    else if b == 0 then a
    else (a % 2 + b % 2) % 2 + 2 * Xor(a / 2, b / 2)
  }

  /** Exclusive or of two n-bit values has n bits. */
  lemma {:induction false} XorBelow(a: nat, b: nat, n: nat)
    requires a < Pow2(n) && b < Pow2(n)
    ensures Xor(a, b) < Pow2(n)
    decreases n
  {
    if a != 0 && b != 0 {
      XorBelow(a / 2, b / 2, n - 1);
    }
  }

  /** `(c << 4) ^ prevIndex`, where the main-table probe starts. */
  function Hash(c: byte, prev: nat): (h: nat)
    requires prev < CodeLimit
    ensures h < CodeLimit
  {
    assert Pow2(12) == CodeLimit;
    XorBelow(c as nat * 16, prev, 12);
    Xor(c as nat * 16, prev)
  }

  /**
   * `(c << MaxMaxBits) | prevIndex`, the key of the string prevIndex followed by c. The shifted
   * byte and prevIndex share no bit, so the or is a sum (EntryIsSum).
   */
  function Entry(c: byte, prev: nat): nat
  {
    c as nat * CodeLimit + prev
  }

  lemma EntryIsSum(c: bv32, prev: bv32)
    requires c < 256 && prev < 4096
    ensures (c << 12) | prev == c * 4096 + prev
  {
    assert (c << 12) & prev == 0;
    assert c << 12 == c * 4096;
  }

  /** The key determines the string: prevIndex and c are read back from it. */
  lemma EntryDetermines(c: byte, prev: nat, c': byte, prev': nat)
    requires prev < CodeLimit && prev' < CodeLimit
    ensures Entry(c, prev) == Entry(c', prev') <==> c == c' && prev == prev'
  {
    if Entry(c, prev) == Entry(c', prev') {
      assert Entry(c, prev) / CodeLimit == c as nat && Entry(c, prev) % CodeLimit == prev;
      assert Entry(c', prev') / CodeLimit == c' as nat && Entry(c', prev') % CodeLimit == prev';
    }
  }

  /** The main-table rehash: double modulo 5003, except that slot 0 goes to slot 5002. */
  function NextMain(h: nat): (r: nat)
    requires h < HashTableLength
    ensures r < HashTableLength
    ensures h != 0 ==> r == (2 * h) % HashTableLength
    ensures h == 0 ==> r == HashTableLength - 1
  {
    if h == 0 then HashTableLength - 1 else (2 * h) % HashTableLength
  }

  /** The overflow-table rehash: 2h + 1 modulo 5003. */
  function NextOverflow(h: nat): (r: nat)
    requires h < HashTableLength
    ensures r < HashTableLength
  {
    (2 * h + 1) % HashTableLength
  }

  /** The slot of the k-th probe from h0 in the main table. */
  function MainProbe(h0: nat, k: nat): (r: nat)
    requires h0 < HashTableLength
    ensures r < HashTableLength
  {
    if k == 0 then h0 else NextMain(MainProbe(h0, k - 1))
  }

  /** The slot of the k-th probe from h0 in the overflow table. */
  function OverflowProbe(h0: nat, k: nat): (r: nat)
    requires h0 < HashTableLength
    ensures r < HashTableLength
  {
    if k == 0 then h0 else NextOverflow(OverflowProbe(h0, k - 1))
  }

  /**
   * How a probe ends: at the slot holding the key, at the first free slot, or never. A probe
   * that visits 5003 slots without either has entered a cycle of occupied slots, where the
   * source's goto loop would run forever.
   */
  datatype Probe = Found(slot: nat) | Free(slot: nat) | Exhausted

  /**
   * The Retry loop: hashTable holds key and code in slots 2h and 2h + 1; a negative key marks a
   * free slot.
   */
  method FindMain(table: array<int>, entry: nat, h0: nat) returns (r: Probe, ghost k: nat)
    requires table.Length == 2 * HashTableLength && h0 < HashTableLength
    ensures r.Found? ==> r.slot == MainProbe(h0, k) && table[2 * r.slot] == entry
    ensures r.Free? ==> r.slot == MainProbe(h0, k) && table[2 * r.slot] < 0
    ensures r.Exhausted? ==> k == HashTableLength
    ensures forall j :: 0 <= j < k ==> table[2 * MainProbe(h0, j)] >= 0 && table[2 * MainProbe(h0, j)] != entry
  {
    var h, n := h0, 0;
    k := 0;
    while n < HashTableLength
      invariant n == k <= HashTableLength && h == MainProbe(h0, k)
      invariant forall j :: 0 <= j < k ==> table[2 * MainProbe(h0, j)] >= 0 && table[2 * MainProbe(h0, j)] != entry
    {
      if table[2 * h] == entry {
        return Found(h), n;
      } else if table[2 * h] >= 0 {
        if h != 0 {
          h := h * 2;
          if h >= HashTableLength {
            h := h - HashTableLength;
          }
        } else {
          h := HashTableLength - 1;
        }
        n, k := n + 1, k + 1;
      } else {
        return Free(h), n;
      }
    }
    return Exhausted, n;
  }

  /** The OverflowRetry loop over the overflow table, which holds keys only. */
  method FindOverflow(table: array<int>, entry: nat, h0: nat) returns (r: Probe, ghost k: nat)
    requires table.Length == HashTableLength && h0 < HashTableLength
    ensures r.Found? ==> r.slot == OverflowProbe(h0, k) && table[r.slot] == entry
    ensures r.Free? ==> r.slot == OverflowProbe(h0, k) && table[r.slot] < 0
    ensures r.Exhausted? ==> k == HashTableLength
    ensures forall j :: 0 <= j < k ==> table[OverflowProbe(h0, j)] >= 0 && table[OverflowProbe(h0, j)] != entry
  {
    var h, n := h0, 0;
    k := 0;
    while n < HashTableLength
      invariant n == k <= HashTableLength && h == OverflowProbe(h0, k)
      invariant forall j :: 0 <= j < k ==> table[OverflowProbe(h0, j)] >= 0 && table[OverflowProbe(h0, j)] != entry
    {
      if table[h] == entry {
        return Found(h), n;
      }
      if table[h] >= 0 {
        h := h * 2 + 1;
        if h >= HashTableLength {
          h := h - HashTableLength;
        }
        n, k := n + 1, k + 1;
      } else {
        return Free(h), n;
      }
    }
    return Exhausted, n;
  }

  /** `Span<int>.Fill(-1)`: every slot free. */
  method Clear(a: array<int>)
    modifies a
    ensures forall j :: 0 <= j < a.Length ==> a[j] == -1
  {
    for j := 0 to a.Length
      invariant forall i :: 0 <= i < j ==> a[i] == -1
    {
      a[j] := -1;
    }
  }

  /** The code width rule: currBits is the fewest bits, and at least initBits + 1, that hold every code below currIndex. */
  ghost predicate Widths(initBits: nat, currIndex: nat, currBits: nat)
  {
    Pow2(initBits) + 2 <= currIndex <= CodeLimit
    && initBits + 1 <= currBits <= MaxMaxBits && currIndex <= Pow2(currBits)
    && (currBits == initBits + 1 || Pow2(currBits - 1) < currIndex)
  }

  /** The key in slot s of the main table (negative when the slot is free). */
  ghost function KeyAt(hashTable: array<int>, s: nat): int
    reads hashTable
    requires s < HashTableLength && hashTable.Length == 2 * HashTableLength
  {
    hashTable[2 * s]
  }

  /** The code in slot s of the main table. */
  ghost function CodeAt(hashTable: array<int>, s: nat): int
    reads hashTable
    requires s < HashTableLength && hashTable.Length == 2 * HashTableLength
  {
    hashTable[2 * s + 1]
  }

  /**
   * The encoder's dictionary, the strings its codes stand for: those a decoder starts from after
   * CLEAR, then one non-empty string for each code assigned since.
   */
  ghost predicate Dictionary(initBits: nat, strs: seq<seq<byte>>)
  {
    Pow2(initBits) + 2 <= |strs| <= CodeLimit
    && (forall j :: 0 <= j < Pow2(initBits) + 2 ==> strs[j] == Initial(initBits)[j])
    && (forall j :: Pow2(initBits) + 2 <= j < |strs| ==> strs[j] != [])
  }

  /** The string of a pixel value is that pixel alone; CLEAR stands for no string. */
  lemma DictionaryLiteral(initBits: nat, strs: seq<seq<byte>>, c: byte)
    requires Dictionary(initBits, strs) && c as nat < Pow2(initBits)
    ensures strs[c] == [c] && strs[Pow2(initBits)] == []
  {
    assert strs[c] == Initial(initBits)[c];
    assert strs[Pow2(initBits)] == Initial(initBits)[Pow2(initBits)];
  }

  lemma DictionaryInit(initBits: nat)
    requires 2 <= initBits <= 8
    ensures Dictionary(initBits, Initial(initBits))
  {
    Pow2Le(initBits, 8);
    assert Pow2(8) == 256;
    assert Pow2(12) == CodeLimit;
  }

  /**
   * A slot of the main table that holds key and code: code stands for the string of the code in
   * the key's low 12 bits followed by the pixel in its high bits.
   */
  ghost predicate Defines(strs: seq<seq<byte>>, key: int, code: int)
  {
    0 <= code < |strs| && 0 <= key && key % CodeLimit < |strs| && key / CodeLimit < 256
    && strs[code] == strs[key % CodeLimit] + [(key / CodeLimit) as byte]
  }

  /** Every occupied slot of the main table holds a code of the dictionary strs and defines it. */
  ghost predicate Tables(hashTable: array<int>, overflowTable: array<int>, strs: seq<seq<byte>>)
    reads hashTable
  {
    hashTable.Length == 2 * HashTableLength && overflowTable.Length == HashTableLength
    && hashTable != overflowTable
    && forall s :: 0 <= s < HashTableLength && KeyAt(hashTable, s) >= 0 ==> Defines(strs, KeyAt(hashTable, s), CodeAt(hashTable, s))
  }

  /** The slot of the key of prevIndex followed by c gives the code of that string. */
  lemma FoundCode(hashTable: array<int>, overflowTable: array<int>, strs: seq<seq<byte>>, slot: nat, c: byte, prevIndex: nat)
    requires Tables(hashTable, overflowTable, strs) && slot < HashTableLength
    requires prevIndex < CodeLimit && hashTable[2 * slot] == Entry(c, prevIndex)
    ensures 0 <= hashTable[2 * slot + 1] < |strs| && prevIndex < |strs|
    ensures strs[hashTable[2 * slot + 1]] == strs[prevIndex] + [c]
  {
    assert KeyAt(hashTable, slot) >= 0;
    var key := Entry(c, prevIndex);
    assert key / CodeLimit == c as nat && key % CodeLimit == prevIndex;
    assert Defines(strs, key, CodeAt(hashTable, slot));
  }

  /** A definition stays true when the dictionary grows. */
  lemma DefinesGrow(strs: seq<seq<byte>>, e: seq<byte>, key: int, code: int)
    requires Defines(strs, key, code)
    ensures Defines(strs + [e], key, code)
  {
    var strs1 := strs + [e];
    assert strs1[code] == strs[code] && strs1[key % CodeLimit] == strs[key % CodeLimit];
  }

  /**
   * The decoder of the codes written so far keeps step with the encoder: its pixels followed by
   * the current string prevIndex are the data consumed, and its dictionary is the encoder's, or
   * one entry short of it while that entry waits for the next code (the decoder learns its last
   * pixel only then), or all 4096 codes in both.
   */
  ghost predicate Tracks(st: State, strs: seq<seq<byte>>, prevIndex: nat, consumed: seq<byte>)
  {
    prevIndex < |strs| && strs[prevIndex] != [] && st.out + strs[prevIndex] == consumed
    && (st.prev < 0 ==> st.dict == strs)
    && (st.prev >= 0 ==>
          st.prev < |st.dict| && st.dict[st.prev] != []
          && (strs == st.dict + [st.dict[st.prev] + [strs[prevIndex][0]]] || (strs == st.dict && |strs| == CodeLimit)))
  }

  /**
   * Writing the current string's code in the decoder's width: the decoder reads it, outputs the
   * whole data consumed so far and then knows every string the encoder knows.
   */
  lemma EmitTracks(initBits: nat, st: State, strs: seq<seq<byte>>, prevIndex: nat, consumed: seq<byte>, bits: nat)
    requires Dictionary(initBits, strs) && Tracks(st, strs, prevIndex, consumed) && bits == Width(initBits, |st.dict|)
    ensures Feed(initBits, st, Code(prevIndex, bits)) == Some(State(strs, prevIndex, consumed))
  {
    assert strs[Pow2(initBits)] == Initial(initBits)[Pow2(initBits)];
    var dict := st.dict;
    var k := prevIndex;
    if st.prev >= 0 && strs != dict {
      var p := st.prev;
      assert strs == dict + [dict[p] + [strs[k][0]]];
      if k < |dict| {
        assert dict[k] == strs[k];
        assert Grow(dict, dict[p] + [dict[k][0]]) == strs;
      } else {
        assert k == |dict| && strs[k] == dict[p] + [strs[k][0]];
        assert strs[k][0] == dict[p][0];
      }
    }
  }

  /**
   * After the code of prevIndex, assigning the next code to prevIndex followed by c: the decoder
   * lags one entry, which ends in c, the first pixel of the new current string.
   */
  lemma AssignTracks(initBits: nat, strs: seq<seq<byte>>, prevIndex: nat, consumed: seq<byte>, c: byte)
    requires Dictionary(initBits, strs) && |strs| < CodeLimit && c as nat < Pow2(initBits)
    requires prevIndex < |strs| && strs[prevIndex] != []
    ensures Dictionary(initBits, strs + [strs[prevIndex] + [c]])
    ensures Tracks(State(strs, prevIndex, consumed), strs + [strs[prevIndex] + [c]], c as nat, consumed + [c])
  {
    var strs1 := strs + [strs[prevIndex] + [c]];
    DictionaryLiteral(initBits, strs, c);
    assert strs1[c] == [c];
    assert forall j :: 0 <= j < |strs| ==> strs1[j] == strs[j];
  }

  /** After the code of prevIndex with all codes assigned, both dictionaries stay full and equal. */
  lemma FullTracks(initBits: nat, strs: seq<seq<byte>>, prevIndex: nat, consumed: seq<byte>, c: byte)
    requires Dictionary(initBits, strs) && |strs| == CodeLimit && c as nat < Pow2(initBits)
    requires prevIndex < |strs| && strs[prevIndex] != []
    ensures Tracks(State(strs, prevIndex, consumed), strs, c as nat, consumed + [c])
  {
    DictionaryLiteral(initBits, strs, c);
  }

  /** Extending the current string by a code of the table: still in step, one pixel further. */
  lemma FoundTracks(st: State, strs: seq<seq<byte>>, prevIndex: nat, consumed: seq<byte>, code: nat, c: byte)
    requires Tracks(st, strs, prevIndex, consumed) && code < |strs| && strs[code] == strs[prevIndex] + [c]
    ensures Tracks(st, strs, code, consumed + [c])
  {
    assert strs[code][0] == strs[prevIndex][0];
    assert st.out + strs[code] == (st.out + strs[prevIndex]) + [c];
  }

  /**
   * CLEAR in the decoder's width: the decoder starts over with the initial strings, as the encoder
   * does, and the current string is the pixel c alone.
   */
  lemma ClearTracks(initBits: nat, st: State, strs: seq<seq<byte>>, consumed: seq<byte>, c: byte, bits: nat)
    requires 2 <= initBits <= 8 && Dictionary(initBits, strs) && c as nat < Pow2(initBits)
    requires Tracks(st, strs, c as nat, consumed) && bits == Width(initBits, |st.dict|)
    ensures Feed(initBits, st, Code(Pow2(initBits), bits)) == Some(State(Initial(initBits), -1, st.out))
    ensures Tracks(State(Initial(initBits), -1, st.out), Initial(initBits), c as nat, consumed)
    ensures Dictionary(initBits, Initial(initBits))
    ensures Width(initBits, Pow2(initBits) + 2) == initBits + 1
  {
    DictionaryLiteral(initBits, strs, c);
    DictionaryInit(initBits);
    DictionaryLiteral(initBits, Initial(initBits), c);
    InitialWidth(initBits);
  }

  /** The first CLEAR, and the first pixel c as the current string. */
  lemma BeginTracks(initBits: nat, c: byte)
    requires 2 <= initBits <= 8 && c as nat < Pow2(initBits)
    ensures Feed(initBits, Start(), Code(Pow2(initBits), initBits + 1)) == Some(State(Initial(initBits), -1, []))
    ensures Tracks(State(Initial(initBits), -1, []), Initial(initBits), c as nat, [c])
    ensures Dictionary(initBits, Initial(initBits))
    ensures Width(initBits, Pow2(initBits) + 2) == initBits + 1
  {
    DictionaryInit(initBits);
    DictionaryLiteral(initBits, Initial(initBits), c);
    WidthFromIs(initBits + 1, 0, initBits + 1);
    InitialWidth(initBits);
  }

  /** Right after CLEAR, the decoder reads initBits + 1 bits. */
  lemma InitialWidth(initBits: nat)
    requires 2 <= initBits <= 8
    ensures Width(initBits, Pow2(initBits) + 2) == initBits + 1
  {
    Pow2Le(initBits, 8);
    assert Pow2(8) == 256;
    WidthFromIs(initBits + 1, Pow2(initBits) + 2, initBits + 1);
  }

  /** Reading the end code after codes the decoder reads gives the decoder's pixels. */
  lemma DecodeEnd(initBits: nat, cs: seq<Code>, st: State, width: nat)
    requires Run(initBits, cs) == Some(st)
    ensures Decode(initBits, cs + [Code(Pow2(initBits) + 1, width)]) == Some(st.out)
  {
    assert (cs + [Code(Pow2(initBits) + 1, width)])[..|cs|] == cs;
  }

  /** The writer holds exactly the codes so far; the first is CLEAR and each fits its width. */
  ghost predicate Emitted(w: Writer, codes: seq<Code>, initBits: nat)
    reads w, w.stream, w.block
  {
    w.Valid() && w.bits == CodesBits(codes)
    && |codes| >= 1 && codes[0] == Code(Pow2(initBits), initBits + 1)
    && forall i :: 0 <= i < |codes| ==> Fits(codes[i], initBits)
  }


  /**
   * What the encoder knows beyond its tables: the strings of its codes, where a decoder of the
   * codes written so far stands, and the pixels consumed.
   */
  datatype Trace = Trace(strs: seq<seq<byte>>, st: State, consumed: seq<byte>)

  /**
   * The encoder's state beside its tables and its writer: the width rule, the dictionary, and
   * a decoder of the codes written so far, in step with the encoder and reading each code in the
   * width it was written in.
   */
  ghost predicate Agrees(initBits: nat, prevIndex: nat, currIndex: nat, currBits: nat, codes: seq<Code>, t: Trace)
  {
    2 <= initBits <= 8 && Widths(initBits, currIndex, currBits) && prevIndex < currIndex
    && Dictionary(initBits, t.strs) && |t.strs| == currIndex
    && Run(initBits, codes) == Some(t.st) && Tracks(t.st, t.strs, prevIndex, t.consumed)
    && currBits == Width(initBits, |t.st.dict|)
  }

  /** The state between two pixels of Encode's loop. */
  ghost predicate Inv(w: Writer, hashTable: array<int>, overflowTable: array<int>, initBits: nat,
                      prevIndex: nat, currIndex: nat, currBits: nat, codes: seq<Code>, t: Trace)
    reads w, w.stream, w.block, hashTable
  {
    Agrees(initBits, prevIndex, currIndex, currBits, codes, t)
    && Tables(hashTable, overflowTable, t.strs) && Emitted(w, codes, initBits)
  }

  /** The trace after the code of prevIndex, when prevIndex followed by c gets the next code. */
  ghost function Assigned(t: Trace, prevIndex: nat, c: byte): Trace
    requires prevIndex < |t.strs|
  {
    Trace(t.strs + [t.strs[prevIndex] + [c]], State(t.strs, prevIndex, t.consumed), t.consumed + [c])
  }

  /** The trace after the code of prevIndex, when no code is left to assign. */
  ghost function Kept(t: Trace, prevIndex: nat, c: byte): Trace
  {
    Trace(t.strs, State(t.strs, prevIndex, t.consumed), t.consumed + [c])
  }

  /** The trace after CLEAR. */
  ghost function Cleared(initBits: nat, t: Trace): Trace
  {
    Trace(Initial(initBits), State(Initial(initBits), -1, t.st.out), t.consumed)
  }

  /** The start of Encode: CLEAR written at initBits + 1 bits, the first pixel c the current string. */
  lemma BeginAgrees(initBits: nat, c: byte)
    requires 2 <= initBits <= 8 && c as nat < Pow2(initBits)
    ensures Agrees(initBits, c as nat, Pow2(initBits) + 2, initBits + 1, [Code(Pow2(initBits), initBits + 1)],
                   Trace(Initial(initBits), State(Initial(initBits), -1, []), [c]))
  {
    BeginTracks(initBits, c);
    WidthsInit(initBits);
    RunSnoc(initBits, [], Code(Pow2(initBits), initBits + 1), Start());
    assert [] + [Code(Pow2(initBits), initBits + 1)] == [Code(Pow2(initBits), initBits + 1)];
  }

  /** A pixel c that extends the current string to one the table knows: nothing is written. */
  lemma FoundAgrees(initBits: nat, prevIndex: nat, currIndex: nat, currBits: nat, codes: seq<Code>, t: Trace,
                    code: nat, c: byte)
    requires Agrees(initBits, prevIndex, currIndex, currBits, codes, t)
    requires code < currIndex && t.strs[code] == t.strs[prevIndex] + [c]
    ensures Agrees(initBits, code, currIndex, currBits, codes, Trace(t.strs, t.st, t.consumed + [c]))
  {
    FoundTracks(t.st, t.strs, prevIndex, t.consumed, code, c);
  }

  /**
   * A miss while codes are left: the code of prevIndex is written, prevIndex followed by c gets
   * currIndex, and c is the current string.
   */
  lemma AssignAgrees(initBits: nat, prevIndex: nat, currIndex: nat, currBits: nat, codes: seq<Code>, t: Trace, c: byte)
    requires Agrees(initBits, prevIndex, currIndex, currBits, codes, t)
    requires currIndex < CodeLimit && c as nat < Pow2(initBits)
    ensures Agrees(initBits, c as nat, currIndex + 1, Grown(currIndex, currBits),
                   codes + [Code(prevIndex, currBits)], Assigned(t, prevIndex, c))
  {
    EmitTracks(initBits, t.st, t.strs, prevIndex, t.consumed, currBits);
    RunSnoc(initBits, codes, Code(prevIndex, currBits), t.st);
    WidthsGrow(initBits, currIndex, currBits);
    GrownIsWidth(initBits, currIndex, currBits);
    AssignTracks(initBits, t.strs, prevIndex, t.consumed, c);
  }

  /** A miss with all codes assigned: the code of prevIndex is written at 12 bits, and c is the current string. */
  lemma FullAgrees(initBits: nat, prevIndex: nat, currBits: nat, codes: seq<Code>, t: Trace, c: byte)
    requires Agrees(initBits, prevIndex, CodeLimit, currBits, codes, t) && c as nat < Pow2(initBits)
    ensures currBits == MaxMaxBits
    ensures Agrees(initBits, c as nat, CodeLimit, currBits, codes + [Code(prevIndex, currBits)], Kept(t, prevIndex, c))
  {
    EmitTracks(initBits, t.st, t.strs, prevIndex, t.consumed, currBits);
    RunSnoc(initBits, codes, Code(prevIndex, currBits), t.st);
    FullWidth(initBits, currBits);
    FullTracks(initBits, t.strs, prevIndex, t.consumed, c);
  }

  /** CLEAR at the current width: encoder and decoder both start over, c still the current string. */
  lemma RestartAgrees(initBits: nat, currBits: nat, codes: seq<Code>, t: Trace, c: byte)
    requires Agrees(initBits, c as nat, CodeLimit, currBits, codes, t) && c as nat < Pow2(initBits)
    ensures Agrees(initBits, c as nat, Pow2(initBits) + 2, initBits + 1,
                   codes + [Code(Pow2(initBits), currBits)], Cleared(initBits, t))
  {
    ClearTracks(initBits, t.st, t.strs, t.consumed, c, currBits);
    RunSnoc(initBits, codes, Code(Pow2(initBits), currBits), t.st);
    WidthsInit(initBits);
  }

  /** The last string's code and the end code: the decoder reads the codes back to every pixel consumed. */
  lemma FinishDecodes(initBits: nat, prevIndex: nat, currIndex: nat, currBits: nat, codes: seq<Code>, t: Trace)
    requires Agrees(initBits, prevIndex, currIndex, currBits, codes, t)
    ensures Decode(initBits, codes + [Code(prevIndex, currBits)] + [Code(Pow2(initBits) + 1, currBits)]) == Some(t.consumed)
  {
    EmitTracks(initBits, t.st, t.strs, prevIndex, t.consumed, currBits);
    RunSnoc(initBits, codes, Code(prevIndex, currBits), t.st);
    DecodeEnd(initBits, codes + [Code(prevIndex, currBits)], State(t.strs, prevIndex, t.consumed), currBits);
  }

  /**
   * The width a decoder reads the end code in, after the last string's code: the width that code
   * was written in, except when the codes assigned have just filled it (below 12 bits), where the
   * decoder reads one bit more than Encode writes.
   */
  lemma EndWidth(initBits: nat, prevIndex: nat, currIndex: nat, currBits: nat, codes: seq<Code>, t: Trace)
    requires Agrees(initBits, prevIndex, currIndex, currBits, codes, t)
    ensures Run(initBits, codes + [Code(prevIndex, currBits)]) == Some(State(t.strs, prevIndex, t.consumed))
    ensures Width(initBits, currIndex) == if currIndex == Pow2(currBits) && currIndex < CodeLimit then currBits + 1 else currBits
  {
    EmitTracks(initBits, t.st, t.strs, prevIndex, t.consumed, currBits);
    RunSnoc(initBits, codes, Code(prevIndex, currBits), t.st);
    if currIndex < CodeLimit {
      GrownIsWidth(initBits, currIndex, currBits);
    } else {
      FullWidth(initBits, currBits);
    }
  }

  /**
   * As written, Encode sends the end code in currBits bits. When the codes assigned have just
   * filled currBits (below 12 bits), the width-checking decoder refuses what it writes.
   */
  lemma EndRefused(initBits: nat, prevIndex: nat, currIndex: nat, currBits: nat, codes: seq<Code>, t: Trace)
    requires Agrees(initBits, prevIndex, currIndex, currBits, codes, t)
    requires currIndex == Pow2(currBits) && currIndex < CodeLimit
    ensures DecodeChecked(initBits, codes + [Code(prevIndex, currBits)] + [Code(Pow2(initBits) + 1, currBits)]) == None
  {
    var cs := codes + [Code(prevIndex, currBits)];
    EndWidth(initBits, prevIndex, currIndex, currBits, codes, t);
    assert (cs + [Code(Pow2(initBits) + 1, currBits)])[..|cs|] == cs;
  }

  /**
   * The width the end code should go out in: the encoder's width rule applied for the string that
   * a decoder learns from the last code, unless all 4096 codes are assigned.
   */
  function EndBits(currIndex: nat, currBits: nat): nat
  {
    if currIndex < CodeLimit then Grown(currIndex, currBits) else currBits
  }

  /**
   * With the end code at EndBits, the width-checking decoder reads the last string's code and the
   * end code back to the pixels consumed, and the end code fits its width.
   */
  lemma FinishDecodesChecked(initBits: nat, prevIndex: nat, currIndex: nat, currBits: nat, codes: seq<Code>, t: Trace)
    requires Agrees(initBits, prevIndex, currIndex, currBits, codes, t)
    ensures Fits(Code(Pow2(initBits) + 1, EndBits(currIndex, currBits)), initBits)
    ensures DecodeChecked(initBits, codes + [Code(prevIndex, currBits)] + [Code(Pow2(initBits) + 1, EndBits(currIndex, currBits))])
         == Some(t.consumed)
  {
    var cs := codes + [Code(prevIndex, currBits)];
    var e := Code(Pow2(initBits) + 1, EndBits(currIndex, currBits));
    EndWidth(initBits, prevIndex, currIndex, currBits, codes, t);
    EndBitsFit(initBits, currIndex, currBits);
    assert (cs + [e])[..|cs|] == cs;
  }

  /** The end code fits EndBits, which is the width a decoder holding currIndex strings reads in. */
  lemma EndBitsFit(initBits: nat, currIndex: nat, currBits: nat)
    requires 2 <= initBits && Widths(initBits, currIndex, currBits)
    ensures Fits(Code(Pow2(initBits) + 1, EndBits(currIndex, currBits)), initBits)
    ensures EndBits(currIndex, currBits) == if currIndex == Pow2(currBits) && currIndex < CodeLimit then currBits + 1 else currBits
  {
    Pow2Le(initBits + 1, currBits);
    if currIndex < CodeLimit && currIndex >= Pow2(currBits) {
      assert Pow2(MaxMaxBits) == CodeLimit;
      if currBits >= MaxMaxBits {
        Pow2Le(MaxMaxBits, currBits);
      }
      Pow2Le(currBits, currBits + 1);
    }
  }

  /** WriteInt of one code that fits: the writer then holds one code more. */
  method Emit(w: Writer, value: nat, width: nat, initBits: nat, ghost codes: seq<Code>)
    returns (ghost codes1: seq<Code>)
    requires Emitted(w, codes, initBits) && Fits(Code(value, width), initBits)
    modifies w, w.stream, w.block
    ensures Emitted(w, codes1, initBits) && codes1 == codes + [Code(value, width)]
  {
    w.WriteInt(value, width);
    CodesBitsSnoc(codes, Code(value, width));
    codes1 := codes + [Code(value, width)];
    assert forall i :: 0 <= i < |codes| ==> codes1[i] == codes[i];
  }

  /** `if (currIndex >= (1 << currBits)) currBits++`: the width for assigning currIndex. */
  function Grown(currIndex: nat, currBits: nat): nat
  {
    if currIndex >= Pow2(currBits) then currBits + 1 else currBits
  }

  /** The first code CLEAR leaves free, and the width it starts with. */
  lemma WidthsInit(initBits: nat)
    requires 2 <= initBits <= 8
    ensures Widths(initBits, Pow2(initBits) + 2, initBits + 1)
  {
    Pow2Le(initBits, 8);
    assert Pow2(8) == 256;
  }

  /** Assigning one more code keeps the width rule, and the width never passes 12 bits. */
  lemma WidthsGrow(initBits: nat, currIndex: nat, currBits: nat)
    requires Widths(initBits, currIndex, currBits) && currIndex < CodeLimit
    ensures Widths(initBits, currIndex + 1, Grown(currIndex, currBits))
  {
    assert Pow2(MaxMaxBits) == CodeLimit;
    assert Pow2(currBits + 1) == 2 * Pow2(currBits);
  }

  /**
   * The encoder grows its width when it assigns currIndex exactly when a decoder holding
   * currIndex strings grows the width it reads in.
   */
  lemma GrownIsWidth(initBits: nat, currIndex: nat, currBits: nat)
    requires Widths(initBits, currIndex, currBits) && currIndex < CodeLimit
    ensures Grown(currIndex, currBits) == Width(initBits, currIndex)
  {
    if currIndex >= Pow2(currBits) {
      WidthFromIs(initBits + 1, currIndex, currBits + 1);
    } else {
      WidthFromIs(initBits + 1, currIndex, currBits);
    }
  }

  /** With all 4096 codes assigned, both sides are at 12 bits. */
  lemma FullWidth(initBits: nat, currBits: nat)
    requires Widths(initBits, CodeLimit, currBits)
    ensures currBits == MaxMaxBits == Width(initBits, CodeLimit)
  {
    assert Pow2(MaxMaxBits) == CodeLimit;
    if currBits < MaxMaxBits {
      Pow2Le(currBits, MaxMaxBits - 1);
    }
    WidthFromIs(initBits + 1, CodeLimit, MaxMaxBits);
  }

  /** Assigning currIndex to the key of prevIndex followed by c in a slot of the main table. */
  method Assign(hashTable: array<int>, overflowTable: array<int>, ghost strs: seq<seq<byte>>, slot: nat,
                c: byte, prevIndex: nat, currIndex: nat)
    requires Tables(hashTable, overflowTable, strs) && slot < HashTableLength
    requires currIndex == |strs| < CodeLimit && prevIndex < |strs|
    modifies hashTable
    ensures Tables(hashTable, overflowTable, strs + [strs[prevIndex] + [c]])
    ensures hashTable[2 * slot] == Entry(c, prevIndex) && hashTable[2 * slot + 1] == currIndex
    ensures forall j :: 0 <= j < hashTable.Length && j != 2 * slot && j != 2 * slot + 1 ==> hashTable[j] == old(hashTable[j])
  {
    ghost var strs1 := strs + [strs[prevIndex] + [c]];
    forall s | 0 <= s < HashTableLength && KeyAt(hashTable, s) >= 0
      ensures Defines(strs1, KeyAt(hashTable, s), CodeAt(hashTable, s))
    {
      DefinesGrow(strs, strs[prevIndex] + [c], KeyAt(hashTable, s), CodeAt(hashTable, s));
    }
    ghost var before := hashTable[..];
    assert forall s :: 0 <= s < HashTableLength && before[2 * s] >= 0 ==> Defines(strs1, before[2 * s], before[2 * s + 1]) by {
      forall s | 0 <= s < HashTableLength && before[2 * s] >= 0
        ensures Defines(strs1, before[2 * s], before[2 * s + 1])
      {
        assert KeyAt(hashTable, s) == before[2 * s];
      }
    }
    var entry := Entry(c, prevIndex);
    assert entry / CodeLimit == c as nat && entry % CodeLimit == prevIndex;
    assert Defines(strs1, entry, currIndex);
    hashTable[2 * slot] := entry;
    hashTable[2 * slot + 1] := currIndex;
    forall s | 0 <= s < HashTableLength && s != slot && KeyAt(hashTable, s) >= 0
      ensures Defines(strs1, KeyAt(hashTable, s), CodeAt(hashTable, s))
    {
      assert before[2 * s] == KeyAt(hashTable, s) && before[2 * s + 1] == CodeAt(hashTable, s);
    }
  }

  /**
   * One pass of Encode's loop for pixel c: extend the current string if the table knows
   * prevIndex followed by c, and otherwise handle the miss. ok is false only when a probe would
   * never end.
   */
  method Step(w: Writer, hashTable: array<int>, overflowTable: array<int>, initBits: nat,
              maxOverflowCount: int, c: byte, prevIndex: nat, currIndex: nat, currBits: nat,
              overflow: nat, ghost codes: seq<Code>, ghost t: Trace)
    returns (ok: bool, prev1: nat, index1: nat, bits1: nat, overflow1: nat, ghost codes1: seq<Code>, ghost t1: Trace)
    requires Inv(w, hashTable, overflowTable, initBits, prevIndex, currIndex, currBits, codes, t)
    requires c as nat < Pow2(initBits)
    modifies w, w.stream, w.block, hashTable, overflowTable
    ensures ok ==> Inv(w, hashTable, overflowTable, initBits, prev1, index1, bits1, codes1, t1)
    ensures ok ==> t1.consumed == t.consumed + [c]
    ensures ok ==>
      codes1 == codes || codes1 == codes + [Code(prevIndex, currBits)]
      || codes1 == codes + [Code(prevIndex, currBits)] + [Code(Pow2(initBits), currBits)]
  {
    var entry := Entry(c, prevIndex);
    var hashCode := Hash(c, prevIndex);
    var probe, k := FindMain(hashTable, entry, hashCode);
    match probe {
      case Exhausted =>
        ok, prev1, index1, bits1, overflow1, codes1, t1 := false, prevIndex, currIndex, currBits, overflow, codes, t;
      case Found(slot) =>
        FoundCode(hashTable, overflowTable, t.strs, slot, c, prevIndex);
        ok, prev1, index1, bits1, overflow1, codes1 := true, hashTable[2 * slot + 1], currIndex, currBits, overflow, codes;
        t1 := Trace(t.strs, t.st, t.consumed + [c]);
        FoundAgrees(initBits, prevIndex, currIndex, currBits, codes, t, prev1, c);
      case Free(slot) =>
        ok, index1, bits1, overflow1, codes1, t1 :=
          Miss(w, hashTable, overflowTable, initBits, maxOverflowCount, c, prevIndex, currIndex, currBits,
               overflow, codes, t, slot);
        prev1 := c as nat;
    }
  }

  /**
   * prevIndex followed by c is not in the table, whose probe ended at a free slot: emit
   * prevIndex at the current width and continue from c. While codes are left, the free slot
   * gets the next code; otherwise the miss goes to the overflow table.
   */
  method Miss(w: Writer, hashTable: array<int>, overflowTable: array<int>, initBits: nat,
              maxOverflowCount: int, c: byte, prevIndex: nat, currIndex: nat, currBits: nat,
              overflow: nat, ghost codes: seq<Code>, ghost t: Trace, slot: nat)
    returns (ok: bool, index1: nat, bits1: nat, overflow1: nat, ghost codes1: seq<Code>, ghost t1: Trace)
    requires Inv(w, hashTable, overflowTable, initBits, prevIndex, currIndex, currBits, codes, t)
    requires c as nat < Pow2(initBits) && slot < HashTableLength
    modifies w, w.stream, w.block, hashTable, overflowTable
    ensures ok ==> Inv(w, hashTable, overflowTable, initBits, c as nat, index1, bits1, codes1, t1)
    ensures ok ==> t1.consumed == t.consumed + [c]
    ensures ok ==>
      codes1 == codes + [Code(prevIndex, currBits)]
      || codes1 == codes + [Code(prevIndex, currBits)] + [Code(Pow2(initBits), currBits)]
  {
    codes1 := Emit(w, prevIndex, currBits, initBits, codes);
    if currIndex < CodeLimit {
      AssignAgrees(initBits, prevIndex, currIndex, currBits, codes, t, c);
      bits1 := Grown(currIndex, currBits);
      Assign(hashTable, overflowTable, t.strs, slot, c, prevIndex, currIndex);
      t1 := Assigned(t, prevIndex, c);
      ok, index1, overflow1 := true, currIndex + 1, overflow;
      assert Emitted(w, codes1, initBits);
    } else {
      FullAgrees(initBits, prevIndex, currBits, codes, t, c);
      ghost var codes2 := codes1;
      ok, index1, bits1, overflow1, codes1, t1 :=
        Overflowed(w, hashTable, overflowTable, initBits, maxOverflowCount, c, prevIndex, currBits, overflow,
                   codes2, Kept(t, prevIndex, c));
    }
  }

  /**
   * All codes are assigned and prevIndex followed by c is new: a key already in the overflow
   * table changes nothing; a new one is counted while the count is below maxOverflowCount;
   * otherwise the encoder restarts.
   */
  method Overflowed(w: Writer, hashTable: array<int>, overflowTable: array<int>, initBits: nat,
                    maxOverflowCount: int, c: byte, prevIndex: nat, currBits: nat, overflow: nat,
                    ghost codes: seq<Code>, ghost t: Trace)
    returns (ok: bool, index1: nat, bits1: nat, overflow1: nat, ghost codes1: seq<Code>, ghost t1: Trace)
    requires Inv(w, hashTable, overflowTable, initBits, c as nat, CodeLimit, currBits, codes, t)
    requires c as nat < Pow2(initBits) && prevIndex < CodeLimit
    modifies w, w.stream, w.block, hashTable, overflowTable
    ensures ok ==> Inv(w, hashTable, overflowTable, initBits, c as nat, index1, bits1, codes1, t1)
    ensures ok ==> t1.consumed == t.consumed
    ensures ok ==> codes1 == codes || codes1 == codes + [Code(Pow2(initBits), currBits)]
  {
    var entry := Entry(c, prevIndex);
    var hashCode := Hash(c, c as nat);
    var probe, k := FindOverflow(overflowTable, entry, hashCode);
    ok, index1, bits1, overflow1, codes1, t1 := true, CodeLimit, currBits, overflow, codes, t;
    match probe {
      case Exhausted =>
        ok := false;
      case Found(_) =>
      case Free(slot) =>
        if overflow < maxOverflowCount {
          overflowTable[slot] := entry;
          overflow1 := overflow + 1;
        } else {
          index1, bits1, overflow1, codes1, t1 := Restart(w, hashTable, overflowTable, initBits, c, currBits, codes, t);
        }
    }
  }

  /**
   * CLEAR at the current width; both tables emptied; the next code, the width and the overflow
   * count back to their initial values.
   */
  method Restart(w: Writer, hashTable: array<int>, overflowTable: array<int>, initBits: nat,
                 c: byte, currBits: nat, ghost codes: seq<Code>, ghost t: Trace)
    returns (index1: nat, bits1: nat, overflow1: nat, ghost codes1: seq<Code>, ghost t1: Trace)
    requires Inv(w, hashTable, overflowTable, initBits, c as nat, CodeLimit, currBits, codes, t)
    requires c as nat < Pow2(initBits)
    modifies w, w.stream, w.block, hashTable, overflowTable
    ensures Inv(w, hashTable, overflowTable, initBits, c as nat, index1, bits1, codes1, t1)
    ensures t1 == Cleared(initBits, t)
    ensures codes1 == codes + [Code(Pow2(initBits), currBits)]
    ensures index1 == Pow2(initBits) + 2 && bits1 == initBits + 1 && overflow1 == 0
    ensures forall j :: 0 <= j < hashTable.Length ==> hashTable[j] == -1
    ensures forall j :: 0 <= j < overflowTable.Length ==> overflowTable[j] == -1
  {
    var clear := Pow2(initBits);
    RestartAgrees(initBits, currBits, codes, t, c);
    t1 := Cleared(initBits, t);
    ClearTables(hashTable, overflowTable, t1.strs);
    Pow2Le(initBits + 1, currBits);
    codes1 := Emit(w, clear, currBits, initBits, codes);
    index1, bits1, overflow1 := clear + 2, initBits + 1, 0;
  }

  /**
   * What a successful Encode leaves: the stream gains the data sub-blocks of `out`; the bits of
   * `out` are those of the codes followed by fewer than 8 zero bits; the codes start with CLEAR at
   * initBits + 1 bits, end with a code and then the end code at that code's width, and each
   * fits its width.
   */
  ghost predicate Encoded(before: seq<byte>, after: seq<byte>, initBits: nat, codes: seq<Code>, out: seq<byte>)
  {
    after == before + Framed(out)
    && |CodesBits(codes)| <= 8 * |out| < |CodesBits(codes)| + 8
    && BytesBits(out) == CodesBits(codes) + CodeBits(0, 8 * |out| - |CodesBits(codes)|)
    && |codes| >= 3 && codes[0] == Code(Pow2(initBits), initBits + 1)
    && codes[|codes| - 1].value == Pow2(initBits) + 1
    && forall i :: 0 <= i < |codes| ==> Fits(codes[i], initBits)
  }

  /**
   * LzwEncoder.Encode: checks its arguments before writing anything, then writes CLEAR, one code
   * for each longest known string of the data, with CLEAR again whenever the overflow count is
   * used up, then the last string's code, the end code and the closing sub-blocks; the reference
   * decoder reads those codes back to the data. Failed(ProbeLimit) stands for a probe that would
   * loop forever.
   */
  method Encode(stream: Stream?, data: seq<byte>, initBits: int, maxOverflowCount: int)
    returns (r: Outcome, ghost codes: seq<Code>, ghost out: seq<byte>)
    requires 2 <= initBits <= 8 ==> forall i :: 0 <= i < |data| ==> data[i] as nat < Pow2(initBits)
    modifies stream
    ensures (r == Failed(NullStream)) == (stream == null)
    ensures (r == Failed(EmptyData)) == (stream != null && |data| == 0)
    ensures (r == Failed(InitBitsOutOfRange)) == (stream != null && |data| > 0 && !(2 <= initBits <= 8))
    ensures (r == Failed(OverflowCountOutOfRange))
         == (stream != null && |data| > 0 && 2 <= initBits <= 8 && maxOverflowCount >= CodeLimit)
    ensures r.Failed? && r.error != ProbeLimit && stream != null ==> stream.data == old(stream.data)
    ensures r == Done ==> stream != null && 2 <= initBits <= 8 && Encoded(old(stream.data), stream.data, initBits, codes, out)
    ensures r == Done ==> codes[|codes| - 1].width == codes[|codes| - 2].width
    ensures r == Done ==> Decode(initBits, codes) == Some(data)
  {
    codes, out := [], [];
    if stream == null {
      return Failed(NullStream), codes, out;
    }
    if |data| == 0 {
      return Failed(EmptyData), codes, out;
    }
    if initBits < 2 || initBits > 8 {
      return Failed(InitBitsOutOfRange), codes, out;
    }
    if maxOverflowCount >= CodeLimit {
      return Failed(OverflowCountOutOfRange), codes, out;
    }
    var ok;
    ok, codes, out := EncodePixels(stream, data, initBits, maxOverflowCount);
    r := if ok then Done else Failed(ProbeLimit);
  }

  /**
   * The body of Encode once the arguments are checked. ok is false only when a probe would loop
   * forever.
   */
  method EncodePixels(stream: Stream, data: seq<byte>, initBits: nat, maxOverflowCount: int)
    returns (ok: bool, ghost codes: seq<Code>, ghost out: seq<byte>)
    requires 2 <= initBits <= 8 && |data| > 0 && forall i :: 0 <= i < |data| ==> data[i] as nat < Pow2(initBits)
    modifies stream
    ensures ok ==> Encoded(old(stream.data), stream.data, initBits, codes, out) && Decode(initBits, codes) == Some(data)
    ensures ok ==> codes[|codes| - 1].width == codes[|codes| - 2].width
  {
    out := [];
    var w, hashTable, overflowTable, prevIndex, currIndex, currBits;
    ghost var t;
    ok, w, hashTable, overflowTable, prevIndex, currIndex, currBits, codes, t := Consume(stream, data, initBits, maxOverflowCount);
    if ok {
      codes, out := Finish(w, hashTable, overflowTable, initBits, prevIndex, currIndex, currBits, codes, t);
    }
  }

  /**
   * Encode up to its last two codes: a writer on the stream holding CLEAR and the codes for every
   * pixel but the current string, unless a probe would loop forever.
   */
  method Consume(stream: Stream, data: seq<byte>, initBits: nat, maxOverflowCount: int)
    returns (ok: bool, w: Writer, hashTable: array<int>, overflowTable: array<int>,
             prevIndex: nat, currIndex: nat, currBits: nat, ghost codes: seq<Code>, ghost t: Trace)
    requires 2 <= initBits <= 8 && |data| > 0 && forall i :: 0 <= i < |data| ==> data[i] as nat < Pow2(initBits)
    modifies stream
    ensures fresh(w) && fresh(w.block) && w.stream == stream && w.start == old(stream.data)
    ensures ok ==> Inv(w, hashTable, overflowTable, initBits, prevIndex, currIndex, currBits, codes, t) && t.consumed == data
  {
    w, hashTable, overflowTable, codes, t := Begin(stream, initBits, data[0]);
    assert t.consumed == data[..1];
    ok, prevIndex, currIndex, currBits, codes, t :=
      Pixels(w, hashTable, overflowTable, initBits, maxOverflowCount, data, data[0] as nat, Pow2(initBits) + 2, initBits + 1, codes, t);
  }

  /**
   * Encode's loop over the pixels after the first, with no overflow counted yet: one Step for
   * each, and the whole data consumed unless a probe would loop forever.
   */
  method Pixels(w: Writer, hashTable: array<int>, overflowTable: array<int>, initBits: nat, maxOverflowCount: int,
                data: seq<byte>, prevIndex: nat, currIndex: nat, currBits: nat, ghost codes: seq<Code>, ghost t: Trace)
    returns (ok: bool, prev1: nat, index1: nat, bits1: nat, ghost codes1: seq<Code>, ghost t1: Trace)
    requires Inv(w, hashTable, overflowTable, initBits, prevIndex, currIndex, currBits, codes, t)
    requires |data| > 0 && t.consumed == data[..1] && forall i :: 0 <= i < |data| ==> data[i] as nat < Pow2(initBits)
    modifies w, w.stream, w.block, hashTable, overflowTable
    ensures ok ==> Inv(w, hashTable, overflowTable, initBits, prev1, index1, bits1, codes1, t1) && t1.consumed == data
  {
    ok, prev1, index1, bits1, codes1, t1 := true, prevIndex, currIndex, currBits, codes, t;
    var overflow: nat := 0;
    for i := 1 to |data|
      invariant Inv(w, hashTable, overflowTable, initBits, prev1, index1, bits1, codes1, t1)
      invariant t1.consumed == data[..i]
    {
      ok, prev1, index1, bits1, overflow, codes1, t1 :=
        Step(w, hashTable, overflowTable, initBits, maxOverflowCount, data[i], prev1, index1, bits1, overflow, codes1, t1);
      if !ok {
        return;
      }
      PrefixSnoc(data, i);
    }
    assert data[..|data|] == data;
  }

  lemma PrefixSnoc(data: seq<byte>, i: nat)
    requires i < |data|
    ensures data[..i + 1] == data[..i] + [data[i]]
  {
  }

  /**
   * The start of Encode: a writer on the stream, CLEAR written at initBits + 1 bits, both tables
   * emptied, the first pixel c the current string.
   */
  method Begin(stream: Stream, initBits: nat, c: byte)
    returns (w: Writer, hashTable: array<int>, overflowTable: array<int>, ghost codes: seq<Code>, ghost t: Trace)
    requires 2 <= initBits <= 8 && c as nat < Pow2(initBits)
    modifies stream
    ensures fresh(w) && fresh(w.block) && fresh(hashTable) && fresh(overflowTable)
    ensures w.stream == stream && w.start == old(stream.data)
    ensures Inv(w, hashTable, overflowTable, initBits, c as nat, Pow2(initBits) + 2, initBits + 1, codes, t)
    ensures codes == [Code(Pow2(initBits), initBits + 1)] && t.consumed == [c]
  {
    w, codes := Open(stream, initBits);
    hashTable := new int[2 * HashTableLength];
    overflowTable := new int[HashTableLength];
    BeginAgrees(initBits, c);
    t := Trace(Initial(initBits), State(Initial(initBits), -1, []), [c]);
    ClearTables(hashTable, overflowTable, t.strs);
  }

  /** A writer on the stream, with CLEAR written at initBits + 1 bits. */
  method Open(stream: Stream, initBits: nat) returns (w: Writer, ghost codes: seq<Code>)
    requires 2 <= initBits <= 8
    modifies stream
    ensures fresh(w) && fresh(w.block) && w.stream == stream && w.start == old(stream.data)
    ensures Emitted(w, codes, initBits) && codes == [Code(Pow2(initBits), initBits + 1)]
  {
    w := new Writer(stream);
    var clearToken := Pow2(initBits);
    var currBits := initBits + 1;
    WidthsInit(initBits);
    w.WriteInt(clearToken, currBits);
    CodesBitsSnoc([], Code(clearToken, currBits));
    codes := [Code(clearToken, currBits)];
  }

  /** Both tables emptied: no slot defines anything. */
  method ClearTables(hashTable: array<int>, overflowTable: array<int>, ghost strs: seq<seq<byte>>)
    requires hashTable.Length == 2 * HashTableLength && overflowTable.Length == HashTableLength
    requires hashTable != overflowTable
    modifies hashTable, overflowTable
    ensures Tables(hashTable, overflowTable, strs)
    ensures forall j :: 0 <= j < hashTable.Length ==> hashTable[j] == -1
    ensures forall j :: 0 <= j < overflowTable.Length ==> overflowTable[j] == -1
  {
    Clear(hashTable);
    Clear(overflowTable);
  }

  /**
   * The end of Encode: the last string's code, the end code, and Flush. The decoder reads the
   * codes back to every pixel consumed.
   */
  method Finish(w: Writer, hashTable: array<int>, overflowTable: array<int>, initBits: nat,
                prevIndex: nat, currIndex: nat, currBits: nat, ghost codes: seq<Code>, ghost t: Trace)
    returns (ghost codes1: seq<Code>, ghost out: seq<byte>)
    requires Inv(w, hashTable, overflowTable, initBits, prevIndex, currIndex, currBits, codes, t)
    modifies w, w.stream, w.block
    ensures Encoded(w.start, w.stream.data, initBits, codes1, out)
    ensures codes1 == codes + [Code(prevIndex, currBits)] + [Code(Pow2(initBits) + 1, currBits)]
    ensures Decode(initBits, codes1) == Some(t.consumed)
  {
    FinishDecodes(initBits, prevIndex, currIndex, currBits, codes, t);
    Pow2Le(initBits + 1, currBits);
    codes1, out := Conclude(w, initBits, prevIndex, currBits, currBits, codes);
  }

  /** The last string's code, the end code at endBits, and Flush. */
  method Conclude(w: Writer, initBits: nat, prevIndex: nat, currBits: nat, endBits: nat, ghost codes: seq<Code>)
    returns (ghost codes1: seq<Code>, ghost out: seq<byte>)
    requires Emitted(w, codes, initBits) && Fits(Code(prevIndex, currBits), initBits)
    requires Fits(Code(Pow2(initBits) + 1, endBits), initBits)
    modifies w, w.stream, w.block
    ensures Encoded(w.start, w.stream.data, initBits, codes1, out)
    ensures codes1 == codes + [Code(prevIndex, currBits)] + [Code(Pow2(initBits) + 1, endBits)]
  {
    codes1 := Emit(w, prevIndex, currBits, initBits, codes);
    codes1 := Emit(w, Pow2(initBits) + 1, endBits, initBits, codes1);
    out := Close(w, initBits, codes1);
  }

  /**
   * The end of Encode as a GIF decoder expects it: the last string's code at the current width,
   * then the width rule applied once more for the string a decoder of that code learns, then the
   * end code at that width, and Flush. The width-checking decoder reads the codes back to every
   * pixel consumed.
   */
  method FinishWidened(w: Writer, hashTable: array<int>, overflowTable: array<int>, initBits: nat,
                       prevIndex: nat, currIndex: nat, currBits: nat, ghost codes: seq<Code>, ghost t: Trace)
    returns (ghost codes1: seq<Code>, ghost out: seq<byte>)
    requires Inv(w, hashTable, overflowTable, initBits, prevIndex, currIndex, currBits, codes, t)
    modifies w, w.stream, w.block
    ensures Encoded(w.start, w.stream.data, initBits, codes1, out)
    ensures codes1 == codes + [Code(prevIndex, currBits)] + [Code(Pow2(initBits) + 1, EndBits(currIndex, currBits))]
    ensures DecodeChecked(initBits, codes1) == Some(t.consumed)
  {
    FinishDecodesChecked(initBits, prevIndex, currIndex, currBits, codes, t);
    var endBits := EndBits(currIndex, currBits);
    codes1, out := Conclude(w, initBits, prevIndex, currBits, endBits, codes);
  }

  /**
   * Encode's body with FinishWidened in place of Finish: the codes it writes are read back to the
   * data by the decoder that checks the width of every code, the end code included.
   */
  method EncodeWidened(stream: Stream, data: seq<byte>, initBits: nat, maxOverflowCount: int)
    returns (ok: bool, ghost codes: seq<Code>, ghost out: seq<byte>)
    requires 2 <= initBits <= 8 && |data| > 0 && forall i :: 0 <= i < |data| ==> data[i] as nat < Pow2(initBits)
    modifies stream
    ensures ok ==> Encoded(old(stream.data), stream.data, initBits, codes, out) && DecodeChecked(initBits, codes) == Some(data)
  {
    out := [];
    var w, hashTable, overflowTable, prevIndex, currIndex, currBits;
    ghost var t;
    ok, w, hashTable, overflowTable, prevIndex, currIndex, currBits, codes, t := Consume(stream, data, initBits, maxOverflowCount);
    if ok {
      codes, out := FinishWidened(w, hashTable, overflowTable, initBits, prevIndex, currIndex, currBits, codes, t);
    }
  }

  /** Flush after the end code: the stream gains the sub-blocks of everything written. */
  method Close(w: Writer, initBits: nat, ghost codes: seq<Code>) returns (ghost out: seq<byte>)
    requires Emitted(w, codes, initBits) && |codes| >= 3
    requires codes[|codes| - 1].value == Pow2(initBits) + 1
    modifies w, w.stream, w.block
    ensures Encoded(w.start, w.stream.data, initBits, codes, out)
  {
    ghost var bits := w.bits;
    assert bits == CodesBits(codes);
    out := w.Flush();
  }
}
