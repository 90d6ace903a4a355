# MD5Gif in Dafny

MD5Gif writes an animated GIF that shows 32 hexadecimal digits, and those digits are the GIF's own MD5 digest.

- **Screen.** The GIF first draws every digit as an "8": all seven strokes of 32 seven-segment digits.
- **Collision pairs.** For each of the 224 strokes, the program pads the stream to a 64-byte boundary. It then asks an external collision finder for two 128-byte blocks with the same MD5 chaining value. The program accepts a pair only when the two blocks, read as chains of GIF comment sub-blocks, leave their block at different offsets. It then writes "common data" behind the pair:
  - Through one block (the *hide* path), the decoder sees a small image that covers the stroke.
  - Through the other block (the *show* path), the decoder sees that image as comment text.
- **Nonce.** A tail comment holds a 64-bit nonce. The program searches for a nonce that makes the digest begin with the bytes 23 33 33 33.
- **Selector.** Once the digest is known, the selector copies the hide or show block of each pair into place, as the seven-segment table says for that digit. Swapping blocks that collide does not change the MD5 digest. So the picture shows the digest of the file that carries it.

The model has three parts:

- **The LZW coder of the GIF image data** (`LzwEncoder.cs`): the bit writer with its 255-byte sub-block buffer, and the variable-width LZW encoder with its open-addressing tables.
  - A reference GIF LZW decoder (Appendix F of the GIF89a specification) reads the codes back to exactly the pixels, each code in the width the encoder wrote it in (the end code aside, see Findings).
- **The MD5 block function** (`md5.cpp`): the auxiliary functions F, G, H and I, the rotation, the step macro and `transform_block`.
  - `LinesFollowSchedule` proves that each of its 64 lines updates the register, applies the auxiliary function, takes the message word and rotates by the shift that section 3.4 of RFC 1321 prescribes at that position. The 64 constants T[i] are the ones written in `md5.cpp`; no lemma checks them against the sine formula of the RFC.
- **The collision loop and the selector** (`Program.cs`):
  - the alignment pad and the path scan;
  - the filter, the hide/show choice and the common data;
  - `UpdateMD5IV`, the tail and the MD5 padding (sections 3.1 and 3.2 of RFC 1321);
  - the nonce loop, the selector and the two debug images;
  - the seven-segment table and the overlay positions.

The headline result is `Select.SelfDigest`. It assumes the collision pairs are laid into the stream and each pair really collides. Under those assumptions, running the selector with the hex text of the stream's own MD5 digest gives a stream with that same digest. In that stream, every stroke's window holds the hide or show block exactly as the seven-segment table lights that digit of the digest.

Modules and files:

- `bits.dfy` (Bits): bit strings of codes and bytes.
- `subblocks.dfy` (SubBlocks): GIF data sub-block framing.
- `writer.dfy` (GifWriter): the output stream and `LzwEncoder.Writer`.
- `decoder.dfy` (LzwDecoder): the reference GIF LZW decoder.
- `lzw.dfy` (Lzw): `LzwEncoder.Encode`, and the decoder kept in step with it.
- `md5.dfy` (Md5): `md5.cpp`.
- `digest.dfy` (Digest): MD5 of a byte stream, built on the block function.
- `digits.dfy` (Digits): the seven-segment table, the screen geometry and the hex text.
- `layout.dfy` (Layout): the byte layouts that `Program.cs` writes, and how a GIF decoder walks them.
- `weave.dfy` (Weave): the collision loop and the tail, as a class over the stream.
- `select.dfy` (Select): the selector, the debug images and the digest argument.

## Model

| member | source | states |
|---|---|---|
| GifWriter.Stream.WriteByte | MD5Gif/LzwEncoder.cs:23 | the stream grows by exactly the one byte |
| GifWriter.Stream.Write | MD5Gif/LzwEncoder.cs:24 | the stream grows by exactly the given bytes |
| GifWriter.Writer.constructor | MD5Gif/LzwEncoder.cs:60-66 | a fresh writer with an empty buffer holds no bits and has written nothing |
| GifWriter.Writer.WriteInt | MD5Gif/LzwEncoder.cs:17-28 | the bits written so far grow by exactly the value's `width` bits, least significant first; full bytes go to the 255-byte buffer, and the buffer goes out as a 255-length sub-block when full |
| GifWriter.Writer.EmitByte | MD5Gif/LzwEncoder.cs:21-26 | a buffer of 254 bytes plus the new byte is sent as the length byte 255 and those 255 bytes; otherwise the byte is only buffered |
| GifWriter.Writer.ShiftOut | MD5Gif/LzwEncoder.cs:20-21 | one pass of the drain loop moves the low 8 buffered bits into the byte buffer and keeps the bits-written invariant |
| GifWriter.Writer.Flush | MD5Gif/LzwEncoder.cs:30-39 | the stream ends with the sub-block framing of the payload `out`; `out` holds every bit written, padded with fewer than 8 zero bits |
| GifWriter.Writer.StorePartial | MD5Gif/LzwEncoder.cs:31-33 | a partial byte is stored zero-padded, so the buffered bytes hold all the bits with fewer than 8 padding bits |
| GifWriter.Writer.Counts | MD5Gif/LzwEncoder.cs:13-15 | the writer never holds 8 or more loose bits nor a full 255-byte buffer |
| Bits.ValueOfCodeBits | MD5Gif/LzwEncoder.cs:18 | the bits of a value below 2^w read back as the value |
| Bits.CodeBitsOfValue | MD5Gif/LzwEncoder.cs:18 | any bit string is the w-bit encoding of the value it denotes |
| Bits.Accumulate | MD5Gif/LzwEncoder.cs:18-19 | `buffer + (value << k)` encodes the buffered bits followed by the value's bits, and stays below 2^(k+w) |
| Bits.OrIsAdd | MD5Gif/LzwEncoder.cs:18 | the source's `\|` of the shifted value onto the buffer is addition, since the bits do not overlap |
| Bits.Drain | MD5Gif/LzwEncoder.cs:20-21 | the low byte (`(byte)Buffer`) and the rest after `>>= 8` together encode the same bits |
| Bits.ShiftByte | MD5Gif/LzwEncoder.cs:20-21 | writing the low byte out and shifting keeps the written bytes plus the buffered bits unchanged |
| Bits.PadByte | MD5Gif/LzwEncoder.cs:31-32 | the last partial byte is the buffered bits followed by zero bits |
| Bits.BytesBitsAppend | MD5Gif/LzwEncoder.cs:21 | the bits of concatenated bytes are the concatenated bits |
| SubBlocks.FramedShort | MD5Gif/LzwEncoder.cs:34-38 | a payload of at most 255 bytes is framed as its length, the bytes, and the terminator 0 (only 0 when empty) |
| SubBlocks.BlocksThenFramed | MD5Gif/LzwEncoder.cs:22-38 | full 255-byte sub-blocks followed by the framing of the rest are the framing of the whole payload |
| SubBlocks.Closing | MD5Gif/LzwEncoder.cs:34-38 | what Flush writes after the full sub-blocks completes the framing of the whole payload |
| SubBlocks.FramedIsWellFramed | MD5Gif/LzwEncoder.cs:22-38 | framed output is a well-formed sub-block chain ending in the terminator |
| SubBlocks.PayloadOfFramed | MD5Gif/LzwEncoder.cs:22-38 | a decoder reading the sub-block chain recovers exactly the payload |
| Lzw.Hash | MD5Gif/LzwEncoder.cs:84 | `(c << 4) ^ prevIndex` is a slot below 4096, inside the 5003-slot table |
| Lzw.EntryIsSum | MD5Gif/LzwEncoder.cs:83 | the bit-packed entry `(c << 12) \| prevIndex` is `c * 4096 + prevIndex` |
| Lzw.EntryDetermines | MD5Gif/LzwEncoder.cs:83 | two entries are equal if and only if their byte and prefix code are equal |
| Lzw.NextMain | MD5Gif/LzwEncoder.cs:90-95 | the main probe doubles the slot modulo 5003, and slot 0 goes to 5002 |
| Lzw.NextOverflow | MD5Gif/LzwEncoder.cs:110-111 | the overflow probe step stays inside the table |
| Lzw.FindMain | MD5Gif/LzwEncoder.cs:86-97 | the probe returns the first slot on the probe path that holds the entry (Found) or is empty (Free); every slot passed holds another entry; it reports Exhausted only after 5003 probes |
| Lzw.FindOverflow | MD5Gif/LzwEncoder.cs:106-113 | the same for the overflow table and its probe sequence |
| Lzw.Clear | MD5Gif/LzwEncoder.cs:77-78 | every slot of the table is -1 |
| Lzw.FoundCode | MD5Gif/LzwEncoder.cs:87-88 | the slot holding the key of prevIndex followed by c gives an assigned code, and that code stands for prevIndex's string followed by c |
| Lzw.WidthsInit | MD5Gif/LzwEncoder.cs:69-72 | the first free code (2^initBits + 2) fits the first code width initBits + 1 |
| Lzw.WidthsGrow | MD5Gif/LzwEncoder.cs:101-104 | growing the width when currIndex reaches 2^currBits keeps it the fewest bits (at least initBits + 1, at most 12) that hold every code assigned |
| Lzw.Assign | MD5Gif/LzwEncoder.cs:103-104 | the slot now maps the entry to currIndex, and no other slot changes |
| Lzw.Emit | MD5Gif/LzwEncoder.cs:98 | a code written with WriteInt is appended to the codes written so far |
| Lzw.Step | MD5Gif/LzwEncoder.cs:81-125 | one input byte either extends the current string (no code), or writes the current string's code, or writes it followed by CLEAR; the loop invariant, which includes a decoder of the codes so far in step with the encoder, is kept |
| Lzw.Miss | MD5Gif/LzwEncoder.cs:97-124 | on a new string the current code is written at the current width, and the byte starts the next string; the entry is then assigned, counted as overflow, or followed by CLEAR |
| Lzw.Overflowed | MD5Gif/LzwEncoder.cs:105-124 | with all 4096 codes used, a new entry is either already in the overflow table, or counted while the count is below maxOverflowCount, or it forces a CLEAR |
| Lzw.Restart | MD5Gif/LzwEncoder.cs:117-122 | CLEAR is written at the current width; both tables are emptied; the next code is 2^initBits + 2, the width initBits + 1 and the overflow count 0 |
| Lzw.Begin | MD5Gif/LzwEncoder.cs:59-79 | the first code written is CLEAR at initBits + 1 bits, and both tables are empty |
| Lzw.Finish | MD5Gif/LzwEncoder.cs:128-130 | the last string's code and then the end code go out at the current width, and then the framed bytes; the reference decoder reads the codes back to every pixel consumed |
| Lzw.EncodePixels | MD5Gif/LzwEncoder.cs:75-130 | once the arguments pass, either a probe would loop forever, or the stream gains the framed codes and the reference decoder reads them back to exactly the data |
| Lzw.Pixels | MD5Gif/LzwEncoder.cs:81-126 | the loop consumes every pixel after the first, keeping the invariant, unless a probe would loop forever |
| Lzw.Open | MD5Gif/LzwEncoder.cs:59-76 | a new writer on the stream holds exactly the code CLEAR at initBits + 1 bits |
| Lzw.ClearTables | MD5Gif/LzwEncoder.cs:77-78 | both tables are all -1, so no slot defines a string |
| Lzw.DictionaryLiteral | MD5Gif/LzwEncoder.cs:69-71 | in the encoder's dictionary a pixel value's code stands for that pixel alone, and CLEAR for no string |
| Lzw.EmitTracks | MD5Gif/LzwEncoder.cs:98 | a decoder reading the current string's code, written in the decoder's width, outputs every pixel consumed so far and then knows every string the encoder knows |
| Lzw.AssignTracks | MD5Gif/LzwEncoder.cs:99-104 | after prevIndex's string followed by c gets the next code, the decoder lags exactly that one entry, whose last pixel is c, the first pixel of the new current string |
| Lzw.FullTracks | MD5Gif/LzwEncoder.cs:99-105 | with all 4096 codes assigned, the encoder's and the decoder's dictionaries stay full and equal |
| Lzw.FoundTracks | MD5Gif/LzwEncoder.cs:87-88 | extending the current string to a code of the table keeps encoder and decoder in step, one pixel further on |
| Lzw.ClearTracks | MD5Gif/LzwEncoder.cs:117-122 | CLEAR, in the decoder's width, resets the decoder to the initial strings as it resets the encoder; the current string is the pixel alone |
| Lzw.BeginTracks | MD5Gif/LzwEncoder.cs:75-79 | the first CLEAR takes the decoder from no dictionary to the initial strings, and the first pixel is the current string |
| Lzw.InitialWidth | MD5Gif/LzwEncoder.cs:71-72 | right after CLEAR a decoder reads initBits + 1 bits, the encoder's first width |
| Lzw.GrownIsWidth | MD5Gif/LzwEncoder.cs:102 | the encoder widens its codes when it assigns currIndex exactly when a decoder holding currIndex strings widens what it reads |
| Lzw.FullWidth | MD5Gif/LzwEncoder.cs:101-105 | with all 4096 codes assigned, the encoder writes and the decoder reads 12 bits |
| Lzw.BeginAgrees | MD5Gif/LzwEncoder.cs:69-79 | after the first CLEAR, the width rule holds and a decoder of that one code is in step with the encoder |
| Lzw.FoundAgrees | MD5Gif/LzwEncoder.cs:87-88 | a found string writes nothing and keeps the decoder in step |
| Lzw.AssignAgrees | MD5Gif/LzwEncoder.cs:98-104 | writing the current code and assigning the next code keeps the decoder in step, at the grown width |
| Lzw.FullAgrees | MD5Gif/LzwEncoder.cs:98-105 | writing the current code with all codes assigned keeps the decoder in step, at 12 bits |
| Lzw.RestartAgrees | MD5Gif/LzwEncoder.cs:117-122 | writing CLEAR keeps the decoder in step, at the first code and width again |
| Lzw.FinishDecodes | MD5Gif/LzwEncoder.cs:128-129 | the last string's code and the end code make the decoder return exactly the pixels consumed |
| Lzw.EndWidth | MD5Gif/LzwEncoder.cs:128-129 | a decoder reads the end code one bit wider than it is written exactly when currIndex is 2^currBits and below 4096, and in the width it is written in otherwise |
| Lzw.EndRefused | MD5Gif/LzwEncoder.cs:128-129 | when currIndex is 2^currBits and below 4096, a decoder that checks the end code's width refuses the codes as the source writes them |
| Lzw.EndBitsFit | MD5Gif/LzwEncoder.cs:101-104 | the corrected end width is currBits + 1 exactly when currIndex is 2^currBits and below 4096, and the end code fits it |
| Lzw.FinishDecodesChecked | MD5Gif/LzwEncoder.cs:128-129 | with the end code written at the corrected width, the decoder that checks it returns exactly the pixels consumed |
| Lzw.Conclude | MD5Gif/LzwEncoder.cs:128-130 | writing the last string's code, the end code and the flush gives the framed bits of the codes plus those two |
| Lzw.FinishWidened | MD5Gif/LzwEncoder.cs:128-130 | the corrected ending: the end code goes out at the corrected width, and the checking decoder reads the codes back to the pixels consumed |
| Lzw.EncodeWidened | MD5Gif/LzwEncoder.cs:75-130 | the encoder with the corrected ending: unless a probe would loop forever, the stream gains the framed codes and the decoder that checks the end code's width reads them back to exactly the data |
| Lzw.Consume | MD5Gif/LzwEncoder.cs:75-126 | after CLEAR and every pixel, unless a probe would loop forever, the loop invariant holds with every pixel consumed |
| LzwDecoder.CheckedDecodes | MD5Gif/LzwEncoder.cs:128-129 | whatever the checking decoder accepts, the plain decoder reads the same way |
| LzwDecoder.DecodeLateEnd | MD5Gif/LzwEncoder.cs:128-129 | the codes the source writes for 0 0 0 0 at initBits 2 end with the end code in 3 bits where a GIF decoder reads 4: the plain decoder accepts them, the checking one refuses them, and accepts them with the end code in 4 bits |
| LzwDecoder.WidthFromIs | MD5Gif/LzwEncoder.cs:102 | the decoder's width is the fewest bits, from initBits + 1 up to 12, in which the number n of strings it holds fits (n < 2^b): one more bit as soon as the dictionary reaches a power of two, so the code about to be defined can be read |
| LzwDecoder.DecodeRepeat | MD5Gif/LzwEncoder.cs:81-129 | the codes written for the pixels 0 0 0 at initBits 2 (CLEAR, 0, then 6, which the decoder is just defining, then the end code) decode to 0 0 0 |
| LzwDecoder.DecodeUndefined | MD5Gif/LzwEncoder.cs:98-99 | right after CLEAR only a pixel value can come: a code not yet defined makes the decoder refuse the stream |
| Lzw.Close | MD5Gif/LzwEncoder.cs:130 | the stream ends with the sub-block framing of the code bits, padded with fewer than 8 zero bits |
| Lzw.Encode | MD5Gif/LzwEncoder.cs:53-132 | each argument exception is raised exactly under its condition and in the source's order (null stream, empty data, initBits outside 2..8, maxOverflowCount of 4096 or more), leaving the stream untouched; on success the stream grows by the framed bits of codes that start with CLEAR at initBits + 1 bits, each fit its width, and end with the end code in the width of the code before it; and the reference decoder reads those codes back to exactly the data |
| Md5.Exec | MD5/md5.cpp:11-13 | one invocation of R changes only the register the line names; the other three keep their values |
| Md5.Line | MD5/md5.cpp:22-88 | each of the 64 lines takes one of the 16 message words and a shift from 1 to 31 |
| Md5.Round1Line | MD5/md5.cpp:22-37 | the round 1 lines take a message word and a shift from 1 to 31 |
| Md5.Round2Line | MD5/md5.cpp:39-54 | the round 2 lines take a message word and a shift from 1 to 31 |
| Md5.Round3Line | MD5/md5.cpp:56-71 | the round 3 lines take a message word and a shift from 1 to 31 |
| Md5.Round4Line | MD5/md5.cpp:73-88 | the round 4 lines take a message word and a shift from 1 to 31 |
| Md5.Compress | MD5/md5.cpp:90-93 | the block function yields four words, the new chaining value |
| Md5.F | MD5/md5.cpp:5 | `(x & (y ^ z)) ^ z` is the F of RFC 1321, `(x & y) \| (~x & z)` |
| Md5.G | MD5/md5.cpp:6 | `(z & (x ^ y)) ^ y` is the G of RFC 1321, `(x & z) \| (y & ~z)` |
| Md5.RLRotates | MD5/md5.cpp:9 | bit i of `RL(x, n)` is bit (i - n) mod 32 of x: a left rotation |
| Md5.RLHigh | MD5/md5.cpp:9 | bits at n and above come from `x << n` |
| Md5.RLLow | MD5/md5.cpp:9 | bits below n come from `x >> (32 - n)` |
| Md5.LinesFollowSchedule | MD5/md5.cpp:22-88 | each of the 64 lines is the operation section 3.4 of RFC 1321 prescribes at its position: updated register, auxiliary function, message word and shift (the constants are the table's own) |
| Md5.ScheduleRound1 | MD5/md5.cpp:22-37 | lines 0-15 follow round 1: words j, shifts 7/12/17/22, F |
| Md5.ScheduleRound2 | MD5/md5.cpp:39-54 | lines 16-31 follow round 2: words (1 + 5j) mod 16 for j = i mod 16, shifts 5/9/14/20, G |
| Md5.ScheduleRound3 | MD5/md5.cpp:56-71 | lines 32-47 follow round 3: words (5 + 3j) mod 16, shifts 4/11/16/23, H |
| Md5.ScheduleRound4 | MD5/md5.cpp:73-88 | lines 48-63 follow round 4: words 7j mod 16, shifts 6/10/15/21, I |
| Md5.MsgIndex | MD5/md5.cpp:22-88 | the RFC message index of step i is a word of the block |
| Md5.Shift | MD5/md5.cpp:22-88 | the RFC shift of each step lies between 4 and 23 |
| Md5.RunIsRfcRun | MD5/md5.cpp:11-13 | running the source's 64 lines is running the RFC 1321 steps |
| Md5.CompressIsRfc | MD5/md5.cpp:16-93 | the block function adds the result of the 64 RFC steps to the chaining value word by word |
| Md5.TransformBlock | MD5/md5.cpp:16-93 | `IV` afterwards is the block function of the old `IV` and the 16 message words |
| Digest.ChainAppend | MD5Gif/Program.cs:255-257 | folding whole blocks in two goes is folding them in one |
| Digest.ChainBlock | MD5Gif/Program.cs:256 | one more block is one more call of the block function |
| Digest.LittleEndianRoundTrip | MD5Gif/Program.cs:317-318 | the k little-endian bytes of a value below 256^k read back as the value |
| Digest.PaddingLength | MD5Gif/Program.cs:372-377 | the MD5 padding (`Padding`: 0x80, zeros, the 64-bit bit count) makes the message a whole number of blocks, adds 9 to 72 bytes, and ends with the bit length modulo 2^64 |
| Digest.DigestOfLastBlock | MD5Gif/Program.cs:370-385 | when the last partial block has room for the padding, the MD5 state is one block function on the aligned prefix's chaining value and that block padded |
| Digits.Segments | MD5Gif/Program.cs:148-165 | each digit's row of the table has one flag per stroke, seven in all |
| Digits.StrokeBox | MD5Gif/Program.cs:191-199 | each stroke template is a non-empty rectangle inside the digit's 37 × 67 box (NumberWidth × NumberHeight) |
| Digits.OverlayOffset | MD5Gif/Program.cs:204-212 | the overlay square placed at `overlayInfos[s]` covers the whole of stroke s |
| Digits.DigitValue | MD5Gif/Program.cs:415-419 | an upper-case hex character gives a row of the table, 0 to 15 |
| Digits.HexString | MD5Gif/Program.cs:412 | the text has two characters per digest byte |
| Digits.SegmentsAreFlags | MD5Gif/Program.cs:148-165 | every stroke flag is 0 or 1, and only the digit 8 lights all seven strokes |
| Digits.ReadingOfSegments | MD5Gif/Program.cs:148-165 | reading the lit strokes back gives the digit |
| Digits.Distinct | MD5Gif/Program.cs:148-165 | no two of the sixteen digits light the same strokes |
| Digits.CodeOfDigit | MD5Gif/Program.cs:148-165 | the seven flags of a digit, read as a 7-bit code, identify it |
| Digits.OverlayLocation | MD5Gif/Program.cs:448-454 | the overlay position of each stroke fits the 16-bit left/top fields |
| Digits.OverlayHidesOneStroke | MD5Gif/Program.cs:448-454 | the overlay image lies on the screen, covers its own stroke, and misses every other stroke of every digit |
| Digits.OverlaysMissOtherStrokes | MD5Gif/Program.cs:204-212 | within one digit, the overlay at `overlayInfos[s]` covers stroke s and is apart from the other six |
| Digits.OverlayInCell | MD5Gif/Program.cs:448-454 | the overlay stays inside its digit's cell |
| Digits.CellOnScreen | MD5Gif/Program.cs:121-131 | each digit's cell fits the image size |
| Digits.CellsApart | MD5Gif/Program.cs:448-451 | two different digits' cells do not overlap |
| Digits.DigitValueOfHex | MD5Gif/Program.cs:415-419 | the selector's character-to-digit switch inverts the hex digit |
| Digits.DigitValueRange | MD5Gif/Program.cs:415-419 | an upper-case hex character gives a digit 0..15 whose hex digit is that character |
| Digits.HexStringDigits | MD5Gif/Program.cs:412 | character k of the "X2" text of a digest is an upper-case hex digit: the high nibble of byte k/2 for even k, the low nibble for odd k |
| Layout.PadAligns | MD5Gif/Program.cs:270-275 | the pad (`PadComment`, sized by `CommentSpace`) is a comment extension of 3 to 66 bytes that ends on a 64-byte boundary; its length byte points 19 bytes into the next block, and no shorter pad of at least 3 bytes would reach a boundary |
| Layout.PathEnd | MD5Gif/Program.cs:283-292 | a scan that leaves the block does so at offset 128 or beyond, and never before where it started |
| Layout.PathEndBounds | MD5Gif/Program.cs:282-292 | a scan from offset 19 that leaves the block does so at an offset from 128 to 383 |
| Layout.Choose | MD5Gif/Program.cs:293-324 | for path ends the filter `Accept` lets through (both at most 253, gap not negative, 1, 2 or 4), the shorter path is the hide path; the two paths are the pair in one order or the other; the gap between them can be bridged |
| Layout.Chosen | MD5Gif/Program.cs:282-298 | an accepted pair yields hide and show paths that leave their blocks between 128 and 253, with room for the overlay and a gap a comment can bridge |
| Layout.LocatedFields | MD5Gif/Program.cs:315-318 | the overlay copy carries the stroke's x and y in its little-endian left and top fields, and every other byte of the template unchanged |
| Layout.Bridge | MD5Gif/Program.cs:487-495 | the bridging comment is exactly as long as the gap if and only if the gap is one the filter accepts (not 1, 2 or 4) |
| Layout.CommonDataLength | MD5Gif/Program.cs:479-499 | the common data ends exactly where both paths reconverge if and only if the filter let the gap through |
| Layout.HidePath | MD5Gif/Program.cs:479-496 | through the hide block, a GIF decoder's sub-block walk stops at the hide path's end, then reads the overlay image, then the bridging comment up to the show path's end |
| Layout.ShowPath | MD5Gif/Program.cs:479-496 | through the show block, the same walk skips the overlay as comment data and stops at the show path's end |
| Layout.ChainThrough | MD5Gif/Program.cs:283-287 | the scan inside the block is the decoder's sub-block walk through it |
| Layout.CommonDataShape | MD5Gif/Program.cs:480-496 | the common data is filler up to the hide end, a zero, the overlay, then the bridge |
| Layout.TailBytes | MD5Gif/Program.cs:343-363 | the tail is a comment extension 21 fe with one sub-block of at least 8 zero bytes, its terminator, and the trailer 3b |
| Layout.TailLayout | MD5Gif/Program.cs:343-363 | after the tail (chosen by `TailSpace`, with the nonce at `NonceOffset`), the last block has room for the MD5 padding; the nonce's 8 bytes lie in that block's zero comment data, below the length field |
| Weave.Weaver.constructor | MD5Gif/Program.cs:244-246 | IV starts at the RFC 1321 initial value, lastAlignOffset at 0, and collisionCache empty |
| Weave.Weaver.WriteMySign | MD5Gif/Program.cs:473-477 | the stream grows by `length` bytes of the repeating sign text |
| Weave.Weaver.Pad | MD5Gif/Program.cs:270-275 | the pad comment is appended; the stream now ends on a 64-byte boundary |
| Weave.Weaver.UpdateMD5IV | MD5Gif/Program.cs:249-260 | IV is the MD5 chaining value of the stream up to its length rounded down to 64, and lastAlignOffset is that length |
| Weave.FoldOne | MD5Gif/Program.cs:256 | one call of the block function on the 64 bytes at offs moves the chaining value one block further |
| Weave.Load | MD5Gif/Program.cs:256 | the 16 message words are the block's bytes read four at a time, little-endian |
| Weave.FoldBlocks | MD5Gif/Program.cs:254-258 | the loop folds every whole block of the rest into IV and stops at the rest rounded down to 64 |
| Weave.Weaver.ScanPath | MD5Gif/Program.cs:282-292 | the scan returns where the sub-block chain from offset 19 leaves the block, or nothing when it meets a zero length byte |
| Weave.Weaver.WriteCommonData | MD5Gif/Program.cs:479-499 | the stream grows by the common data for the two path ends and the overlay, and collisionCache by the pair at its offset |
| Weave.Weaver.OnCollision | MD5Gif/Program.cs:282-326 | the callback accepts exactly the pairs the scan and filter let through; a rejected pair changes nothing; an accepted pair writes the first block and the common data for this stroke's overlay, and records the pair |
| Weave.Weaver.Search | MD5Gif/Program.cs:279-327 | the pairs are offered in order; the first accepted one is woven in, or nothing changes if none is accepted |
| Weave.Weaver.WeaveStroke | MD5Gif/Program.cs:270-327 | after one stroke's pass, the stream is padded, IV chains the padded stream, and the first accepted pair is woven |
| Weave.Weaver.WeaveAll | MD5Gif/Program.cs:264-329 | after the 32 × 7 strokes, collisionCache has 224 more entries, all laid in the stream holding one of their two blocks |
| Weave.Weaver.Tail | MD5Gif/Program.cs:343-365 | the tail comment and the trailer are appended; the nonce offset is 8 when fewer than 22 bytes were left in the block, and 3 past the block offset otherwise |
| Weave.CopyIV | MD5Gif/Program.cs:381-382 | finalIV is a new array holding IV's four words |
| Weave.LastBlock | MD5Gif/Program.cs:370-377 | lastBlock is the rest of the stream followed by the RFC 1321 padding for the stream's length |
| Weave.WriteAt | MD5Gif/Program.cs:384 | the nonce's bytes are written at the offset and nothing else changes |
| Weave.Probe | MD5Gif/Program.cs:382-388 | one attempt answers whether this nonce's block function gives the first word 0x33333323 |
| Weave.NonceLoop | MD5Gif/Program.cs:379-398 | the loop stops at the first nonce that hits, and every smaller nonce misses |
| Weave.SealTail | MD5Gif/Program.cs:367-393 | when a nonce below the bound hits, it is the first one and its 8 little-endian bytes are written at lastAlignOffset + nonceOffset; when none hits, the stream is unchanged |
| Weave.Weaver.Seal | MD5Gif/Program.cs:339-398 | the tail is written, and the first nonce below the bound that hits at block level is written into it; the weaver stays valid, so every collision entry is still laid and carries one of its blocks |
| Weave.SealKeeps | MD5Gif/Program.cs:384 | writing the nonce past every collision entry keeps IV, the alignment and every entry laid and carried |
| Weave.WeftPatch | MD5Gif/Program.cs:384 | overwriting bytes after lastAlignOffset and past every entry keeps the weave invariant |
| Weave.SealedOf | MD5Gif/Program.cs:379-393 | the source's one-block shortcut computes the MD5 of the whole stream: the nonce written makes the stream's digest begin with 23 33 33 33, and every smaller nonce does not |
| Weave.BlockHitsAreHits | MD5Gif/Program.cs:382-388 | a nonce hits at block level if and only if it hits for the MD5 of the whole patched stream |
| Weave.BlockMissesAreMisses | MD5Gif/Program.cs:379-388 | no nonce below n hits at block level if and only if none hits on the stream |
| Weave.NonceDigest | MD5Gif/Program.cs:382-393 | the stream's MD5 state with the nonce written is the block function on IV and the patched last block |
| Weave.WeftAdd | MD5Gif/Program.cs:312-324 | writing an accepted pair keeps IV, the alignment and every entry laid and carried |
| Weave.WeftAdvance | MD5Gif/Program.cs:249-260 | folding the blocks after lastAlignOffset moves it to the last boundary and keeps IV the chaining value |
| Select.Shows | MD5Gif/Program.cs:414-428 | entry i = 7 · numIndex + strokeIndex is set to show exactly when that stroke of digit numIndex is lit (one choice per entry) |
| Select.SelectPaths | MD5Gif/Program.cs:414-428 | the file afterwards is the old file with the chosen block of each of the first 7 entries per hex digit copied over its window, in order |
| Select.Place | MD5Gif/Program.cs:421-426 | one copy puts entry i's hide or show block over its window |
| Select.ShowsAt | MD5Gif/Program.cs:414-422 | the entry counter i walks the digits and strokes in order |
| Select.SelectedStroke | MD5Gif/Program.cs:420-426 | after the selector, entry i's window holds the hide block when the stroke is off and the show block when it is lit |
| Select.DigestText | MD5Gif/Program.cs:412 | the "X2" text of any digest is valid input for the selector |
| Select.DigestDrawn | MD5Gif/Program.cs:411-428 | with a digest's text selected, each stroke's window shows exactly when that nibble lights it |
| Select.OverlaidWindow | MD5Gif/Program.cs:421-426 | after any prefix of the selector, each window already copied holds its chosen block |
| Select.OverlaidOutside | MD5Gif/Program.cs:421-426 | bytes outside every window are untouched |
| Select.OverlaidCarries | MD5Gif/Program.cs:421-426 | each window still holds one of its pair's blocks |
| Select.CollideKept | MD5Gif/Program.cs:339-398 | bytes written after every window (the tail, the nonce) keep each pair colliding for the chaining value in front of it |
| Select.CollideAppend | MD5Gif/Program.cs:312-324 | an entry added at a block boundary, colliding for the chaining value of the stream before it, keeps the promise for the longer stream |
| Select.CollideWoven | MD5Gif/Program.cs:312-324 | weaving a pair that collides for the chaining value of the padded stream keeps the promise |
| Select.CollideStroked | MD5Gif/Program.cs:270-327 | one stroke's pass keeps the promise when every pair the callback would accept collides for the IV FindCollision was handed, the chaining value of the padded stream |
| Select.ByIsCollide | MD5/md5.cpp:16-93 | a collision of the block function folded over the stream is a collision of MD5 |
| Select.WovenAppends | MD5Gif/Program.cs:312-324 | a pass appends the first block and the common data, and records the pair, in one order or the other, at the old end of the stream |
| Select.FoldAppend | MD5Gif/Program.cs:255-257 | for any block function, folding whole blocks in two goes is folding them in one |
| Select.FoldIsChain | MD5/md5.cpp:16-93 | folding with the MD5 block function is the MD5 chaining |
| Select.PrefixFold | MD5Gif/Program.cs:414-428 | whenever each swapped window collides, the two streams have equal chaining values at every block boundary outside the windows |
| Select.SwappedFold | MD5Gif/Program.cs:414-428 | two streams that differ only by swapping colliding blocks fold to the same value once the same padding follows |
| Select.SwappedDigest | MD5Gif/Program.cs:414-428 | swapping colliding blocks in their windows leaves the MD5 digest unchanged |
| Select.OverlaidDigest | MD5Gif/Program.cs:414-428 | any choice of blocks copied by the selector leaves the MD5 digest unchanged |
| Select.SelfDigest | MD5Gif/Program.cs:409-428 | selecting with the text of the stream's own MD5 digest gives a stream with that same digest, in which each stroke's window is the hide block exactly when that digest's digit leaves the stroke off |
| Select.PaintAll | MD5Gif/Program.cs:432-440 | the debug images: every entry's show block (or hide block) copied over its window |
| Select.PaintedAll | MD5Gif/Program.cs:432-440 | after that, every window holds that block |

## Left out

- FindCollision (the external collision finder, its processes, files and timing) is not part of this model.
  - Its pairs are a parameter: a sequence of candidate pairs per stroke, offered in order.
  - That each accepted pair collides is the hypothesis `Collide` of the digest lemmas. `CollideStroked` derives it for one stroke's pass from FindCollision's promise about the IV it was handed, and `CollideKept` carries it past the tail and the nonce; the 224 passes of `WeaveAll` are not gathered into one lemma.
  - If no candidate is accepted, `WeaveAll` returns false.
- The image writer `WriteImage`, the GIF header, the drawing of the background eights (`DrawNumber8`) and the stroke templates are not modelled.
  - The overlay image is an opaque byte template; only its left/top fields (offsets 9 and 11) are modelled.
- Console output, the stopwatch, `File.WriteAllBytes` and `MD5.ComputeHash` are left out.
  - The library digest is modelled as `Md5State`, the digest of RFC 1321 built from the block function.
  - The file contents written are the model's sequences.
- `HashToString` (lower-case "x2") only names fastcoll's IV argument and is left out with FindCollision.
- The branch where `IsMake23333333MD5` is false (trailer only) is not modelled, because the constant is true.
- `Weave.Weaver.Seal` / `Weave.NonceLoop`: the source's loop over nonces has no bound. The model tries the nonces below a `limit` parameter, at most 2^64, and reports whether one hit.
- `Weave.Weaver.Seal` states its result at block level (`Stamped`). The step to the MD5 of the whole stream is the lemma `SealedOf`, not an ensures of the method.
- `Weave.Weaver.WeaveAll` promises only the entry count, `Valid()` and the per-stroke content of `WeaveStroke`. That the 224 entries are the first accepted pairs of each stroke is stated for one stroke, not gathered into one ensures.
- `Lzw.FindMain` / `Lzw.FindOverflow`: the probe loops of the source wait for a free slot. The model stops after 5003 probes with `Exhausted`, and `Encode` reports `ProbeLimit`, a case the source would loop forever on.
- `LzwDecoder.Decode` does not check the width of the end code, so that `Lzw.Encode`'s round trip is the source as written. The width the end code is written in is the finding below. `LzwDecoder.DecodeChecked` checks it, and `Lzw.EncodeWidened` is proved against that decoder.
- `Lzw.Encode`: the round trip is stated on the codes the writer holds; the reference decoder reads their values and widths. Reading the codes back out of the sub-block bits is a separate step (`PayloadOfFramed`, `ValueOfCodeBits`), not composed into one lemma.
- `GifWriter.Writer.WriteInt` requires `value < 2^width` and `width <= 24`. The source ORs an unmasked value into a 32-bit `int`, which only matters for values that do not fit. Every code the encoder writes fits these bounds.
- `Lzw.Encode` requires every pixel to be below 2^initBits (when initBits is in range). The source does not check its pixels; it writes a pixel as the code with that number (`LzwEncoder.cs` lines 79, 99 and 128). A pixel from 2^initBits up to 2^currBits - 1 thus goes out at the right width but as another code: CLEAR, the end code or a dictionary code (the data [4] at initBits 2 gives CLEAR, CLEAR, end code, and the pixel is lost). A pixel of 2^currBits or more does not fit its width, and `WriteInt` (line 18) ORs its high bits into the codes that follow. The only caller, `WriteImage` (MD5Gif/Program.cs:526), passes pixels 0 and 1 at initBits 2.
- `Lzw.Encode`: the default `maxOverflowCount = 4` (line 53), the value the only caller uses, is an explicit parameter of the model.
- `Select.SelectPaths` requires upper-case hex text and entries laid at disjoint offsets inside the file. Those are what `ComputeHash` with "X2" and the collision loop produce.
- `&7` in `GetOverlayImageLocation` is `% 8`, and `& ~63` in `UpdateMD5IV` is `n - n % 64`. Both agree for non-negative values.
- `Md5.TransformBlock` runs a loop over a table of the 64 lines, instead of the 64 straight-line macro expansions. The table is transcribed from lines 22-88 of `md5.cpp`, constants included. `Md5.LinesFollowSchedule` proves that register, auxiliary function, message word and shift follow the schedule of section 3.4 of RFC 1321. The constants T[i] are taken as written; no lemma checks them against 4294967296 · abs(sin(i)).
- `Md5.Step` (the macro R) carries no ensures of its own. Its rotation is the lemma `RLRotates`, and which register it updates is the contract of `Md5.Exec`.
- `Layout.CommonData` carries no ensures of its own. Its layout and length are the lemmas `CommonDataShape` and `CommonDataLength`.
- Md5.H, Md5.I and Md5.RL carry no ensures of their own. H and I are the RFC forms already. RL's rotation property is the lemma `RLRotates`.
- The digest argument is proved for an arbitrary block function folded over whole blocks. It is then instantiated with the MD5 block function (`FoldIsChain`).

## Findings

| source | as written | input that shows it | evidently intended | confidence | as-written member | corrected member |
|---|---|---|---|---|---|---|
| MD5Gif/LzwEncoder.cs:128-129 | After the last pixel, the last string's code and the end code are both written at currBits. The last code makes a decoder define one more string, so when currIndex is 2^currBits (below 4096) the decoder reads the end code one bit wider than it is written. In practice the effect is small: codes are packed least significant bit first and `Flush` pads with zero bits, so the wider read usually takes a zero pad bit as the top bit and still yields the end code (5 in the example below). A reader is left one bit short only when the code bits end exactly on a byte boundary. `LzwDecoder.DecodeChecked`, which refuses any end code not written at the decoder's width, is a modelling device that makes the mismatch visible, not a claim that GIF readers reject these files. | pixels 0 0 0 0 at initBits 2: the codes are CLEAR, 0, 6, 0 at 3 bits and the end code 5 at 3 bits; the decoder then holds 8 strings and reads 4 bits | widen currBits as the assignment at lines 101-104 would before writing the end code, so that it is written in the width a decoder reads | not executed | Lzw.EndRefused (with LzwDecoder.DecodeLateEnd) | Lzw.EncodeWidened (with Lzw.FinishWidened, Lzw.FinishDecodesChecked) |
