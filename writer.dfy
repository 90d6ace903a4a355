/**
 * The Writer of MD5Gif/LzwEncoder.cs: a bit accumulator that packs codes least significant bit
 * first and emits the bytes as GIF data sub-blocks through a 255-byte block buffer.
 */
module GifWriter {
  import opened Bits
  import opened SubBlocks

  /** The output stream; WriteByte and Write append to its contents. */
  class Stream {
    var data: seq<byte>

    constructor (init: seq<byte>)
      ensures data == init
    {
      data := init;
    }

    method WriteByte(b: byte)
      modifies this
      ensures data == old(data) + [b]
    {
      data := data + [b];
    }

    method Write(bs: seq<byte>)
      modifies this
      ensures data == old(data) + bs
    {
      data := data + bs;
    }
  }

  class Writer {
    const stream: Stream
    /** Buffer255: the block being filled. */
    const block: array<byte>
    /** Buffer255Offset: how many bytes of the block are filled. */
    var fill: nat
    /** Buffer and BufferBits: the bits not yet forming a whole byte. */
    var buffer: nat
    var bufferBits: nat
    /** The stream's contents when the writer was made. */
    ghost const start: seq<byte>
    /** Every bit written so far, in order. */
    ghost var bits: seq<bool>
    /** The bytes already sent to the stream, in full blocks. */
    ghost var sent: seq<byte>

    /** Every whole byte formed so far: those sent, then those in the block. */
    ghost function Bytes(): seq<byte>
      reads `sent, `fill, block
      requires fill <= block.Length
    {
      sent + block[..fill]
    }

    /**
     * The writer holds the bits `goal`: fewer than 255 bytes in the block; the stream holds start
     * and then the sent bytes in full 255-byte blocks; the whole bytes and then the pending bits
     * are exactly `goal`.
     */
    ghost predicate Holds(goal: seq<bool>)
      reads this, stream, block
    {
      block.Length == 255 && fill < 255 && buffer < Pow2(bufferBits)
      && |sent| % 255 == 0 && stream.data == start + Blocks(sent)
      && goal == BytesBits(Bytes()) + CodeBits(buffer, bufferBits)
    }

    /** The state between calls: the writer holds every bit written, and fewer than 8 are pending. */
    ghost predicate Valid()
      reads this, stream, block
    {
      Holds(bits) && bufferBits < 8
    }

    constructor (s: Stream)
      ensures Valid() && stream == s && start == s.data && bits == []
      ensures fresh(block)
    {
      stream := s;
      block := new byte[255];
      fill := 0;
      buffer := 0;
      bufferBits := 0;
      start := s.data;
      bits := [];
      sent := [];
    }

    /**
     * Between calls fewer than 8 bits are pending, at most 254 bytes wait in the block, and the
     * bits written are the whole bytes formed and then the pending bits.
     */
    lemma Counts()
      requires Valid()
      ensures bufferBits <= 7 && fill <= 254
      ensures |bits| == 8 * |Bytes()| + bufferBits
    {
    }

    /**
     * WriteInt: appends the low `width` bits of value. Whenever the block is full, the byte 255
     * and the 255 block bytes go to the stream and the block starts again.
     */
    method WriteInt(value: nat, width: nat)
      requires Valid() && value < Pow2(width) && width <= 24
      modifies this, stream, block
      ensures Valid() && bits == old(bits) + CodeBits(value, width)
    {
      Accumulate(BytesBits(Bytes()), buffer, bufferBits, value, width);
      ghost var goal := bits + CodeBits(value, width);
      buffer := buffer + Shl(value, bufferBits);
      bufferBits := bufferBits + width;
      while bufferBits >= 8
        invariant Holds(goal)
        decreases bufferBits
      {
        ShiftOut(goal);
      }
      bits := goal;
    }

    /** One pass of WriteInt's loop: the low byte of the buffer goes to the block, the rest moves down. */
    method ShiftOut(ghost goal: seq<bool>)
      requires Holds(goal) && bufferBits >= 8
      modifies `fill, `sent, `buffer, `bufferBits, stream, block
      ensures Holds(goal) && bufferBits == old(bufferBits) - 8
    {
      var b := (buffer % 256) as byte;
      ShiftByte(Bytes(), buffer, bufferBits);
      EmitByte(b);
      buffer := buffer / 256;
      bufferBits := bufferBits - 8;
    }

    /** One whole byte into the block, and the block out to the stream once it holds 255 bytes. */
    method EmitByte(b: byte)
      requires block.Length == 255 && fill < 255
      requires |sent| % 255 == 0 && stream.data == start + Blocks(sent)
      modifies `fill, `sent, stream, block
      ensures fill < 255 && |sent| % 255 == 0 && stream.data == start + Blocks(sent)
      ensures Bytes() == old(Bytes()) + [b]
      ensures old(fill) < 254 ==> fill == old(fill) + 1 && stream.data == old(stream.data)
      ensures old(fill) == 254 ==>
        fill == 0 && stream.data == old(stream.data) + [255 as byte] + old(block[..254]) + [b]
    {
      block[fill] := b;
      assert block[..fill + 1] == old(block[..fill]) + [b];
      fill := fill + 1;
      if fill == 255 {
        var full := block[..255];
        stream.WriteByte(255);
        stream.Write(full);
        BlocksAppend(sent, full);
        sent := sent + full;
        fill := 0;
        assert block[..fill] == [];
      }
    }

    /**
     * Flush: stores the pending bits as one more byte if there are any, sends the block with its
     * length if it is not empty, and ends with a zero byte. The stream then holds start followed
     * by the whole bytes as well-formed sub-blocks, and those bytes hold every bit written,
     * padded with zeros to a whole byte.
     */
    method Flush() returns (ghost out: seq<byte>)
      requires Valid()
      modifies this, stream, block
      ensures stream.data == start + Framed(out)
      ensures |old(bits)| <= 8 * |out| < |old(bits)| + 8
      ensures BytesBits(out) == old(bits) + CodeBits(0, 8 * |out| - |old(bits)|)
    {
      StorePartial();
      out := Bytes();
      var rest := block[..fill];
      Closing(start, sent, rest);
      if fill > 0 {
        stream.WriteByte(fill as byte);
        stream.Write(rest);
      }
      stream.WriteByte(0);
    }

    /** Flush's first step: the pending bits, padded with zeros, become one more byte of the block. */
    method StorePartial()
      requires Valid()
      modifies `fill, `buffer, `bufferBits, block
      ensures fill <= 255 && |sent| % 255 == 0 && stream.data == start + Blocks(sent)
      ensures |old(bits)| <= 8 * |Bytes()| < |old(bits)| + 8
      ensures BytesBits(Bytes()) == old(bits) + CodeBits(0, 8 * |Bytes()| - |old(bits)|)
    {
      ghost var before := Bytes();
      if bufferBits > 0 {
        PadByte(before, buffer, bufferBits);
        var b := buffer as byte;
        block[fill] := b;
        assert block[..fill + 1] == old(block[..fill]) + [b];
        fill := fill + 1;
        assert Bytes() == before + [b];
      } else {
        assert CodeBits(buffer, bufferBits) == [];
      }
    }
  }
}
