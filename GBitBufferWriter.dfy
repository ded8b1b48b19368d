/** The bit writer: bits accumulate most-significant first in a partial byte,
    and every completed byte goes to a growable byte writer. */
module GBitBufferWriter {
  import opened Binary
  import opened JsBits
  import opened BitStream
  import GMath
  import LittleEndian
  import GByteBufferWriter

  /** Placing the next `k` bits `bits` into a partial byte whose first `c`
      stream bits are pending and the rest clear: the pending bits grow by
      `bits` and the rest stays clear. */
  lemma AccumulateBits(byte: nat, c: nat, k: nat, bits: nat)
    requires c + k <= 8 && byte < 0x100 && bits < Pow2(k)
    requires ValueBits(byte, 8)[c..] == Zeros(8 - c)
    ensures Or(byte, ShiftLeft(bits, 8 - c - k)) < 0x100
    ensures ValueBits(Or(byte, ShiftLeft(bits, 8 - c - k)), 8)[c + k..] == Zeros(8 - c - k)
    ensures ValueBits(Or(byte, ShiftLeft(bits, 8 - c - k)), 8)[..c + k]
         == ValueBits(byte, 8)[..c] + ValueBits(bits, k)
  {
    ShiftedChunk(bits, k, 8 - c - k);
    PlaceInByte(byte, c, ValueBits(bits, k), ShiftLeft(bits, 8 - c - k), 8 - c - k);
  }

  /** `AccumulateBits` with the chunk already shifted into place as `y`. */
  lemma PlaceInByte(byte: nat, c: nat, chunk: seq<bool>, y: nat, offset: nat)
    requires c + |chunk| + offset == 8 && byte < 0x100
    requires ValueBits(byte, 8)[c..] == Zeros(8 - c)
    requires y < Pow2(|chunk| + offset) && ValueBits(y, |chunk| + offset) == chunk + Zeros(offset)
    ensures Or(byte, y) < 0x100
    ensures ValueBits(Or(byte, y), 8)[c + |chunk|..] == Zeros(offset)
    ensures ValueBits(Or(byte, y), 8)[..c + |chunk|] == ValueBits(byte, 8)[..c] + chunk
  {
    var prefix := ValueBits(byte, 8)[..c];
    assert ValueBits(byte, 8) == prefix + Zeros(|chunk| + offset);
    Pow2Constants();
    OrShifted(byte, prefix, chunk, y, offset, 8);
    var placed := ValueBits(Or(byte, y), 8);
    assert placed[..c + |chunk|] == prefix + chunk && placed[c + |chunk|..] == Zeros(offset);
  }

  /** Appending one byte to a byte sequence appends its eight bits to the stream. */
  lemma AppendByteBits(contents: seq<uint8>, byte: uint8)
    ensures BytesToBits(contents + [byte]) == BytesToBits(contents) + ValueBits(byte, 8)
  {
    assert (contents + [byte])[..|contents|] == contents;
  }

  /** A flushed partial byte adds its pending bits and the zero padding. */
  lemma FlushedBits(contents: seq<uint8>, byte: uint8, c: nat)
    requires c <= 8 && ValueBits(byte, 8)[c..] == Zeros(8 - c)
    ensures BytesToBits(contents + [byte])
         == (BytesToBits(contents) + ValueBits(byte, 8)[..c]) + Zeros(8 - c)
  {
    AppendByteBits(contents, byte);
    ghost var bs := ValueBits(byte, 8);
    assert bs == bs[..c] + bs[c..];
  }

  lemma EncodeSingle(byte: uint8)
    ensures LittleEndian.Encode(byte, 1) == [byte]
  {
  }

  /** One iteration of the write loop: the emitted prefix of the value's bits
      grows by the next chunk. */
  lemma EmitChunk(bs: seq<bool>, w: nat, k: nat, emitted: seq<bool>, chunk: seq<bool>)
    requires w + k <= |bs| && emitted == bs[..w] && chunk == bs[w..][..k]
    ensures emitted + chunk == bs[..w + k]
  {
  }

  /** The chunk `write` places next is the next slice of the value's bits. */
  lemma NextChunk(data: int, bitCount: nat, bitsWritten: nat, bitsLeft: nat, k: nat, start: seq<bool>)
    requires bitsWritten + bitsLeft == bitCount && k <= bitsLeft
    ensures start + ValueBits(data, bitCount)[..bitsWritten + k]
         == (start + ValueBits(data, bitCount)[..bitsWritten]) + ValueBits(data, bitsLeft)[..k]
  {
    var all := ValueBits(data, bitCount);
    ValueBitsSlices(data, bitCount, bitsWritten);
    EmitChunk(all, bitsWritten, k, all[..bitsWritten], all[bitsWritten..][..k]);
    ExtendStream(start, all[..bitsWritten], ValueBits(data, bitsLeft)[..k]);
  }

  /** Once every bit is written, the stream has the whole value appended. */
  lemma WholeValue(stream: seq<bool>, start: seq<bool>, bits: seq<bool>, k: nat)
    requires k == |bits| && stream == start + bits[..k]
    ensures stream == start + bits
  {
    assert bits[..k] == bits;
  }

  /** A partial byte with no pending bits is zero. */
  lemma EmptyByte(byte: nat)
    requires byte < 0x100 && ValueBits(byte, 8)[0..] == Zeros(8)
    ensures byte == 0
  {
    AlignedByte(byte, 0);
    assert Pow2(8 - 0) == 0x100 by {
      Pow2Constants();
    }
  }

  /** Bytes a writer holds once `bits` bits have been written: partial bytes count. */
  function ByteCount(bits: nat): (r: nat)
    ensures 8 * r >= bits && 8 * r < bits + 8
  {
    (bits + 7) / 8
  }

  lemma ByteCountOf(size: nat, c: nat)
    requires c < 8
    ensures ByteCount(8 * size + c) == size + (if c == 0 then 0 else 1)
  {
    var r := size + (if c == 0 then 0 else 1);
    DivModUnique(8 * size + c + 7, 8, r, 8 * size + c + 7 - 8 * r);
  }

  class BitBufferWriter {
    /** The byte writer receiving completed bytes. */
    const writer: GByteBufferWriter.ByteBufferWriter
    /** The partial byte; its first `currentBits` stream bits are the pending ones. */
    var currentByte: nat
    var currentBits: nat

    /** The state between and inside writes: at most a full byte pending,
        and the bits after the pending ones clear. */
    ghost predicate Accumulating()
      reads this, writer
    {
      writer.Valid() && currentBits <= 8 && currentByte < 0x100
      && ValueBits(currentByte, 8)[currentBits..] == Zeros(8 - currentBits)
    }

    /** The state between public calls: the partial byte is never full. */
    ghost predicate Valid()
      reads this, writer
    {
      Accumulating() && currentBits < 8
    }

    /** The pending bits of the partial byte. */
    ghost function Pending(): seq<bool>
      reads this
      requires currentBits <= 8
    {
      ValueBits(currentByte, 8)[..currentBits]
    }

    /** Every bit written so far, in order. */
    ghost function Stream(): seq<bool>
      reads this, writer, writer.bytes
      requires Accumulating()
    {
      BytesToBits(writer.Contents()) + Pending()
    }

    /** A writer whose stream is the bits of `seed` (or empty). */
    constructor (seed: Option<seq<uint8>> := None,
                 expansionRate: real := GByteBufferWriter.DEFAULT_EXPANSION_RATE)
      requires expansionRate > 1.0
      ensures Valid() && fresh(writer) && fresh(writer.bytes)
      ensures writer.expansionRate == expansionRate
      ensures writer.Contents() == (if seed.Some? then seed.value else [])
      ensures currentByte == 0 && currentBits == 0
      ensures Stream() == BytesToBits(if seed.Some? then seed.value else [])
    {
      writer := new GByteBufferWriter.ByteBufferWriter(seed, expansionRate);
      currentByte := 0;
      currentBits := 0;
      ValueBitsOfZero(8);
    }

    /** The byte writer's argument check, as it surfaces through this constructor. */
    static method Create(seed: Option<seq<uint8>> := None,
                         expansionRate: real := GByteBufferWriter.DEFAULT_EXPANSION_RATE)
      returns (r: Result<BitBufferWriter, GByteBufferWriter.Error>)
      ensures r.Err? <==> expansionRate <= 1.0
      ensures r.Err? ==> r.error == GByteBufferWriter.InvalidExpansionRate(expansionRate)
      ensures r.Ok? ==> fresh(r.value) && fresh(r.value.writer) && r.value.Valid()
      ensures r.Ok? ==> r.value.Stream() == BytesToBits(if seed.Some? then seed.value else [])
    {
      if expansionRate <= 1.0 {
        return Err(GByteBufferWriter.InvalidExpansionRate(expansionRate));
      }
      var w := new BitBufferWriter(seed, expansionRate);
      r := Ok(w);
    }

    /** Bytes written, counting a partial byte as one. */
    function Size(): (r: nat)
      reads this, writer, writer.bytes
      requires Valid()
      ensures r == ByteCount(|Stream()|)
    {
      ByteCountOf(writer.Size(), currentBits);
      writer.Size() + (if currentBits == 0 then 0 else 1)
    }

    /** Hands the partial byte, padded with zeros, to the byte writer. */
    method FlushByte()
      requires Accumulating()
      modifies this, writer, writer.bytes
      ensures Valid() && currentByte == 0 && currentBits == 0
      ensures writer.Contents() == old(writer.Contents()) + [old(currentByte)]
      ensures Stream() == old(Stream()) + Zeros(8 - old(currentBits))
      ensures writer.bytes == old(writer.bytes) || fresh(writer.bytes)
    {
      ghost var before := writer.Contents();
      var byte: uint8 := currentByte;
      FlushedBits(before, byte, currentBits);
      writer.WriteUInt8(byte);
      EncodeSingle(byte);
      currentByte := 0;
      currentBits := 0;
      ValueBitsOfZero(8);
    }

    /** The loop's update of the partial byte: `bits` shifted to just after the
        pending ones, `|`-ed in, and counted. */
    method PlaceBits(bits: nat, availableBitsInBuffer: nat, bitsToWrite: nat)
      requires Accumulating() && availableBitsInBuffer == 8 - currentBits
      requires bitsToWrite <= availableBitsInBuffer && bits < Pow2(bitsToWrite)
      modifies this
      ensures Accumulating() && currentBits == old(currentBits) + bitsToWrite
      ensures currentByte == Or(old(currentByte), ShiftLeft(bits, availableBitsInBuffer - bitsToWrite))
      ensures Pending() == old(Pending()) + ValueBits(bits, bitsToWrite)
      ensures Stream() == old(Stream()) + ValueBits(bits, bitsToWrite)
    {
      AccumulateBits(currentByte, currentBits, bitsToWrite, bits);
      var bitsInPosition := ShiftLeft(bits, availableBitsInBuffer - bitsToWrite);
      currentByte := Or(currentByte, bitsInPosition);
      currentBits := currentBits + bitsToWrite;
      ExtendStream(BytesToBits(writer.Contents()), old(Pending()), ValueBits(bits, bitsToWrite));
    }

    /** The start of `write`'s loop body: room in the partial byte, flushing it when full. */
    method MakeRoom() returns (availableBitsInBuffer: nat)
      requires Accumulating()
      modifies this, writer, writer.bytes
      ensures Valid() && availableBitsInBuffer == 8 - currentBits
      ensures writer.bytes == old(writer.bytes) || fresh(writer.bytes)
      ensures Stream() == old(Stream())
    {
      availableBitsInBuffer := 8 - currentBits;
      if availableBitsInBuffer == 0 {
        FlushByte();
        assert Zeros(0) == [];
        availableBitsInBuffer := 8;
      }
    }

    /** One iteration of `write`'s loop: a full partial byte is flushed, then
        the next at most `bitsLeft` bits of `data` are placed in it. */
    method WriteChunk(bitCount: nat, data: int, bitsWritten: nat, bitsLeft: nat)
      returns (bitsToWrite: nat)
      requires Accumulating() && bitCount <= 32 && bitsWritten + bitsLeft == bitCount && bitsLeft > 0
      modifies this, writer, writer.bytes
      ensures Accumulating() && (writer.bytes == old(writer.bytes) || fresh(writer.bytes))
      ensures 0 < bitsToWrite <= bitsLeft
      ensures Stream() == old(Stream()) + ValueBits(data, bitsLeft)[..bitsToWrite]
    {
      ghost var start := Stream();
      var availableBitsInBuffer := MakeRoom();
      bitsToWrite := GMath.Min(bitsLeft, availableBitsInBuffer);
      var bits := BitField(data, bitCount - bitsWritten - bitsToWrite, bitsToWrite);
      PlaceBits(bits, availableBitsInBuffer, bitsToWrite);
      AppendedEqual(Stream(), start, ValueBits(bits, bitsToWrite), ValueBits(data, bitsLeft)[..bitsToWrite]);
    }

    /** Appends the low `bitCount` bits of `data`, most-significant first. */
    method Write(bitCount: nat, data: int)
      requires Valid() && bitCount <= 32
      modifies this, writer, writer.bytes
      ensures writer.bytes == old(writer.bytes) || fresh(writer.bytes)
      ensures Valid() && Stream() == old(Stream()) + ValueBits(data, bitCount)
      ensures bitCount == 0 ==>
        currentByte == old(currentByte) && currentBits == old(currentBits)
        && writer.Contents() == old(writer.Contents())
    {
      ghost var start, contents, byte, bits := Stream(), writer.Contents(), currentByte, currentBits;
      var bitsWritten: nat := 0;
      var bitsLeft: nat := bitCount;
      while bitsLeft > 0
        invariant Accumulating() && bitsWritten + bitsLeft == bitCount
        invariant writer.bytes == old(writer.bytes) || fresh(writer.bytes)
        invariant Stream() == start + ValueBits(data, bitCount)[..bitsWritten]
        invariant bitsWritten == 0 ==>
          currentByte == byte && currentBits == bits && writer.Contents() == contents
        decreases bitsLeft
      {
        var bitsToWrite := WriteChunk(bitCount, data, bitsWritten, bitsLeft);
        NextChunk(data, bitCount, bitsWritten, bitsLeft, bitsToWrite, start);
        bitsWritten := bitsWritten + bitsToWrite;
        bitsLeft := bitsLeft - bitsToWrite;
      }
      WholeValue(Stream(), start, ValueBits(data, bitCount), bitsWritten);
      CompleteByte();
    }

    /** The end of `write`: a partial byte the loop filled is flushed. */
    method CompleteByte()
      requires Accumulating()
      modifies this, writer, writer.bytes
      ensures Valid() && Stream() == old(Stream())
      ensures writer.bytes == old(writer.bytes) || fresh(writer.bytes)
      ensures old(currentBits) < 8 ==>
        currentByte == old(currentByte) && currentBits == old(currentBits)
        && writer.Contents() == old(writer.Contents())
    {
      if currentBits >= 8 {
        FlushByte();
        assert Zeros(0) == [];
      }
    }

    /** `extractBytes`' first step: a partial byte is flushed, padded with zeros. */
    method FlushPartialByte()
      requires Valid()
      modifies this, writer, writer.bytes
      ensures Valid() && currentByte == 0 && currentBits == 0
      ensures writer.bytes == old(writer.bytes) || fresh(writer.bytes)
      ensures |writer.Contents()| == ByteCount(|old(Stream())|)
      ensures Stream() == old(Stream()) + Zeros(8 * ByteCount(|old(Stream())|) - |old(Stream())|)
    {
      ByteCountOf(writer.Size(), currentBits);
      if currentBits > 0 {
        FlushByte();
      } else {
        EmptyByte(currentByte);
        assert Zeros(0) == [];
      }
    }

    /** Flushes a partial byte, then trims and returns the bytes: the stream
        padded with zeros to a whole byte. Later writes start a new byte. */
    method ExtractBytes() returns (r: seq<uint8>)
      requires Valid()
      modifies this, writer, writer.bytes
      ensures Valid() && currentByte == 0 && currentBits == 0
      ensures |r| == ByteCount(|old(Stream())|)
      ensures BytesToBits(r) == old(Stream()) + Zeros(8 * |r| - |old(Stream())|)
      ensures r == writer.Contents() && Stream() == BytesToBits(r)
    {
      FlushPartialByte();
      ghost var flushed := Stream();
      assert Pending() == [];
      assert BytesToBits(writer.Contents()) == flushed;
      r := writer.ExtractBytes();
      assert BytesToBits(r) == flushed;
    }
  }
}
