/** The bit reader: bits come most-significant first out of the bytes of a
    byte reader, one loaded byte at a time. */
module GBitBufferReader {
  import opened Binary
  import opened JsBits
  import opened BitStream
  import GMath
  import GByteBufferReader

  /** Whether `_readBits` loads a byte first: before the first read, or once
      every bit of the loaded one is used. */
  predicate NeedsByte(usedBits: Option<nat>)
  {
    usedBits.None? || usedBits.value >= 8
  }

  /** The `k` bits a field read extracts from byte `i` after its first `u`
      bits are the stream's bits at `8i + u`. */
  lemma ByteChunk(bytes: seq<uint8>, i: nat, u: nat, k: nat, value: nat, pos: nat, w: nat)
    requires i < |bytes| && u + k <= 8 && pos == 8 * i + u && w == 8 - u
    requires ValueBits(value, k) == ValueBits(bytes[i], w)[..k]
    ensures pos + k <= |BytesToBits(bytes)|
    ensures ValueBits(value, k) == BytesToBits(bytes)[pos..pos + k]
  {
    var all, byte := BytesToBits(bytes), bytes[i];
    BytesToBitsAt(bytes, i);
    SubSlice(all, 8 * i, 8, u, k, pos);
    ValueBitsSlices(byte, 8, u);
    SameSlice(all[pos..pos + k], all[8 * i..8 * i + 8], ValueBits(byte, 8), u, k);
  }

  lemma SameSlice(chunk: seq<bool>, block: seq<bool>, bits: seq<bool>, u: nat, k: nat)
    requires u + k <= |block| && block == bits && chunk == block[u..][..k]
    ensures chunk == bits[u..][..k]
  {
  }

  lemma SubSlice<T>(s: seq<T>, lo: nat, w: nat, u: nat, k: nat, start: nat)
    requires lo + w <= |s| && u + k <= w && start == lo + u
    ensures start + k <= |s| && s[start..start + k] == s[lo..lo + w][u..][..k]
  {
  }

  lemma ChunkAt(bits: seq<bool>, pos: nat, k: nat, end: nat, value: nat)
    requires pos + k <= |bits| && end == pos + k && ValueBits(value, k) == bits[pos..pos + k]
    ensures ValueBits(value, k) == bits[pos..end]
  {
  }

  lemma ConsecutiveSlices(s: seq<bool>, a: nat, b: nat, c: nat)
    requires a <= b <= c <= |s|
    ensures s[a..b] + s[b..c] == s[a..c]
  {
  }

  class BitBufferReader {
    const reader: GByteBufferReader.ByteBufferReader
    /** The most recently loaded byte. */
    var currentByte: nat
    /** Bits of `currentByte` consumed; `None` before the first load. */
    var usedBits: Option<nat>

    ghost predicate Valid()
      reads this, reader
    {
      reader.Valid() &&
      match usedBits
      case None => reader.cursor == 0
      case Some(u) =>
        1 <= reader.cursor && u <= 8 && currentByte == reader.bytes[reader.cursor - 1]
    }

    /** Every bit the reader can hand out, in order. */
    ghost function Bits(): (bs: seq<bool>)
      ensures |bs| == 8 * |reader.bytes|
    {
      BytesToBits(reader.bytes)
    }

    /** A reader over `bytes`, with no byte loaded. */
    constructor (bytes: seq<uint8>)
      ensures Valid() && fresh(reader) && reader.bytes == bytes
      ensures Position() == 0 && usedBits.None?
    {
      reader := new GByteBufferReader.ByteBufferReader(bytes);
      currentByte := 0;
      usedBits := None;
    }

    /** The buffer size, in bytes. */
    function Size(): (r: nat)
      ensures r == |reader.bytes| && 8 * r == |Bits()|
    {
      reader.Size()
    }

    /** The count of bits read so far. */
    function Position(): (r: nat)
      reads this, reader
      requires Valid()
      ensures r <= 8 * Size()
      ensures usedBits.None? ==> r == 0
      ensures usedBits.Some? ==> r == 8 * (reader.cursor - 1) + usedBits.value
    {
      if usedBits.None? then 0 else reader.cursor * 8 - 8 + usedBits.value
    }

    /** Whether all bits have been read: the byte reader is at its end and the
        last byte is used up. A reader that never loaded a byte is not at its
        end, even over no bytes. */
    function IsAtEnd(): (r: bool)
      reads this, reader
      requires Valid()
      ensures r <==> usedBits.Some? && Position() == 8 * Size()
    {
      reader.IsAtEnd() && (if usedBits.Some? then usedBits.value else 0) >= 8
    }

    /** The first step of `_readBits`: a byte is loaded when none has been or
        the loaded one is used up; the position does not move. */
    method LoadByte()
      requires Valid() && Position() < 8 * Size()
      modifies this, reader
      ensures Valid() && usedBits.Some? && usedBits.value < 8
      ensures Position() == old(Position())
      ensures NeedsByte(old(usedBits)) ==>
        reader.cursor == old(reader.cursor) + 1 && usedBits == Some(0)
      ensures !NeedsByte(old(usedBits)) ==>
        reader.cursor == old(reader.cursor) && usedBits == old(usedBits)
        && currentByte == old(currentByte)
    {
      if usedBits.None? || usedBits.value >= 8 {
        currentByte := reader.ReadUInt8();
        usedBits := Some(0);
      }
    }

    /** The rest of `_readBits`, once a byte with unused bits is loaded: the
        next bits of it, at most `bitCount`, and how many they are. */
    method TakeBits(bitCount: nat) returns (bitsToRead: nat, value: nat)
      requires Valid() && bitCount > 0 && usedBits.Some? && usedBits.value < 8
      modifies this
      ensures Valid() && bitsToRead == GMath.Min(bitCount, 8 - old(usedBits).value)
      ensures Position() == old(Position()) + bitsToRead
      ensures value < Pow2(bitsToRead) && ValueBits(value, bitsToRead) == Bits()[old(Position())..Position()]
    {
      ghost var i, u, pos := reader.cursor - 1, usedBits.value, Position();
      var availableBits := 8 - usedBits.value;
      bitsToRead := GMath.Min(bitCount, availableBits);
      value := BitField(currentByte, availableBits - bitsToRead, bitsToRead);
      ghost var w := availableBits - bitsToRead + bitsToRead;
      assert currentByte == reader.bytes[i] && w == 8 - u;
      ByteChunk(reader.bytes, i, u, bitsToRead, value, pos, w);
      usedBits := Some(usedBits.value + bitsToRead);
      assert Valid() && Position() == pos + bitsToRead;
      ChunkAt(Bits(), pos, bitsToRead, Position(), value);
    }

    /** Reads at most `bitCount` bits, never beyond the loaded byte; returns
        how many it read and their value. */
    method ReadBits(bitCount: nat) returns (bitsRead: nat, value: nat)
      requires Valid() && bitCount > 0 && Position() < 8 * Size()
      modifies this, reader
      ensures Valid() && 0 < bitsRead <= bitCount
      ensures NeedsByte(old(usedBits)) ==>
        reader.cursor == old(reader.cursor) + 1 && bitsRead == GMath.Min(bitCount, 8)
      ensures !NeedsByte(old(usedBits)) ==>
        reader.cursor == old(reader.cursor) && bitsRead == GMath.Min(bitCount, 8 - old(usedBits).value)
      ensures Position() == old(Position()) + bitsRead
      ensures value < Pow2(bitsRead) && ValueBits(value, bitsRead) == Bits()[old(Position())..Position()]
    {
      LoadByte();
      bitsRead, value := TakeBits(bitCount);
    }

    /** One iteration of `read`'s loop: the next chunk, `|`-ed into `result`
        at its place among the low `bitCount` bits. */
    method ReadChunk(bitCount: nat, totalBitsRead: nat, result: nat, ghost start: nat)
      returns (bitsRead: nat, result': nat)
      requires Valid() && totalBitsRead < bitCount <= 32 && start + bitCount <= 8 * Size()
      requires Position() == start + totalBitsRead && result < Pow2(bitCount)
      requires ValueBits(result, bitCount) == Bits()[start..Position()] + Zeros(bitCount - totalBitsRead)
      modifies this, reader
      ensures Valid() && 0 < bitsRead <= bitCount - totalBitsRead
      ensures Position() == old(Position()) + bitsRead && result' < Pow2(bitCount)
      ensures ValueBits(result', bitCount)
           == Bits()[start..Position()] + Zeros(bitCount - totalBitsRead - bitsRead)
    {
      ghost var prefix := Bits()[start..Position()];
      var value;
      bitsRead, value := ReadBits(bitCount - totalBitsRead);
      var offset := bitCount - totalBitsRead - bitsRead;
      var bitsInPosition := ShiftLeft(value, offset);
      result' := Or(result, bitsInPosition);
      OrAppend(result, prefix, Bits()[old(Position())..Position()], value, offset, bitCount);
      ConsecutiveSlices(Bits(), start, old(Position()), Position());
    }

    /** The next `bitCount` bits of the stream as an unsigned number. */
    method Read(bitCount: nat) returns (r: nat)
      requires Valid() && bitCount <= 32 && Position() + bitCount <= 8 * Size()
      modifies this, reader
      ensures Valid() && Position() == old(Position()) + bitCount
      ensures r < Pow2(bitCount) && ValueBits(r, bitCount) == Bits()[old(Position())..Position()]
      ensures bitCount == 0 ==>
        currentByte == old(currentByte) && usedBits == old(usedBits)
        && reader.cursor == old(reader.cursor)
    {
      ghost var start := Position();
      var result: nat := 0;
      var totalBitsRead: nat := 0;
      assert ValueBits(result, bitCount) == Bits()[start..start] + Zeros(bitCount) by {
        ValueBitsOfZero(bitCount);
      }
      while totalBitsRead < bitCount
        invariant Valid() && totalBitsRead <= bitCount
        invariant Position() == start + totalBitsRead && result < Pow2(bitCount)
        invariant ValueBits(result, bitCount) == Bits()[start..Position()] + Zeros(bitCount - totalBitsRead)
        invariant totalBitsRead == 0 ==>
          currentByte == old(currentByte) && usedBits == old(usedBits)
          && reader.cursor == old(reader.cursor)
        decreases bitCount - totalBitsRead
      {
        var bitsRead;
        bitsRead, result := ReadChunk(bitCount, totalBitsRead, result, start);
        totalBitsRead := totalBitsRead + bitsRead;
      }
      assert result < TWO_TO_32 by {
        Pow2Constants();
        Pow2Monotone(bitCount, 32);
      }
      UnsignedShiftRightZero(result);
      r := UnsignedShiftRight(result, 0);
      assert Zeros(0) == [];
    }

    /** The byte reader's rendering of the contents. */
    method ToString() returns (s: string)
      ensures s == "[" + GByteBufferReader.HexDump(reader.bytes) + "]"
    {
      s := reader.ToString();
    }
  }
}
