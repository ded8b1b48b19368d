/** The little-endian byte reader: an immutable byte sequence and a cursor. */
module GByteBufferReader {
  import opened Binary
  import GUtils
  import JsBits
  import LittleEndian

  /** Two lowercase hex digits of a byte. */
  function HexByte(byte: uint8): (s: string)
    ensures |s| == 2
  {
    [GUtils.LOWER_HEX_DIGITS[byte / 16], GUtils.LOWER_HEX_DIGITS[byte % 16]]
  }

  function HexPieces(bytes: seq<uint8>): (pieces: seq<string>)
    ensures |pieces| == |bytes|
    ensures forall i :: 0 <= i < |bytes| ==> pieces[i] == HexByte(bytes[i])
  {
    seq(|bytes|, i requires 0 <= i < |bytes| => HexByte(bytes[i]))
  }

  /** The bytes as two-digit lowercase hex, separated by single spaces. */
  function HexDump(bytes: seq<uint8>): string
  {
    GUtils.Join(HexPieces(bytes), " ")
  }

  /** Each byte reads back from its two hex digits. */
  lemma HexByteRoundTrip(byte: uint8)
    ensures GUtils.ParseNumeral(HexByte(byte), 16) == byte
  {
    GUtils.Alphabets();
    GUtils.HexOfByte(byte);
    GUtils.RadixStringRoundTrip(byte, 2, GUtils.LOWER_HEX_DIGITS);
  }

  /** The dump of `n` bytes is `3n - 1` characters: byte `i` at `3i`, `3i + 1`,
      and a space after every byte but the last. */
  lemma {:induction false} HexDumpShape(bytes: seq<uint8>)
    ensures |HexDump(bytes)| == if |bytes| == 0 then 0 else 3 * |bytes| - 1
    ensures forall i :: 0 <= i < |bytes| ==> HexDump(bytes)[3 * i..3 * i + 2] == HexByte(bytes[i])
    ensures forall i :: 0 <= i < |bytes| - 1 ==> HexDump(bytes)[3 * i + 2] == ' '
  {
    if |bytes| >= 2 {
      var rest := bytes[1..];
      HexDumpShape(rest);
      assert HexPieces(bytes)[1..] == HexPieces(rest);
      var d, head, tail := HexDump(bytes), HexByte(bytes[0]), HexDump(rest);
      assert d == head + " " + tail;
      forall i | 1 <= i < |bytes|
        ensures d[3 * i..3 * i + 2] == HexByte(bytes[i])
      {
        assert d[3 * i..3 * i + 2] == tail[3 * (i - 1)..3 * (i - 1) + 2];
        assert rest[i - 1] == bytes[i];
      }
      forall i | 1 <= i < |bytes| - 1
        ensures d[3 * i + 2] == ' '
      {
        assert d[3 * i + 2] == tail[3 * (i - 1) + 2];
      }
    }
  }

  class ByteBufferReader {
    /** The data; a reader never changes it. */
    const bytes: seq<uint8>
    /** The reading position. */
    var cursor: nat

    ghost predicate Valid()
      reads this
    {
      cursor <= |bytes|
    }

    /** A reader over `bytes`, positioned at the start. */
    constructor (bytes: seq<uint8>)
      ensures Valid() && this.bytes == bytes && cursor == 0
    {
      this.bytes := bytes;
      cursor := 0;
    }

    function Size(): nat
    {
      |bytes|
    }

    /** Whether all data has been read. */
    function IsAtEnd(): (r: bool)
      reads this
      requires Valid()
      ensures r <==> cursor == |bytes|
    {
      cursor >= Size()
    }

    /** `DataView.getUintN(cursor, true)`, then `>>> 0`, advancing the cursor by `width`. */
    method ReadUInt(width: nat) returns (value: nat)
      requires Valid() && width <= 4 && cursor + width <= |bytes|
      modifies this
      ensures Valid() && cursor == old(cursor) + width
      ensures value == LittleEndian.Decode(bytes[old(cursor)..old(cursor) + width])
      ensures value < Pow2(8 * width)
    {
      var decoded := LittleEndian.Decode(bytes[cursor..cursor + width]);
      assert decoded < TWO_TO_32 by {
        Pow2Constants();
        Pow2Monotone(8 * width, 32);
      }
      cursor := cursor + width;
      value := JsBits.ToUint32(decoded);
    }

    method ReadUInt8() returns (value: nat)
      requires Valid() && cursor + 1 <= |bytes|
      modifies this
      ensures Valid() && cursor == old(cursor) + 1
      ensures value == LittleEndian.Decode(bytes[old(cursor)..old(cursor) + 1])
      ensures value == bytes[old(cursor)]
    {
      value := ReadUInt(1);
      assert LittleEndian.Decode(bytes[old(cursor)..old(cursor) + 1]) == bytes[old(cursor)] by {
        LittleEndian.DecodeSingle(bytes[old(cursor)..old(cursor) + 1]);
      }
    }

    method ReadUInt16() returns (value: nat)
      requires Valid() && cursor + 2 <= |bytes|
      modifies this
      ensures Valid() && cursor == old(cursor) + 2
      ensures value == LittleEndian.Decode(bytes[old(cursor)..old(cursor) + 2])
      ensures value < 0x1_0000
    {
      Pow2Constants();
      value := ReadUInt(2);
    }

    method ReadUInt32() returns (value: nat)
      requires Valid() && cursor + 4 <= |bytes|
      modifies this
      ensures Valid() && cursor == old(cursor) + 4
      ensures value == LittleEndian.Decode(bytes[old(cursor)..old(cursor) + 4])
      ensures value < TWO_TO_32
    {
      Pow2Constants();
      value := ReadUInt(4);
    }

    /** The next `count` bytes, advancing the cursor past them. */
    method ReadBytes(count: nat) returns (value: seq<uint8>)
      requires Valid() && cursor + count <= |bytes|
      modifies this
      ensures Valid() && cursor == old(cursor) + count
      ensures value == bytes[old(cursor)..old(cursor) + count]
    {
      value := bytes[cursor..cursor + count];
      cursor := cursor + count;
    }

    /** `[`, every byte as two lowercase hex digits separated by spaces, `]`. */
    method ToString() returns (s: string)
      ensures s == "[" + HexDump(bytes) + "]"
    {
      var size := Size();
      var str := "";
      for i := 0 to size
        invariant str == GUtils.Join(HexPieces(bytes[..i]), " ")
        invariant i == 0 <==> |str| == 0
      {
        if |str| != 0 {
          str := str + " ";
        }
        var hex := GUtils.NumberToHexString(bytes[i], 2);
        GUtils.HexOfByte(bytes[i]);
        assert HexPieces(bytes[..i + 1]) == HexPieces(bytes[..i]) + [HexByte(bytes[i])];
        GUtils.JoinAppend(HexPieces(bytes[..i]), HexByte(bytes[i]), " ");
        str := str + hex;
      }
      assert bytes[..size] == bytes;
      s := "[" + str + "]";
    }
  }
}
