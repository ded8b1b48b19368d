/** The little-endian layout `DataView` uses for `setUint16`/`getUint16` and
    their 8- and 32-bit siblings when called with `littleEndian = true`. */
module LittleEndian {
  import opened Binary

  /** The `width` bytes `DataView` stores for `value`, least significant first.
      Euclidean division makes this the layout of `value` modulo `2^(8 * width)`,
      which is the ToUint8/ToUint16/ToUint32 conversion `DataView` applies. */
  function Encode(value: int, width: nat): (bytes: seq<uint8>)
    ensures |bytes| == width
    decreases width
  {
    if width == 0 then [] else [value % 0x100] + Encode(value / 0x100, width - 1)
  }

  /** The unsigned value `DataView` reads from `bytes`, least significant first. */
  function Decode(bytes: seq<uint8>): (value: nat)
    ensures value < Pow2(8 * |bytes|)
  {
    if |bytes| == 0 then 0
    else
      var rest := Decode(bytes[1..]);
      Pow2Add(8, 8 * (|bytes| - 1));
      Pow2Constants();
      MulBelow(0x100, rest, Pow2(8 * (|bytes| - 1)));
      bytes[0] + 0x100 * rest
  }

  lemma DecodeSingle(bytes: seq<uint8>)
    requires |bytes| == 1
    ensures Decode(bytes) == bytes[0]
  {
    assert bytes[1..] == [];
  }

  lemma {:induction false} DecodeEncode(value: int, width: nat)
    ensures Decode(Encode(value, width)) == value % Pow2(8 * width)
    decreases width
  {
    if width > 0 {
      var bytes := Encode(value, width);
      assert bytes[1..] == Encode(value / 0x100, width - 1);
      DecodeEncode(value / 0x100, width - 1);
      Pow2Constants();
      Pow2Add(8, 8 * (width - 1));
      ModSplit(value, 0x100, Pow2(8 * (width - 1)));
    }
  }

  lemma {:induction false} EncodeDecode(bytes: seq<uint8>)
    ensures Encode(Decode(bytes), |bytes|) == bytes
  {
    if |bytes| > 0 {
      var v := Decode(bytes);
      var rest := Decode(bytes[1..]);
      MultipleMod(rest, 0x100, bytes[0]);
      assert v % 0x100 == bytes[0] && v / 0x100 == rest;
      EncodeDecode(bytes[1..]);
      assert bytes == [bytes[0]] + bytes[1..];
    }
  }
}
