/** Writers and readers together: what a bit writer's extracted bytes give back
    to a bit reader, and what a byte writer's give back to a byte reader. */
module RoundTrip {
  import opened Binary
  import opened BitStream
  import GBitBufferWriter
  import GBitBufferReader
  import GByteBufferWriter
  import GByteBufferReader
  import LittleEndian

  /** One `write(width, value)` call. */
  datatype Field = Field(width: nat, value: int)

  predicate Writable(fields: seq<Field>)
  {
    forall i :: 0 <= i < |fields| ==> fields[i].width <= 32
  }

  function TotalWidth(fields: seq<Field>): nat
  {
    if |fields| == 0 then 0 else TotalWidth(fields[..|fields| - 1]) + fields[|fields| - 1].width
  }

  /** The stream the fields form, each `width` low bits of `value`, most
      significant first. */
  function FieldBits(fields: seq<Field>): (bs: seq<bool>)
    ensures |bs| == TotalWidth(fields)
  {
    if |fields| == 0 then []
    else FieldBits(fields[..|fields| - 1]) + ValueBits(fields[|fields| - 1].value, fields[|fields| - 1].width)
  }

  lemma FieldBitsStep(fields: seq<Field>, i: nat)
    requires i < |fields|
    ensures FieldBits(fields[..i + 1]) == FieldBits(fields[..i]) + ValueBits(fields[i].value, fields[i].width)
    ensures TotalWidth(fields[..i + 1]) == TotalWidth(fields[..i]) + fields[i].width
  {
    assert fields[..i + 1][..i] == fields[..i];
  }

  /** A prefix of the fields forms a prefix of their stream. */
  lemma {:induction false} FieldBitsPrefix(fields: seq<Field>, i: nat)
    requires i <= |fields|
    ensures TotalWidth(fields[..i]) <= TotalWidth(fields)
    ensures FieldBits(fields)[..TotalWidth(fields[..i])] == FieldBits(fields[..i])
    decreases |fields| - i
  {
    if i == |fields| {
      assert fields[..i] == fields;
    } else {
      FieldBitsPrefix(fields, i + 1);
      FieldBitsStep(fields, i);
      var p := FieldBits(fields[..i + 1]);
      assert FieldBits(fields)[..TotalWidth(fields[..i])] == p[..TotalWidth(fields[..i])];
    }
  }

  /** Where field `i` sits in the stream. */
  lemma FieldAt(bits: seq<bool>, fields: seq<Field>, i: nat)
    requires i < |fields| && TotalWidth(fields) <= |bits| && bits[..TotalWidth(fields)] == FieldBits(fields)
    ensures TotalWidth(fields[..i]) + fields[i].width <= TotalWidth(fields)
    ensures bits[TotalWidth(fields[..i])..TotalWidth(fields[..i]) + fields[i].width]
      == ValueBits(fields[i].value, fields[i].width)
  {
    var total, lo := TotalWidth(fields), TotalWidth(fields[..i]);
    var hi := lo + fields[i].width;
    FieldSlice(fields, i);
    SliceWithin(bits, FieldBits(fields), total, lo, hi, ValueBits(fields[i].value, fields[i].width));
  }

  lemma SliceWithin<T>(s: seq<T>, prefix: seq<T>, n: nat, lo: nat, hi: nat, part: seq<T>)
    requires n <= |s| && s[..n] == prefix && lo <= hi <= n && prefix[lo..hi] == part
    ensures s[lo..hi] == part
  {
    SliceOfPrefix(s, n, lo, hi);
  }

  lemma FieldSlice(fields: seq<Field>, i: nat)
    requires i < |fields|
    ensures TotalWidth(fields[..i]) + fields[i].width <= TotalWidth(fields)
    ensures FieldBits(fields)[TotalWidth(fields[..i])..TotalWidth(fields[..i]) + fields[i].width]
      == ValueBits(fields[i].value, fields[i].width)
  {
    var prefix := fields[..i + 1];
    var before, field := FieldBits(fields[..i]), ValueBits(fields[i].value, fields[i].width);
    var lo, hi := |before|, |before| + |field|;
    FieldBitsStep(fields, i);
    assert FieldBits(prefix) == before + field && hi == TotalWidth(prefix);
    FieldBitsPrefix(fields, i + 1);
    calc {
      FieldBits(fields)[lo..hi];
      { SliceOfPrefix(FieldBits(fields), hi, lo, hi); }
      FieldBits(fields)[..hi][lo..hi];
      FieldBits(prefix)[lo..hi];
      (before + field)[lo..hi];
      { AppendedSlice(before, field); }
      field;
    }
  }

  lemma AppendedSlice<T>(x: seq<T>, y: seq<T>)
    ensures (x + y)[|x|..|x| + |y|] == y
  {
  }

  lemma SliceOfPrefix<T>(s: seq<T>, n: nat, lo: nat, hi: nat)
    requires lo <= hi <= n <= |s|
    ensures s[..n][lo..hi] == s[lo..hi]
  {
  }

  /** Bits read back name the written value, reduced to the field's width. */
  lemma ReadBack(value: int, width: nat, r: nat)
    requires r < Pow2(width) && ValueBits(r, width) == ValueBits(value, width)
    ensures r == value % Pow2(width)
  {
    var reduced := value % Pow2(width);
    ValueBitsMod(value, width);
    ValueBitsInjective(r, reduced, width);
    SmallMod(r, Pow2(width));
    SmallMod(reduced, Pow2(width));
  }

  /** `write(width, value)` for each field in turn. */
  method WriteAll(writer: GBitBufferWriter.BitBufferWriter, fields: seq<Field>)
    requires writer.Valid() && Writable(fields)
    modifies writer, writer.writer, writer.writer.bytes
    ensures writer.Valid() && (writer.writer.bytes == old(writer.writer.bytes) || fresh(writer.writer.bytes))
    ensures writer.Stream() == old(writer.Stream()) + FieldBits(fields)
  {
    ghost var start := writer.Stream();
    for i := 0 to |fields|
      invariant writer.Valid()
      invariant writer.writer.bytes == old(writer.writer.bytes) || fresh(writer.writer.bytes)
      invariant writer.Stream() == start + FieldBits(fields[..i])
    {
      writer.Write(fields[i].width, fields[i].value);
      FieldBitsStep(fields, i);
      ExtendStream(start, FieldBits(fields[..i]), ValueBits(fields[i].value, fields[i].width));
    }
    assert fields[..|fields|] == fields;
  }

  /** A fresh bit writer given each field in turn. */
  method NewWriterWith(fields: seq<Field>) returns (writer: GBitBufferWriter.BitBufferWriter)
    requires Writable(fields)
    ensures fresh(writer) && fresh(writer.writer) && fresh(writer.writer.bytes)
    ensures writer.Valid() && writer.Stream() == FieldBits(fields)
  {
    writer := new GBitBufferWriter.BitBufferWriter();
    assert writer.Stream() == [];
    WriteAll(writer, fields);
  }

  /** A fresh bit writer given each field in turn, then `extractBytes`: the
      bytes hold the stream, zero-padded to a whole byte. */
  method WriteFields(fields: seq<Field>) returns (bytes: seq<uint8>)
    requires Writable(fields)
    ensures |bytes| == GBitBufferWriter.ByteCount(TotalWidth(fields))
    ensures BytesToBits(bytes) == FieldBits(fields) + Zeros(8 * |bytes| - TotalWidth(fields))
  {
    var writer := NewWriterWith(fields);
    ghost var stream := writer.Stream();
    bytes := writer.ExtractBytes();
    PaddedFields(BytesToBits(bytes), stream, fields, 8 * |bytes|);
  }

  lemma PaddedFields(bits: seq<bool>, stream: seq<bool>, fields: seq<Field>, n: nat)
    requires stream == FieldBits(fields) && |stream| <= n && bits == stream + Zeros(n - |stream|)
    ensures bits == FieldBits(fields) + Zeros(n - TotalWidth(fields))
  {
  }

  /** On a byte-aligned writer, `write` of a whole number of bytes' worth of
      bits appends the low bytes of `data` most-significant first, and leaves the
      writer aligned. */
  method WriteAligned(writer: GBitBufferWriter.BitBufferWriter, bitCount: nat, data: int)
    requires writer.Valid() && writer.currentBits == 0 && bitCount <= 32 && bitCount % 8 == 0
    modifies writer, writer.writer, writer.writer.bytes
    ensures writer.writer.bytes == old(writer.writer.bytes) || fresh(writer.writer.bytes)
    ensures writer.Valid() && writer.currentBits == 0
    ensures writer.writer.Contents() == old(writer.writer.Contents()) + BigEndian(data, bitCount / 8)
  {
    ghost var before := writer.writer.Contents();
    assert writer.Stream() == BytesToBits(before);
    writer.Write(bitCount, data);
    AlignedBytes(before, writer.writer.Contents(), writer.Pending(), data, bitCount);
  }

  /** A stream of whole bytes followed by `n` more bits, `n` a multiple of 8,
      seen again as bytes plus fewer than 8 pending bits: nothing is pending and
      the new bytes are the big-endian bytes of the value. */
  lemma AlignedBytes(before: seq<uint8>, after: seq<uint8>, pending: seq<bool>, data: int, n: nat)
    requires n % 8 == 0 && |pending| < 8
    requires BytesToBits(after) + pending == BytesToBits(before) + ValueBits(data, n)
    ensures pending == [] && after == before + BigEndian(data, n / 8)
  {
    var k := n / 8;
    assert n == 8 * k;
    NoPartialByte(|after|, |pending|, |before| + k);
    var added := BigEndian(data, k);
    assert BytesToBits(after) == BytesToBits(before) + ValueBits(data, 8 * k);
    BigEndianBits(data, k);
    BytesToBitsAppend(before, added);
    assert BytesToBits(after) == BytesToBits(before + added);
    BytesToBitsInjective(after, before + added);
  }

  /** Fewer than 8 bits past a whole number of bytes, making a whole number of bytes, are none. */
  lemma NoPartialByte(bytes: int, bits: int, total: int)
    requires 0 <= bits < 8 && 8 * bytes + bits == 8 * total
    ensures bits == 0
  {
  }

  /** Extracting from an aligned writer returns its bytes unchanged. */
  lemma ExtractedAligned(r: seq<uint8>, contents: seq<uint8>)
    requires |r| == GBitBufferWriter.ByteCount(8 * |contents|)
    requires BytesToBits(r) == BytesToBits(contents) + Zeros(8 * |r| - 8 * |contents|)
    ensures r == contents
  {
    GBitBufferWriter.ByteCountOf(|contents|, 0);
    assert BytesToBits(r) == BytesToBits(contents);
    BytesToBitsInjective(r, contents);
  }

  /** `write(32, 0x01020304)` on a fresh bit writer extracts as 01 02 03 04,
      most-significant first, where the byte writer's `writeUInt32` stores
      04 03 02 01 (SkipThenReadUInt32).
      The inputs are parameters pinned by the precondition, so that the
      verifier unfolds the definitions on them step by step instead of
      evaluating them on literals eagerly. */
  method AlignedWriteExample(v: int) returns (bytes: seq<uint8>)
    requires v == 0x01020304
    ensures bytes == [0x01, 0x02, 0x03, 0x04]
  {
    var writer := new GBitBufferWriter.BitBufferWriter();
    WriteAligned(writer, 32, v);
    ghost var contents := writer.writer.Contents();
    assert contents == BigEndian(v, 4);
    assert writer.Stream() == BytesToBits(contents);
    bytes := writer.ExtractBytes();
    ExtractedAligned(bytes, contents);
    ExampleBigEndian(v);
  }

  lemma ExampleBigEndian(v: int)
    requires v == 0x01020304
    ensures BigEndian(v, 4) == [0x01, 0x02, 0x03, 0x04]
  {
    assert v / 0x100 == 0x01_0203 && v % 0x100 == 0x04;
    assert BigEndian(0x01, 1) == [0x01];
    assert BigEndian(0x0102, 2) == BigEndian(0x01, 1) + [0x02];
    assert BigEndian(0x01_0203, 3) == BigEndian(0x0102, 2) + [0x03];
    assert BigEndian(v, 4) == BigEndian(0x01_0203, 3) + [0x04];
  }

  /** A bit reader over `bytes`, reading each field's width in turn: every
      value comes back reduced to its width. */
  method ReadFields(bytes: seq<uint8>, fields: seq<Field>) returns (values: seq<nat>)
    requires Writable(fields) && TotalWidth(fields) <= 8 * |bytes|
    requires BytesToBits(bytes)[..TotalWidth(fields)] == FieldBits(fields)
    ensures |values| == |fields|
    ensures forall i :: 0 <= i < |fields| ==> values[i] == fields[i].value % Pow2(fields[i].width)
  {
    var reader := new GBitBufferReader.BitBufferReader(bytes);
    values := [];
    for i := 0 to |fields|
      invariant reader.Valid() && fresh(reader) && reader.reader.bytes == bytes
      invariant reader.Position() == TotalWidth(fields[..i])
      invariant |values| == i && ReadBackPrefix(values, fields, i)
    {
      var value := ReadField(reader, bytes, fields, i);
      ExtendReadBack(values, fields, value);
      values := values + [value];
    }
  }

  /** The first `n` values are the first `n` fields reduced to their widths. */
  ghost predicate ReadBackPrefix(values: seq<nat>, fields: seq<Field>, n: nat)
    requires n <= |values| && n <= |fields|
  {
    forall j :: 0 <= j < n ==> values[j] == fields[j].value % Pow2(fields[j].width)
  }

  lemma ExtendReadBack(values: seq<nat>, fields: seq<Field>, value: nat)
    requires |values| < |fields| && ReadBackPrefix(values, fields, |values|)
    requires value == fields[|values|].value % Pow2(fields[|values|].width)
    ensures ReadBackPrefix(values + [value], fields, |values| + 1)
  {
    var extended := values + [value];
    forall j | 0 <= j < |extended|
      ensures extended[j] == fields[j].value % Pow2(fields[j].width)
    {
      if j < |values| {
        assert extended[j] == values[j];
      }
    }
  }

  /** `read(width)` of field `i`, with the reader positioned at its start. */
  method ReadField(reader: GBitBufferReader.BitBufferReader, bytes: seq<uint8>, fields: seq<Field>, i: nat)
    returns (value: nat)
    requires i < |fields| && Writable(fields) && TotalWidth(fields) <= 8 * |bytes|
    requires BytesToBits(bytes)[..TotalWidth(fields)] == FieldBits(fields)
    requires reader.Valid() && reader.reader.bytes == bytes && reader.Position() == TotalWidth(fields[..i])
    modifies reader, reader.reader
    ensures reader.Valid() && reader.Position() == TotalWidth(fields[..i + 1])
    ensures value == fields[i].value % Pow2(fields[i].width)
  {
    var field := fields[i];
    FieldAt(BytesToBits(bytes), fields, i);
    FieldBitsStep(fields, i);
    value := reader.Read(field.width);
    ReadBack(field.value, field.width, value);
  }

  /** The whole trip: every field written comes back, reduced to its width,
      from `ceil(total / 8)` bytes. */
  method WriteThenRead(fields: seq<Field>) returns (bytes: seq<uint8>, values: seq<nat>)
    requires Writable(fields)
    ensures |bytes| == GBitBufferWriter.ByteCount(TotalWidth(fields))
    ensures |values| == |fields|
    ensures forall i :: 0 <= i < |fields| ==> values[i] == fields[i].value % Pow2(fields[i].width)
  {
    bytes := WriteFields(fields);
    assert BytesToBits(bytes)[..TotalWidth(fields)] == FieldBits(fields);
    values := ReadFields(bytes, fields);
  }

  /** Fields of different widths than the writes read back the same stream:
      `write(32, 0x01020304)` then `write(8, 0x05)`, read back as 8, 8, 7 and
      9 bits, gives 0x01, 0x02, 0x01 and 0x104.
      The inputs are parameters pinned by the precondition, so that the
      verifier unfolds the definitions on them step by step instead of
      evaluating them on literals eagerly. */
  method ReadExample(v: int, last: int) returns (values: seq<nat>)
    requires v == 0x01020304 && last == 0x05
    ensures |values| == 4
    ensures values[0] == 0x01 && values[1] == 0x02 && values[2] == 0x01 && values[3] == 0x104
  {
    var written := [Field(32, v), Field(8, last)];
    var read := [Field(8, 0x01), Field(8, 0x02), Field(7, 0x01), Field(9, 0x104)];
    var bytes := WriteFields(written);
    ExamplePrefix(BytesToBits(bytes), written, read, v, last);
    values := ReadFields(bytes, read);
    assert values[0] == read[0].value % Pow2(read[0].width);
    assert values[1] == read[1].value % Pow2(read[1].width);
    assert values[2] == read[2].value % Pow2(read[2].width);
    assert values[3] == read[3].value % Pow2(read[3].width);
    ExampleRemainders();
  }

  lemma ExampleRemainders()
    ensures 0x01 % Pow2(8) == 0x01 && 0x02 % Pow2(8) == 0x02 && 0x01 % Pow2(7) == 0x01 && 0x104 % Pow2(9) == 0x104
  {
    Pow2Constants();
    assert Pow2(7) == 128 && Pow2(9) == 512;
  }

  /** The first 32 bits of the written stream are the four fields read. */
  lemma ExamplePrefix(bits: seq<bool>, written: seq<Field>, read: seq<Field>, v: int, last: int)
    requires v == 0x01020304 && last == 0x05
    requires written == [Field(32, v), Field(8, last)]
    requires read == [Field(8, 0x01), Field(8, 0x02), Field(7, 0x01), Field(9, 0x104)]
    requires TotalWidth(written) <= |bits| && bits == FieldBits(written) + Zeros(|bits| - TotalWidth(written))
    ensures Writable(read) && TotalWidth(read) <= |bits| && bits[..TotalWidth(read)] == FieldBits(read)
  {
    FieldBitsPair(written[0], written[1]);
    FieldBitsFour(read[0], read[1], read[2], read[3]);
    ExampleBits(v, read[0].value, read[1].value, read[2].value, read[3].value);
    var head := ValueBits(v, 32);
    assert bits == head + (ValueBits(last, 8) + Zeros(|bits| - 40));
    assert bits[..32] == head;
  }

  lemma FieldBitsPair(a: Field, b: Field)
    ensures TotalWidth([a, b]) == a.width + b.width
    ensures FieldBits([a, b]) == ValueBits(a.value, a.width) + ValueBits(b.value, b.width)
  {
    assert [a, b][..1] == [a];
    assert [a][..0] == [];
    assert FieldBits([a]) == [] + ValueBits(a.value, a.width);
  }

  lemma FieldBitsFour(a: Field, b: Field, c: Field, d: Field)
    ensures TotalWidth([a, b, c, d]) == a.width + b.width + c.width + d.width
    ensures FieldBits([a, b, c, d]) == ValueBits(a.value, a.width) + ValueBits(b.value, b.width)
      + ValueBits(c.value, c.width) + ValueBits(d.value, d.width)
  {
    assert [a, b, c, d][..3] == [a, b, c];
    assert [a, b, c][..2] == [a, b];
    FieldBitsPair(a, b);
  }

  /** The 32 bits of 0x01020304 cut into 8, 8, 7 and 9. */
  lemma ExampleBits(v: int, a: int, b: int, c: int, d: int)
    requires v == 0x01020304 && a == 0x01 && b == 0x02 && c == 0x01 && d == 0x104
    ensures ValueBits(v, 32) == ValueBits(a, 8) + ValueBits(b, 8) + ValueBits(c, 7) + ValueBits(d, 9)
  {
    var mid, low := v / Pow2(16), v / Pow2(9);
    ExampleArithmetic(v, mid, low);
    calc {
      ValueBits(v, 32);
      { ValueBitsSplit(v, 8, 24); }
      ValueBits(a, 8) + ValueBits(v, 24);
      { ValueBitsSplit(v, 8, 16); ValueBitsMod(mid, 8); }
      ValueBits(a, 8) + (ValueBits(b, 8) + ValueBits(v, 16));
      { ValueBitsSplit(v, 7, 9); ValueBitsMod(low, 7); ValueBitsMod(v, 9); }
      ValueBits(a, 8) + (ValueBits(b, 8) + (ValueBits(c, 7) + ValueBits(d, 9)));
      { var a8, b8, c7, d9 := ValueBits(a, 8), ValueBits(b, 8), ValueBits(c, 7), ValueBits(d, 9);
        ExtendStream(a8, b8, c7 + d9);
        ExtendStream(a8 + b8, c7, d9); }
      ValueBits(a, 8) + ValueBits(b, 8) + ValueBits(c, 7) + ValueBits(d, 9);
    }
  }

  lemma ExampleArithmetic(v: int, mid: int, low: int)
    requires v == 0x01020304 && mid == v / Pow2(16) && low == v / Pow2(9)
    ensures v / Pow2(24) == 1 && mid % Pow2(8) == 2 && low % Pow2(7) == 1 && v % Pow2(9) == 0x104
  {
    Pow2Constants();
    assert Pow2(9) == 512 && Pow2(7) == 128;
    assert mid == 0x102 && low == 33025;
  }

  /** One `writeUInt8`, `writeUInt16` or `writeUInt32` call: `width` is 1, 2 or 4 bytes. */
  datatype Word = Word(width: nat, value: int)

  predicate Storable(words: seq<Word>)
  {
    forall i :: 0 <= i < |words| ==> words[i].width in {1, 2, 4}
  }

  /** The bytes the words occupy, each little-endian in turn. */
  function WordBytes(words: seq<Word>): seq<uint8>
  {
    if |words| == 0 then []
    else LittleEndian.Encode(words[0].value, words[0].width) + WordBytes(words[1..])
  }

  lemma {:induction false} WordBytesAppend(words: seq<Word>, w: Word)
    ensures WordBytes(words + [w]) == WordBytes(words) + LittleEndian.Encode(w.value, w.width)
  {
    if |words| == 0 {
      assert (words + [w])[1..] == [];
    } else {
      assert (words + [w])[1..] == words[1..] + [w];
      WordBytesAppend(words[1..], w);
    }
  }

  /** The writer call a word stands for. */
  method WriteWord(writer: GByteBufferWriter.ByteBufferWriter, w: Word)
    requires writer.Valid() && w.width in {1, 2, 4}
    modifies writer, writer.bytes
    ensures writer.Valid() && (writer.bytes == old(writer.bytes) || fresh(writer.bytes))
    ensures writer.Contents() == old(writer.Contents()) + LittleEndian.Encode(w.value, w.width)
  {
    if w.width == 1 {
      writer.WriteUInt8(w.value);
    } else if w.width == 2 {
      writer.WriteUInt16(w.value);
    } else {
      writer.WriteUInt32(w.value);
    }
  }

  /** A fresh byte writer given each word in turn, then `extractBytes`. */
  method WriteWords(words: seq<Word>) returns (bytes: seq<uint8>)
    requires Storable(words)
    ensures bytes == WordBytes(words)
  {
    var writer := new GByteBufferWriter.ByteBufferWriter();
    for i := 0 to |words|
      invariant writer.Valid() && fresh(writer) && fresh(writer.bytes)
      invariant writer.Contents() == WordBytes(words[..i])
    {
      WriteWord(writer, words[i]);
      assert words[..i + 1] == words[..i] + [words[i]];
      WordBytesAppend(words[..i], words[i]);
    }
    assert words[..|words|] == words;
    bytes := writer.ExtractBytes();
  }

  /** The reader call a word stands for. */
  method ReadWord(reader: GByteBufferReader.ByteBufferReader, w: Word) returns (value: nat)
    requires reader.Valid() && w.width in {1, 2, 4} && reader.cursor + w.width <= |reader.bytes|
    modifies reader
    ensures reader.Valid() && reader.cursor == old(reader.cursor) + w.width
    ensures value == LittleEndian.Decode(reader.bytes[old(reader.cursor)..old(reader.cursor) + w.width])
  {
    if w.width == 1 {
      value := reader.ReadUInt8();
    } else if w.width == 2 {
      value := reader.ReadUInt16();
    } else {
      value := reader.ReadUInt32();
    }
  }

  lemma SplitSuffix<T>(s: seq<T>, at: nat, a: seq<T>, b: seq<T>)
    requires at <= |s| && s[at..] == a + b
    ensures at + |a| <= |s| && s[at..at + |a|] == a && s[at + |a|..] == b
  {
    assert s[at..at + |a|] == s[at..][..|a|];
    assert s[at + |a|..] == s[at..][|a|..];
  }

  /** The read of word `i`, with the unread bytes starting at its encoding. */
  method ReadNextWord(reader: GByteBufferReader.ByteBufferReader, words: seq<Word>, i: nat)
    returns (value: nat)
    requires Storable(words) && i < |words|
    requires reader.Valid() && reader.bytes[reader.cursor..] == WordBytes(words[i..])
    modifies reader
    ensures reader.Valid() && reader.bytes[reader.cursor..] == WordBytes(words[i + 1..])
    ensures value == words[i].value % Pow2(8 * words[i].width)
  {
    var w := words[i];
    ghost var encoded := LittleEndian.Encode(w.value, w.width);
    assert words[i..][1..] == words[i + 1..];
    SplitSuffix(reader.bytes, reader.cursor, encoded, WordBytes(words[i + 1..]));
    value := ReadWord(reader, w);
    LittleEndian.DecodeEncode(w.value, w.width);
  }

  /** A byte reader over `bytes`, reading each word's width in turn: every
      value comes back reduced to its width. */
  method ReadWords(bytes: seq<uint8>, words: seq<Word>) returns (values: seq<nat>)
    requires Storable(words) && bytes == WordBytes(words)
    ensures |values| == |words|
    ensures forall i :: 0 <= i < |words| ==> values[i] == words[i].value % Pow2(8 * words[i].width)
  {
    var reader := new GByteBufferReader.ByteBufferReader(bytes);
    values := [];
    assert bytes[0..] == bytes && words[0..] == words;
    for i := 0 to |words|
      invariant reader.Valid() && fresh(reader) && reader.bytes == bytes
      invariant bytes[reader.cursor..] == WordBytes(words[i..])
      invariant |values| == i && WordsReadBack(values, words, i)
    {
      var value := ReadNextWord(reader, words, i);
      ExtendWordsReadBack(values, words, value);
      values := values + [value];
    }
  }

  /** The first `n` values are the first `n` words reduced to their widths. */
  ghost predicate WordsReadBack(values: seq<nat>, words: seq<Word>, n: nat)
    requires n <= |values| && n <= |words|
  {
    forall j :: 0 <= j < n ==> values[j] == words[j].value % Pow2(8 * words[j].width)
  }

  lemma ExtendWordsReadBack(values: seq<nat>, words: seq<Word>, value: nat)
    requires |values| < |words| && WordsReadBack(values, words, |values|)
    requires value == words[|values|].value % Pow2(8 * words[|values|].width)
    ensures WordsReadBack(values + [value], words, |values| + 1)
  {
    var extended := values + [value];
    forall j | 0 <= j < |extended|
      ensures extended[j] == words[j].value % Pow2(8 * words[j].width)
    {
      if j < |values| {
        assert extended[j] == values[j];
      }
    }
  }

  /** Reading a byte writer's extracted bytes with the same sequence of
      integer reads returns the written values, each modulo `2^(8 width)`. */
  method WriteThenReadWords(words: seq<Word>) returns (bytes: seq<uint8>, values: seq<nat>)
    requires Storable(words)
    ensures bytes == WordBytes(words)
    ensures |values| == |words|
    ensures forall i :: 0 <= i < |words| ==> values[i] == words[i].value % Pow2(8 * words[i].width)
  {
    bytes := WriteWords(words);
    values := ReadWords(bytes, words);
  }

  /** `writeUInt32(0x01020304)` then `writeUInt8(0x05)`: the bytes are 04 03 02 01 05,
      and skipping one byte then reading 32 bits gives 0x05010203.
      The inputs are parameters pinned by the precondition, so that the
      verifier unfolds the definitions on them step by step instead of
      evaluating them on literals eagerly. */
  method SkipThenReadUInt32(v: int, last: int) returns (skipped: nat, value: nat)
    requires v == 0x01020304 && last == 0x05
    ensures skipped == 0x04 && value == 0x05010203
  {
    var bytes := WriteWords([Word(4, v), Word(1, last)]);
    ExampleWordBytes([Word(4, v), Word(1, last)], v, last);
    var reader := new GByteBufferReader.ByteBufferReader(bytes);
    skipped := reader.ReadUInt8();
    value := reader.ReadUInt32();
    ExampleDecode(bytes);
  }

  lemma ExampleWordBytes(words: seq<Word>, v: int, last: int)
    requires v == 0x01020304 && last == 0x05 && words == [Word(4, v), Word(1, last)]
    ensures WordBytes(words) == [0x04, 0x03, 0x02, 0x01, 0x05]
  {
    var rest := words[1..];
    assert rest == [Word(1, last)] && rest[1..] == [];
    assert LittleEndian.Encode(v, 4) == [0x04, 0x03, 0x02, 0x01];
    assert LittleEndian.Encode(last, 1) == [0x05];
    assert WordBytes(rest) == LittleEndian.Encode(last, 1) + WordBytes(rest[1..]);
    assert WordBytes(words) == LittleEndian.Encode(v, 4) + WordBytes(rest);
  }

  lemma ExampleDecode(bytes: seq<uint8>)
    requires bytes == [0x04, 0x03, 0x02, 0x01, 0x05]
    ensures bytes[0] == 0x04 && LittleEndian.Decode(bytes[1..5]) == 0x05010203
  {
    var b0, b1, b2, b3 := bytes[1..5], bytes[2..5], bytes[3..5], bytes[4..5];
    assert b0 == [0x03, 0x02, 0x01, 0x05] && b1 == [0x02, 0x01, 0x05] && b2 == [0x01, 0x05] && b3 == [0x05];
    assert b0[1..] == b1 && b1[1..] == b2 && b2[1..] == b3 && b3[1..] == [];
    assert LittleEndian.Decode(b3) == 0x05;
    assert LittleEndian.Decode(b2) == 0x01 + 0x100 * 0x05;
    assert LittleEndian.Decode(b1) == 0x02 + 0x100 * 0x0501;
    assert LittleEndian.Decode(b0) == 0x03 + 0x100 * 0x050102;
  }
}
