# Binary codec of the GlitchyByte TypeScript library, in Dafny

This project models the library's binary codec layer and the small helpers it relies on:

- **Growable byte writer, `GByteBufferWriter`.**
  - It holds a size and a backing store whose length is the capacity.
  - Every write first makes room: when needed, the store grows to `max(required, ceil(capacity × rate))`.
  - It then stores an unsigned 8-, 16- or 32-bit value little-endian at offset `size`, or appends a copy of a byte run.
  - `extractBytes` trims the store to the bytes written.
- **Byte reader, `GByteBufferReader`.** It holds read-only bytes and a cursor. Each read decodes little-endian at the cursor and advances it. `toString` renders the bytes as hex.
- **Bit writer, `GBitBufferWriter`.**
  - It owns a byte writer and a partial byte (`currentByte`, `currentBits`).
  - `write(n, data)` packs the low `n` bits of `data`, most significant first, and hands each completed byte on.
  - `extractBytes` zero-pads and flushes a partial byte.
- **Bit reader, `GBitBufferReader`.** It owns a byte reader and a bit cursor (`currentByte`, `usedBits`). `usedBits` is absent before the first read. `read(n)` reassembles the next `n` bits.
- **Helpers:**
  - from `gutils.ts`: `numberToHexString`, `numberToBinaryString` and `separatedString`;
  - from `GMath.ts`: `min`, `max` and `clamp`;
  - from `timeDuration.ts`, restricted to whole milliseconds and integer numerals: the unit constants, duration specs, unit conversion, and rendering.

The classes keep the source's own form:

- Classes with mutable fields, `modifies` clauses and loops with invariants.
- The byte writer's store is an `array<uint8>`.
- The bit writer and bit reader are specified against a ghost bitstream:
  - the writer's stream is the bits of the flushed bytes followed by the pending bits of the partial byte;
  - the reader's stream is the bits of its bytes, and `Position()` is an index into it.
- JavaScript's 32-bit operators (`<<`, `>>>`, `&`, `|`) are functions on unsigned 32-bit patterns (module `JsBits`).
- Module `BitStream` gives the bit view of numbers and bytes: `ValueBits`, `Pack` and `BytesToBits`.
- Module `RoundTrip` composes writers and readers. This gives the codec's round-trip theorems:
  - every `write(n_i, v_i)` is read back by `read(n_i)` as `v_i mod 2^n_i`;
  - every `writeUInt8/16/32` is read back by the matching `readUInt8/16/32`;
  - on a byte-aligned bit writer, `write` of a whole number of bytes appends them big-endian (`BigEndian`), where the byte writer stores little-endian.

External effects are not modelled:

- No I/O, clock or randomness is involved in the modelled core.
- `ArrayBuffer.transferToFixedLength` is modelled as a copy into fresh storage (`GByteBufferWriter.TransferToFixedLength`).
- `DataView` is modelled as the little-endian codec `LittleEndian.Encode`/`Decode`.

## Model

| member | source | states |
|---|---|---|
| GMath.Min | src/lib/GMath.ts:18-20 | the result is at most both arguments and is one of them |
| GMath.Max | src/lib/GMath.ts:31-33 | the result is at least both arguments and is one of them |
| GMath.Clamp | src/lib/GMath.ts:124-132 | on `low <= high` the result lies in `[low, high]`; an in-range value is returned unchanged; the result is always `value`, `low` or `high` |
| GMath.ClampByMinMax | src/lib/GMath.ts:124-132 | on a well-formed range clamp equals `max(low, min(value, high))` and is idempotent |
| LittleEndian.DecodeEncode | src/lib/GByteBufferReader.ts:51-73 | decoding the `width` little-endian bytes `DataView` stores for a value gives the value modulo `2^(8·width)` |
| LittleEndian.EncodeDecode | src/lib/GByteBufferWriter.ts:82-108 | re-encoding a decoded byte run of length `w` to `w` bytes gives the same bytes, so the encoding is a bijection on each width |
| GByteBufferWriter.GrownCapacity | src/lib/GByteBufferWriter.ts:48-55 | the capacity after `_ensureCapacity`: unchanged when it already suffices, otherwise at least the requirement and at least `ceil(capacity × rate)`, and equal to one of them |
| GByteBufferWriter.SeededCapacity | src/lib/GByteBufferWriter.ts:30-33 | the capacity of a seeded writer is at least the seed length, and strictly more for a non-empty seed |
| GByteBufferWriter.TransferToFixedLength | src/lib/GByteBufferWriter.ts:33 | fresh storage of the new length holding the old bytes (truncated or zero-filled) |
| GByteBufferWriter.ByteBufferWriter.constructor | src/lib/GByteBufferWriter.ts:25-39 | contents are the seed (or empty); capacity is `ceil(len × rate)` for a seed and 64 otherwise; capacity ≥ size |
| GByteBufferWriter.ByteBufferWriter.Create | src/lib/GByteBufferWriter.ts:26-28 | construction fails, with the rate in the error, if and only if `expansionRate <= 1` |
| GByteBufferWriter.ByteBufferWriter.Capacity | src/lib/GByteBufferWriter.ts:44-46 | the capacity is never below the size |
| GByteBufferWriter.ByteBufferWriter.Size | src/lib/GByteBufferWriter.ts:64-66 | the size is the count of bytes written and at most the capacity |
| GByteBufferWriter.ByteBufferWriter.EnsureCapacity | src/lib/GByteBufferWriter.ts:48-55 | the new capacity is `GrownCapacity(old, required, rate)`; size and written bytes are unchanged |
| GByteBufferWriter.ByteBufferWriter.EnsureAddedCapacity | src/lib/GByteBufferWriter.ts:57-59 | room for `size + additional` bytes afterwards; written bytes unchanged |
| GByteBufferWriter.ByteBufferWriter.ExtractBytes | src/lib/GByteBufferWriter.ts:71-75 | returns exactly the bytes written; size unchanged; capacity now equals size |
| GByteBufferWriter.ByteBufferWriter.WriteUInt8 | src/lib/GByteBufferWriter.ts:82-86 | contents grow by the value's single byte modulo 256; size grows by 1; capacity grows only on demand |
| GByteBufferWriter.ByteBufferWriter.WriteUInt16 | src/lib/GByteBufferWriter.ts:93-97 | contents grow by the value's two little-endian bytes; size grows by 2; earlier bytes unchanged; capacity grows only on demand |
| GByteBufferWriter.ByteBufferWriter.WriteUInt32 | src/lib/GByteBufferWriter.ts:104-108 | contents grow by the value's four little-endian bytes; size grows by 4; earlier bytes unchanged; capacity grows only on demand |
| GByteBufferWriter.ByteBufferWriter.WriteBytes | src/lib/GByteBufferWriter.ts:137-143 | contents grow by a copy of the given bytes; size grows by their count; capacity grows only on demand |
| GByteBufferReader.ByteBufferReader.constructor | src/lib/GByteBufferReader.ts:22-25 | a new reader holds the bytes, with the cursor at 0 |
| GByteBufferReader.ByteBufferReader.IsAtEnd | src/lib/GByteBufferReader.ts:44-46 | true exactly when the cursor is at the end of the bytes |
| GByteBufferReader.ByteBufferReader.ReadUInt8 | src/lib/GByteBufferReader.ts:51-55 | returns the byte at the cursor and advances it by 1 |
| GByteBufferReader.ByteBufferReader.ReadUInt16 | src/lib/GByteBufferReader.ts:60-64 | returns the little-endian value of the two bytes at the cursor (below 2^16) and advances it by 2 |
| GByteBufferReader.ByteBufferReader.ReadUInt32 | src/lib/GByteBufferReader.ts:69-73 | returns the little-endian value of the four bytes at the cursor (below 2^32) and advances it by 4 |
| GByteBufferReader.ByteBufferReader.ReadBytes | src/lib/GByteBufferReader.ts:98-102 | returns the `count` bytes at the cursor and advances it by `count` |
| GByteBufferReader.ByteBufferReader.ToString | src/lib/GByteBufferReader.ts:109-120 | `[`, each byte as two lowercase hex digits separated by single spaces, `]` |
| GByteBufferReader.HexDumpShape | src/lib/GByteBufferReader.ts:109-120 | the dump of `n` bytes is `3n - 1` characters with byte `i` at `3i..3i+2` and a space after every byte but the last (empty for no bytes) |
| GByteBufferReader.HexByteRoundTrip | src/lib/GByteBufferReader.ts:117 | each byte's two hex digits read back as the byte |
| GBitBufferWriter.BitBufferWriter.constructor | src/lib/GBitBufferWriter.ts:24-26 | the stream is the seed's bytes, and the partial byte is empty |
| GBitBufferWriter.BitBufferWriter.Create | src/lib/GBitBufferWriter.ts:24-26 | construction fails exactly when the byte writer's does (`expansionRate <= 1`) |
| GBitBufferWriter.BitBufferWriter.Size | src/lib/GBitBufferWriter.ts:31-33 | the size is `ceil(stream length / 8)`: flushed bytes, plus one for a partial byte, seed bytes included |
| GBitBufferWriter.ByteCountOf | src/lib/GBitBufferWriter.ts:31-33 | `byteWriter.size + (currentBits == 0 ? 0 : 1)` is `ceil((8·size + currentBits) / 8)` |
| GBitBufferWriter.BitBufferWriter.FlushByte | src/lib/GBitBufferWriter.ts:35-39 | the partial byte goes to the byte writer; the stream gains its zero padding; the accumulator is reset to (0, 0) |
| GBitBufferWriter.BitBufferWriter.MakeRoom | src/lib/GBitBufferWriter.ts:51-55 | room in the partial byte, flushing a full one, without changing the stream |
| GBitBufferWriter.BitBufferWriter.PlaceBits | src/lib/GBitBufferWriter.ts:59-61 | `currentByte \|= bits << (available - n)` appends exactly the `n` bits to the pending ones and keeps the rest clear |
| GBitBufferWriter.AccumulateBits | src/lib/GBitBufferWriter.ts:59-60 | or-ing the shifted chunk into a byte with clear low bits appends the chunk and keeps the byte below 256 |
| GBitBufferWriter.BitBufferWriter.WriteChunk | src/lib/GBitBufferWriter.ts:51-61 | one loop iteration appends the next `min(bitsLeft, available)` bits of the value to the stream |
| GBitBufferWriter.BitBufferWriter.Write | src/lib/GBitBufferWriter.ts:47-68 | appends the low `bitCount` bits of `data`, MSB first, to the stream; keeps the partial byte below 8 bits with clear low bits; `write(0, …)` leaves the partial byte and the written bytes unchanged |
| GBitBufferWriter.BitBufferWriter.CompleteByte | src/lib/GBitBufferWriter.ts:65-67 | flushes a full partial byte without changing the stream, and changes nothing otherwise |
| GBitBufferWriter.BitBufferWriter.FlushPartialByte | src/lib/GBitBufferWriter.ts:77-79 | afterwards the byte writer holds `ceil(bits / 8)` bytes whose bits are the stream zero-padded to a whole byte |
| GBitBufferWriter.BitBufferWriter.ExtractBytes | src/lib/GBitBufferWriter.ts:76-81 | returns `ceil(bits / 8)` bytes whose bits are the stream, zero-padded; the accumulator is (0, 0) for later writes |
| GBitBufferReader.BitBufferReader.constructor | src/lib/GBitBufferReader.ts:21-23 | a new reader is at position 0 with `usedBits` absent |
| GBitBufferReader.BitBufferReader.Size | src/lib/GBitBufferReader.ts:28-30 | the size in bytes, one eighth of the stream length |
| GBitBufferReader.BitBufferReader.Position | src/lib/GBitBufferReader.ts:35-37 | 0 before the first load, else `8·cursor − 8 + usedBits`, never beyond the stream |
| GBitBufferReader.BitBufferReader.IsAtEnd | src/lib/GBitBufferReader.ts:42-44 | true exactly when a byte was loaded and the position is at the end of the stream, so a never-read reader is not at its end |
| GBitBufferReader.BitBufferReader.LoadByte | src/lib/GBitBufferReader.ts:47-50 | a byte is loaded (cursor + 1, `usedBits` = 0) exactly when `usedBits` is absent or ≥ 8, otherwise nothing changes; the position does not move |
| GBitBufferReader.BitBufferReader.TakeBits | src/lib/GBitBufferReader.ts:51-56 | takes `min(n, 8 − usedBits)` bits from the loaded byte and returns the stream's next bits as their value |
| GBitBufferReader.BitBufferReader.ReadBits | src/lib/GBitBufferReader.ts:46-57 | `_readBits`: loads a byte only when needed, then returns the stream's next `min(n, available)` bits and advances by that many |
| GBitBufferReader.BitBufferReader.ReadChunk | src/lib/GBitBufferReader.ts:68-72 | one loop iteration or-s the next chunk into place: the result's bits are the bits read so far followed by zeros |
| GBitBufferReader.BitBufferReader.Read | src/lib/GBitBufferReader.ts:64-75 | returns the next `n` bits of the stream, MSB first, as a value below 2^n, advancing by `n`; `read(0)` returns 0 and changes nothing |
| GBitBufferReader.BitBufferReader.ToString | src/lib/GBitBufferReader.ts:82-84 | the byte reader's hex rendering of the bytes |
| JsBits.ToUint32 | src/lib/GBitBufferReader.ts:74 | `>>> 0` yields a 32-bit pattern and leaves values already in range unchanged |
| JsBits.BitField | src/lib/GBitBufferReader.ts:53-54 | `(x >>> shift) & ((1 << k) − 1)` is the value of the first `k` of the low `shift + k` bits of `x` |
| JsBits.AndLowMask | src/lib/GBitBufferWriter.ts:57-58 | and-ing with `2^k − 1` keeps exactly the low `k` bits |
| JsBits.OrAppend | src/lib/GBitBufferReader.ts:70-72 | or-ing a chunk shifted to `offset` into a result with clear low bits appends the chunk's bits |
| BitStream.BytesToBitsAt | src/lib/GBitBufferReader.ts:47-54 | byte `i` supplies stream bits `8i..8i+8`, most significant first |
| RoundTrip.WriteFields | src/lib/GBitBufferWriter.ts:47-81 | a fresh writer given `write(n_i, v_i)` in turn extracts `ceil(Σn_i / 8)` bytes whose bits are the fields' bits, zero-padded |
| BitStream.BigEndianBits | src/lib/GBitBufferWriter.ts:56-60 | the bits of the `k` big-endian bytes of `v` are the low `8k` bits of `v`, most significant first |
| BitStream.BigEndianIff | src/lib/GBitBufferWriter.ts:56-60 | bytes are the big-endian bytes of `v` if and only if their bits are the low `8·|bytes|` bits of `v` |
| RoundTrip.WriteAligned | src/lib/GBitBufferWriter.ts:46-66 | on a writer with no pending bits, `write(n, data)` with `n` a multiple of 8 appends the `n / 8` bytes of `data mod 2^n` big-endian and leaves no pending bits |
| RoundTrip.AlignedBytes | src/lib/GBitBufferWriter.ts:63-65 | a whole-byte stream extended by a multiple of 8 bits, seen as bytes plus fewer than 8 pending bits, has none pending and gains the value's big-endian bytes |
| RoundTrip.AlignedWriteExample | src/lib/GBitBufferWriter.ts:46-81 | `write(32, 0x01020304)` on a fresh bit writer extracts as 01 02 03 04, the reverse of `writeUInt32`'s 04 03 02 01 |
| RoundTrip.ReadFields | src/lib/GBitBufferReader.ts:64-75 | reading `n_i` bits in turn from bytes that begin with the fields' bits returns each `v_i mod 2^n_i` |
| RoundTrip.WriteThenRead | test/GBitBufferReader.test.ts:15-29 | write each field, extract, read each width: every value comes back as `v_i mod 2^n_i` |
| RoundTrip.ReadExample | test/GBitBufferReader.test.ts:15-29 | `write(32, 0x01020304)`, `write(8, 0x05)` read back as 8, 8, 7, 9 bits gives 0x01, 0x02, 0x01, 0x104 |
| RoundTrip.WriteWords | src/lib/GByteBufferWriter.ts:71-108 | a fresh byte writer given `writeUInt8/16/32` in turn extracts the concatenated little-endian encodings |
| RoundTrip.ReadWords | src/lib/GByteBufferReader.ts:51-73 | the matching `readUInt8/16/32` in turn over those bytes return each value modulo `2^(8·width)` |
| RoundTrip.WriteThenReadWords | test/GByteBufferReader.test.ts:15-44 | the same sequence of integer writes and reads returns the written values, reduced to their widths |
| RoundTrip.SkipThenReadUInt32 | test/GByteBufferReader.test.ts:35-44 | `writeUInt32(0x01020304)`, `writeUInt8(5)`: skipping a byte then `readUInt32` gives 0x05010203 |
| GUtils.NumberToHexString | src/lib/gutils.ts:38-50 | the loop computes the radix-16 rendering of the 32-bit pattern, in the chosen case, padded to `minLength` |
| GUtils.NumberToBinaryString | src/lib/gutils.ts:58-69 | the loop computes the radix-2 rendering of the 32-bit pattern, padded to `minLength` |
| GUtils.HexStep | src/lib/gutils.ts:45-47 | `value & 0x0f` is the low hex digit and `value >>>= 4` drops it |
| GUtils.BinaryStep | src/lib/gutils.ts:64-66 | `value & 1` is the low bit and `value >>>= 1` drops it |
| GUtils.RadixStringRoundTrip | src/lib/gutils.ts:38-69 | reading the hex or binary output back as a numeral gives the value's 32-bit pattern |
| GUtils.RadixStringShape | src/lib/gutils.ts:38-69 | the output uses only the alphabet's digits; 0 gives `minLength` zeros; otherwise its length is `max(minLength, digit count)` |
| GUtils.DigitsLength | src/lib/gutils.ts:44-48 | the digit count `k` of `u > 0` satisfies `base^(k−1) ≤ u < base^k` |
| GUtils.PadStart | src/lib/gutils.ts:49 | `padStart(minLength, "0")`: length `max(|s|, minLength)`, `s` at the end, `'0'`s before it |
| GUtils.SeparatedString | src/lib/gutils.ts:84-108 | the loops compute the separated string in either direction |
| GUtils.SeparateFromRight | src/lib/gutils.ts:88-97 | the right-to-left loop and remainder build the right-to-left separation |
| GUtils.SeparateFromLeft | src/lib/gutils.ts:98-106 | the left-to-right loop and remainder build the left-to-right separation |
| GUtils.RightToLeftStep | src/lib/gutils.ts:89-93 | each right-to-left iteration prepends the next full chunk, with a separator after the first |
| GUtils.LeftToRightStep | src/lib/gutils.ts:99-102 | each left-to-right iteration appends the next full chunk, with a separator before all but the first |
| GUtils.SeparatedStringPieces | src/lib/gutils.ts:84-108 | the pieces concatenate to `str` and are 1..`every` long (right-to-left all but the first are full, left-to-right all but the last); the result joins them, except that a non-empty `str` shorter than `every` gives `str + sep` or `sep + str` |
| GUtils.RightToLeftPieces | src/lib/gutils.ts:88-97 | the right-to-left case: a short head, then full chunks, joined; for a short `str`, `str + separator` |
| GUtils.LeftToRightPieces | src/lib/gutils.ts:98-106 | the left-to-right case: full chunks, then a short tail, joined; for a short `str`, `separator + str` |
| TimeDuration.UnitChain | src/lib/timeDuration.ts:7-11 | SECOND = 1000 ms, MINUTE = 60 s, HOUR = 60 min, DAY = 24 h, WEEK = 7 d, with their millisecond values |
| TimeDuration.ParseSpec | src/lib/timeDuration.ts:17-19 | a spec text matches exactly when it is digits followed by a unit suffix; the number is those digits read in decimal |
| TimeDuration.FromTimeDurationSpec | src/lib/timeDuration.ts:13-28 | a number resolves to itself, and a matching `"N<unit>"` to `N ×` the unit's milliseconds |
| TimeDuration.ResolveTimeDuration | src/lib/timeDuration.ts:36-46 | the result times the target unit's size is the spec's milliseconds |
| TimeDuration.ResolveSpecText | src/lib/timeDuration.ts:13-46 | `"N<unit>"` resolves to `N ×` the unit and, in that unit, to `N` |
| TimeDuration.ResolveWhole | src/lib/timeDuration.ts:36-46 | a spec in a unit that is `ratio` target units resolves exactly to `N × ratio` |
| TimeDuration.ResolveExamples | test/timeDuration.test.ts:46-69 | `"14d"` in weeks is 2 and `"4w"` in hours is 672 |
| TimeDuration.DecimalRoundTrip | src/lib/timeDuration.ts:57-62 | the decimal rendering of a count reads back as the count |
| TimeDuration.DecomposeSum | src/lib/timeDuration.ts:65-76 | `w·WEEK + d·DAY + h·HOUR + m·MINUTE + s·SECOND + ms` is the input, with `d < 7`, `h < 24`, `m < 60`, `s < 60`, `ms < 1000` |
| TimeDuration.DecomposeUnique | src/lib/timeDuration.ts:65-76 | every normalized breakdown is the decomposition of its total |
| TimeDuration.NoPartsOnlyForZero | src/lib/timeDuration.ts:77-101 | no component is listed exactly when the duration is 0 |
| TimeDuration.JoinShape | src/lib/timeDuration.ts:77-101 | joining non-empty, space-free parts with single spaces has no leading or trailing space, and is empty only for no parts |
| TimeDuration.FullStringShape | src/lib/timeDuration.ts:77-101 | the full string is empty exactly for 0 and never starts or ends with a space |
| TimeDuration.PartRoundTrip | src/lib/timeDuration.ts:78-99 | each rendered component `"<count><suffix>"` parses back as that count and unit |
| TimeDuration.AppendPart | src/lib/timeDuration.ts:81-84 | a non-zero component is appended, after a space when the result is non-empty, keeping the result the single-space join of the parts so far |
| TimeDuration.TimeDurationToString | src/lib/timeDuration.ts:54-101 | the single-unit form is the count of that unit followed by its suffix; the full form lists the non-zero components w, d, h, m, s, ms in order |
| TimeDuration.SingleUnitRoundTrip | src/lib/timeDuration.ts:55-64 | the single-unit rendering of a whole number of units resolves back to the same milliseconds |
| TimeDuration.RenderExamples | test/timeDuration.test.ts:88-113 | 1 h in minutes is `"60m"`, and 7.5 days in full is `"1w 12h"` |

## Left out

- Floating-point operations are left out: `writeFloat16/32` and `readFloat16/32` (src/lib/GByteBufferWriter.ts:115-130, src/lib/GByteBufferReader.ts:78-91). They rely on IEEE 754 encoding through `DataView`.
- `stringToBytes`/`bytesToString`, `getQueryParams` and `deferRun` (src/lib/gutils.ts) are left out: they wrap TextEncoder/TextDecoder, `window.location` and `setTimeout`.
- `shuffleArray`, `pickRandomArrayItem`, `GMath.random*` and `randomWeightIndex` are left out: they depend on `Math.random`.
- The float helpers `rollingAverage`, `lerp`, `sizeToFit` and `sizeToCover` (src/lib/GMath.ts) are left out: they are floating-point arithmetic.
- GMath.Min, GMath.Max and GMath.Clamp are over integers only, not JavaScript numbers (no NaN, no fractions).
- src/lib/GByteBuffer.ts and src/lib/GBitBuffer.ts are not part of this model. They are superseded combined copies of the split classes and are not exported by src/index.ts.
- The regular expression match in `fromTimeDurationSpec` (src/lib/timeDuration.ts:17) is modelled as `ParseSpec`, which takes integer numerals only:
  - a fractional numeral such as `"7.5d"` and `parseFloat` are not modelled;
  - a text that does not match gives `None`, where the source's non-null assertion would throw on `match[1]`.
- TimeDuration.TimeDurationToString: takes whole milliseconds only, so the `Math.round(remainder × 1000) / 1000` step (src/lib/timeDuration.ts:76) is the identity.
  - It requires the duration to be a whole number of the target unit in the single-unit form.
  - The source would print a fraction such as `"0.5h"` otherwise (test/timeDuration.test.ts:93-101).
- `RenderExamples` states the 7.5-day example on its millisecond value (`7·DAY + 12·HOUR`), not on the text `"7.5d"`.
- TimeDuration.ResolveTimeDuration: returns an exact rational quotient, where JavaScript rounds the division to a double.
- TimeDuration.FromTimeDurationSpec: a plain number is a natural-number millisecond count, not an arbitrary JavaScript number.
- TimeDuration.ParseSpec, TimeDuration.FromTimeDurationSpec and TimeDuration.TimeDurationToString: the arithmetic is exact over unbounded naturals, not IEEE 754 doubles.
  - In the source, `parseFloat` of a long numeral and the product `n * WEEK` (src/lib/timeDuration.ts:18-27) round once they pass 2^53.
  - The template literals `${weeks}w` and the like (src/lib/timeDuration.ts:78-99) print a count of 10^21 or more in exponent form (`1e+21w`); the model prints every decimal digit.
- `ArrayBuffer.transferToFixedLength` is modelled as a copy, with the old storage left intact and not detached. The aliasing between the `Uint8Array` returned by `extractBytes` (or `readBytes`) and the underlying buffer is not modelled: results are values.
- The expansion rate is an exact `real` greater than 1 with an explicit ceiling, not a double.
- GByteBufferWriter.ByteBufferWriter.constructor: requires `expansionRate > 1`. The throwing path is `GByteBufferWriter.ByteBufferWriter.Create`, which returns an error exactly then.
- GBitBufferWriter.BitBufferWriter.Write: requires `bitCount <= 32`. JavaScript takes shift counts modulo 32, so larger counts misbehave in the source; the same bound applies to GBitBufferReader.BitBufferReader.Read.
- Reads past the end are preconditions of the readers, not modelled errors. In the source, `DataView` raises a `RangeError` there.
  - This covers `readUInt8/16/32` and `readBytes` in GByteBufferReader.ByteBufferReader.
  - It covers `read` in GBitBufferReader.BitBufferReader (through its `readUInt8`).
- Values passed to writers are integers. Non-integral JavaScript numbers (and the `ToInt32` truncation of them) are not modelled.
- GUtils.NumberToHexString: takes an integer `value`, not an arbitrary JavaScript number (src/lib/gutils.ts:38-50).
  - In the source, `& 0x0f` and `>>>= 4` apply `ToInt32`/`ToUint32`, which truncate a fraction toward zero and map `NaN` and the infinities to 0.
  - So `numberToHexString(0.5)` and `numberToHexString(NaN)` give `"0"` padded to `minLength`, and `numberToHexString(1.5)` gives `"1"`; none of these inputs exists in the model.
- GUtils.NumberToBinaryString: the same restriction to an integer `value`, for the same `& 1` and `>>>= 1` conversions (src/lib/gutils.ts:58-69).
- A few source methods are split into helper methods so that each step carries its own contract:
  - `_readBits` into `LoadByte` and `TakeBits`;
  - the `read` loop body into `ReadChunk`;
  - the `write` loop body into `WriteChunk`, `MakeRoom` and `PlaceBits`;
  - the `write` tail into `CompleteByte`;
  - the first step of `extractBytes` into `FlushPartialByte`;
  - `writeUInt8/16/32` into the shared `WriteUInt` and `SetLittleEndian`.
- The byte reader's `size` and `cursor` getters are the function `GByteBufferReader.ByteBufferReader.Size` and the field `cursor`; they carry no contract of their own.
- GUtils.SeparatedString: requires `every >= 1`. For `every = 0` and a non-empty `str` the source's loop bound is `Infinity` and it does not terminate. For `every = 0` and `str = ""` the count is `0 / 0`, which is `NaN`, both loops are skipped and the source returns `""`; that call is outside the model. Negative and fractional `every` are not modelled.
- GUtils.SeparatedString, GUtils.SeparateFromRight and GUtils.SeparateFromLeft: lengths and slices are over characters (Unicode scalar values), not UTF-16 code units. JavaScript's `str.length` and `str.slice` (src/lib/gutils.ts:85-104) count code units, so a string with characters outside the Basic Multilingual Plane is cut differently: `separatedString("😀😀", 1)` separates the four surrogate halves in the source, but the two characters in the model.
- APIs exercised by tests but absent from the library source are not modelled: `baseNStringToNumber`, `numberToBaseNString`, `greet`, `durationToString`, `resolveDuration` and the bit writer's `bitCount` getter.
