/** The numeral and string helpers of `gutils`: hexadecimal and binary rendering
    of 32-bit values, and digit grouping with a separator. */
module GUtils {
  import opened Binary
  import opened JsBits
  import GMath

  const LOWER_HEX_DIGITS: string := "0123456789abcdef"
  const UPPER_HEX_DIGITS: string := "0123456789ABCDEF"
  /** `numberToBinaryString` picks "1" for a set bit and "0" otherwise. */
  const BINARY_DIGITS: string := "01"

  // ----- Strings -----------------------------------------------------------

  /** `c` repeated `n` times (`String.prototype.repeat`). */
  function Repeat(c: char, n: nat): (s: string)
    ensures |s| == n && forall i :: 0 <= i < n ==> s[i] == c
  {
    seq(n, _ => c)
  }

  /** `s.padStart(minLength, "0")`. */
  function PadStart(s: string, minLength: nat): (r: string)
    ensures |r| == GMath.Max(|s|, minLength)
    ensures r[|r| - |s|..] == s
    ensures forall i :: 0 <= i < |r| - |s| ==> r[i] == '0'
  {
    if |s| >= minLength then s else Repeat('0', minLength - |s|) + s
  }

  /** The pieces with `separator` between consecutive ones. */
  function Join(pieces: seq<string>, separator: string): string
  {
    if |pieces| == 0 then ""
    else if |pieces| == 1 then pieces[0]
    else pieces[0] + separator + Join(pieces[1..], separator)
  }

  /** The pieces one after the other. */
  function Concat(pieces: seq<string>): string
  {
    if |pieces| == 0 then "" else pieces[0] + Concat(pieces[1..])
  }

  lemma {:induction false} JoinAppend(pieces: seq<string>, piece: string, separator: string)
    ensures Join(pieces + [piece], separator)
         == if |pieces| == 0 then piece else Join(pieces, separator) + separator + piece
  {
    if |pieces| > 1 {
      assert (pieces + [piece])[1..] == pieces[1..] + [piece];
      JoinAppend(pieces[1..], piece, separator);
    } else if |pieces| == 1 {
      assert (pieces + [piece])[1..] == [piece];
    }
  }

  // ----- Numerals ----------------------------------------------------------

  function Power(base: nat, k: nat): (r: nat)
    requires base >= 2
    ensures r >= 1
  {
    if k == 0 then 1 else base * Power(base, k - 1)
  }

  /** The digits of `u` in `base`, most significant first; none for 0, and
      never a leading zero. */
  function DigitValues(u: nat, base: nat): (ds: seq<nat>)
    requires base >= 2
    ensures forall i :: 0 <= i < |ds| ==> ds[i] < base
    ensures u > 0 ==> |ds| > 0 && ds[0] != 0
    decreases u
  {
    if u == 0 then []
    else
      DivShrinks(u, base);
      DigitValues(u / base, base) + [u % base]
  }

  /** The digits the conversion loops emit for a 32-bit pattern `u`: the loop
      body runs at least once, so a zero pattern still yields one digit. */
  function LoopDigitValues(u: nat, base: nat): (ds: seq<nat>)
    requires base >= 2
    ensures forall i :: 0 <= i < |ds| ==> ds[i] < base
  {
    DigitValues(u / base, base) + [u % base]
  }

  /** The characters for digit values `ds`. */
  function Spell(ds: seq<nat>, alphabet: string): (s: string)
    requires forall i :: 0 <= i < |ds| ==> ds[i] < |alphabet|
    ensures |s| == |ds|
    ensures forall i :: 0 <= i < |s| ==> s[i] == alphabet[ds[i]]
  {
    seq(|ds|, i requires 0 <= i < |ds| => alphabet[ds[i]])
  }

  lemma SpellPrepend(d: nat, ds: seq<nat>, alphabet: string)
    requires d < |alphabet| && forall i :: 0 <= i < |ds| ==> ds[i] < |alphabet|
    ensures Spell([d] + ds, alphabet) == [alphabet[d]] + Spell(ds, alphabet)
  {
  }

  /** What `numberToHexString`/`numberToBinaryString` return for `value`. */
  function RadixString(value: int, minLength: nat, alphabet: string): string
    requires |alphabet| >= 2
  {
    if value == 0 then Repeat('0', minLength)
    else PadStart(Spell(LoopDigitValues(ToUint32(value), |alphabet|), alphabet), minLength)
  }

  /** The number with digit values `ds` in `base`, most significant first. */
  function Horner(ds: seq<nat>, base: nat): int
  {
    if |ds| == 0 then 0 else Horner(ds[..|ds| - 1], base) * base + ds[|ds| - 1]
  }

  /** The value of a digit character, in any base up to 36, either case. */
  function DigitValue(c: char): int
  {
    if '0' <= c <= '9' then c as int - '0' as int
    else if 'a' <= c <= 'z' then c as int - 'a' as int + 10
    else if 'A' <= c <= 'Z' then c as int - 'A' as int + 10
    else -1
  }

  /** Reading a numeral in `base`, most significant digit first. */
  function ParseNumeral(s: string, base: nat): int
  {
    if |s| == 0 then 0
    else ParseNumeral(s[..|s| - 1], base) * base + DigitValue(s[|s| - 1])
  }

  /** `alphabet[d]` is a character whose digit value is `d`, and '0' comes first. */
  ghost predicate Alphabet(alphabet: string)
  {
    |alphabet| >= 2 && alphabet[0] == '0' &&
    forall d :: 0 <= d < |alphabet| ==> DigitValue(alphabet[d]) == d
  }

  lemma Alphabets()
    ensures Alphabet(LOWER_HEX_DIGITS) && Alphabet(UPPER_HEX_DIGITS) && Alphabet(BINARY_DIGITS)
    ensures |LOWER_HEX_DIGITS| == 16 && |UPPER_HEX_DIGITS| == 16 && |BINARY_DIGITS| == 2
  {
  }

  lemma DivShrinks(x: nat, d: nat)
    requires x > 0 && d >= 2
    ensures x / d < x
  {
    var q := x / d;
    DivMod(x, d);
    if q > 0 {
      assert d * q == q + (d - 1) * q;
      assert (d - 1) * q >= q;
    }
  }

  /** Spelled digits read back as digit values. */
  lemma {:induction false} ParseSpell(ds: seq<nat>, alphabet: string)
    requires Alphabet(alphabet) && forall i :: 0 <= i < |ds| ==> ds[i] < |alphabet|
    ensures ParseNumeral(Spell(ds, alphabet), |alphabet|) == Horner(ds, |alphabet|)
  {
    if |ds| > 0 {
      var init := ds[..|ds| - 1];
      assert Spell(ds, alphabet)[..|ds| - 1] == Spell(init, alphabet);
      ParseSpell(init, alphabet);
    }
  }

  /** The digits of `u` denote `u`. */
  lemma {:induction false} HornerDigits(u: nat, base: nat)
    requires base >= 2
    ensures Horner(DigitValues(u, base), base) == u
    decreases u
  {
    if u > 0 {
      var q, r := u / base, u % base;
      var ds := DigitValues(q, base);
      assert Horner(ds + [r], base) == Horner(ds, base) * base + r by {
        assert (ds + [r])[..|ds|] == ds;
      }
      assert Horner(ds, base) == q by {
        DivShrinks(u, base);
        HornerDigits(q, base);
      }
      assert q * base + r == u by { DivMod(u, base); }
    }
  }

  lemma {:induction false} ParseZeros(k: nat, base: nat)
    ensures ParseNumeral(Repeat('0', k), base) == 0
  {
    if k > 0 {
      assert Repeat('0', k)[..k - 1] == Repeat('0', k - 1);
      ParseZeros(k - 1, base);
    }
  }

  lemma {:induction false} ParseLeadingZeros(k: nat, s: string, base: nat)
    ensures ParseNumeral(Repeat('0', k) + s, base) == ParseNumeral(s, base)
  {
    var z := Repeat('0', k);
    if |s| == 0 {
      assert z + s == z;
      ParseZeros(k, base);
    } else {
      var init := s[..|s| - 1];
      assert (z + s)[..|z + s| - 1] == z + init;
      ParseLeadingZeros(k, init, base);
    }
  }

  /** `DigitValues` has exactly as many digits as the value needs. */
  lemma {:induction false} DigitsLength(u: nat, base: nat)
    requires base >= 2 && u > 0
    ensures Power(base, |DigitValues(u, base)| - 1) <= u < Power(base, |DigitValues(u, base)|)
    decreases u
  {
    var q, r := u / base, u % base;
    assert u == base * q + r && r < base by { DivMod(u, base); }
    assert DigitValues(u, base) == DigitValues(q, base) + [r];
    if q == 0 {
      assert |DigitValues(u, base)| == 1;
      assert Power(base, 1) == base * Power(base, 0) == base;
    } else {
      assert q < u by { DivShrinks(u, base); }
      DigitsLength(q, base);
      var k := |DigitValues(q, base)|;
      assert |DigitValues(u, base)| == k + 1;
      ScaleBounds(base, q, r, Power(base, k - 1), Power(base, k));
      assert Power(base, k) == base * Power(base, k - 1);
      assert Power(base, k + 1) == base * Power(base, k);
    }
  }

  /** Appending a digit scales the bounds on the number by the base. */
  lemma ScaleBounds(base: nat, q: nat, r: nat, lo: nat, hi: nat)
    requires r < base && lo <= q < hi
    ensures base * lo <= base * q + r < base * hi
  {
    MulLeMonotone(base, lo, q);
    MulLeMonotone(base, q + 1, hi);
  }

  lemma MulLeMonotone(b: nat, x: nat, y: nat)
    requires x <= y
    ensures b * x <= b * y
  {
  }

  /** The loop's digits are the value's digits, except that zero gets one. */
  lemma LoopDigitValuesOf(u: nat, base: nat)
    requires base >= 2
    ensures u > 0 ==> LoopDigitValues(u, base) == DigitValues(u, base)
    ensures u == 0 ==> LoopDigitValues(u, base) == [0]
  {
  }

  /** The loop's digits denote the pattern. */
  lemma HornerLoopDigits(u: nat, base: nat)
    requires base >= 2
    ensures Horner(LoopDigitValues(u, base), base) == u
  {
    var q, r := u / base, u % base;
    var ds := LoopDigitValues(u, base);
    assert Horner(ds, base) == Horner(DigitValues(q, base), base) * base + r by {
      assert ds[..|ds| - 1] == DigitValues(q, base);
    }
    HornerDigits(q, base);
    DivMod(u, base);
  }

  /** The loop's digits, spelled and read back, give the pattern again. */
  lemma LoopDigitsRoundTrip(u: nat, alphabet: string)
    requires Alphabet(alphabet)
    ensures ParseNumeral(Spell(LoopDigitValues(u, |alphabet|), alphabet), |alphabet|) == u
  {
    ParseSpell(LoopDigitValues(u, |alphabet|), alphabet);
    HornerLoopDigits(u, |alphabet|);
  }

  /** Padding with '0' does not change the value read back. */
  lemma ParsePadStart(s: string, minLength: nat, base: nat)
    ensures ParseNumeral(PadStart(s, minLength), base) == ParseNumeral(s, base)
  {
    if |s| < minLength {
      ParseLeadingZeros(minLength - |s|, s, base);
    }
  }

  /** The conversion read back in its base is the 32-bit pattern of `value`. */
  lemma RadixStringRoundTrip(value: int, minLength: nat, alphabet: string)
    requires Alphabet(alphabet)
    ensures ParseNumeral(RadixString(value, minLength, alphabet), |alphabet|) == ToUint32(value)
  {
    if value == 0 {
      ParseZeros(minLength, |alphabet|);
    } else {
      var u := ToUint32(value);
      LoopDigitsRoundTrip(u, alphabet);
      ParsePadStart(Spell(LoopDigitValues(u, |alphabet|), alphabet), minLength, |alphabet|);
    }
  }

  /** Every character comes from the alphabet, zero gives `minLength` zeros,
      and otherwise the length is the larger of `minLength` and the number of
      digits the 32-bit pattern needs. */
  lemma RadixStringShape(value: int, minLength: nat, alphabet: string)
    requires Alphabet(alphabet)
    ensures var s := RadixString(value, minLength, alphabet);
      && (forall i :: 0 <= i < |s| ==> s[i] in alphabet)
      && (value == 0 ==> s == Repeat('0', minLength))
      && (ToUint32(value) > 0 ==>
            |s| == GMath.Max(minLength, |DigitValues(ToUint32(value), |alphabet|)|))
  {
    var s := RadixString(value, minLength, alphabet);
    if value != 0 {
      LoopDigitValuesOf(ToUint32(value), |alphabet|);
      var t := Spell(LoopDigitValues(ToUint32(value), |alphabet|), alphabet);
      assert forall i :: 0 <= i < |t| ==> t[i] in alphabet;
    }
  }

  /** The two-digit lowercase hex of a byte, as `numberToHexString(byte, 2)` gives it. */
  lemma HexOfByte(byte: uint8)
    ensures RadixString(byte, 2, LOWER_HEX_DIGITS)
         == [LOWER_HEX_DIGITS[byte / 16], LOWER_HEX_DIGITS[byte % 16]]
  {
    var hi, lo := LOWER_HEX_DIGITS[byte / 16], LOWER_HEX_DIGITS[byte % 16];
    if byte == 0 {
      assert Repeat('0', 2) == [hi, lo];
    } else {
      assert ToUint32(byte) == byte;
      var ds := LoopDigitValues(byte, 16);
      if byte >= 16 {
        assert DigitValues(byte / 16, 16) == [byte / 16];
        assert ds == [byte / 16, byte % 16];
        assert Spell(ds, LOWER_HEX_DIGITS) == [hi, lo];
      } else {
        assert ds == [byte % 16];
        assert Spell(ds, LOWER_HEX_DIGITS) == [lo];
        assert PadStart([lo], 2) == [hi, lo];
      }
    }
  }

  // ----- numberToHexString / numberToBinaryString ---------------------------

  /** One turn of the hex loop: `& 0x0f` takes the low digit, `>>> 4` the rest. */
  lemma HexStep(v: int)
    ensures And(ToUint32(v), 0x0f) == ToUint32(v) % 16
    ensures UnsignedShiftRight(v, 4) == ToUint32(v) / 16
  {
    Pow2Constants();
    AndLowMask(ToUint32(v), 4);
  }

  /** One turn of the binary loop: `& 1` takes the low digit, `>>> 1` the rest. */
  lemma BinaryStep(v: int)
    ensures And(ToUint32(v), 1) == ToUint32(v) % 2
    ensures UnsignedShiftRight(v, 1) == ToUint32(v) / 2
  {
    assert Pow2(1) == 2;
    AndLowMask(ToUint32(v), 1);
  }

  /** Emitting the low digit of `x` in front of those emitted so far, and
      continuing with the rest of `x`, keeps the digits in order. */
  lemma EmitDigit(x: nat, base: nat, emitted: seq<nat>)
    requires base >= 2 && x > 0
    ensures DigitValues(x / base, base) + ([x % base] + emitted) == DigitValues(x, base) + emitted
  {
  }

  /** Converts `value` to hexadecimal, padded with '0' to at least `minLength`. */
  method NumberToHexString(value: int, minLength: nat := 1, uppercase: bool := false)
    returns (s: string)
    ensures s == RadixString(value, minLength, if uppercase then UPPER_HEX_DIGITS else LOWER_HEX_DIGITS)
  {
    if value == 0 {
      return Repeat('0', minLength);
    }
    var str := "";
    var hexDigits := if uppercase then UPPER_HEX_DIGITS else LOWER_HEX_DIGITS;
    assert |hexDigits| == 16;
    ghost var emitted: seq<nat> := [];
    ghost var u := ToUint32(value);
    var v := value;
    while v != 0
      invariant forall i :: 0 <= i < |emitted| ==> emitted[i] < 16
      invariant str == Spell(emitted, hexDigits)
      invariant emitted == [] ==> v == value
      invariant emitted != [] ==>
        0 <= v < TWO_TO_32 && DigitValues(v, 16) + emitted == LoopDigitValues(u, 16)
      decreases if emitted == [] then TWO_TO_32 else v
    {
      HexStep(v);
      if emitted != [] {
        EmitDigit(v, 16, emitted);
      }
      var digit := And(ToUint32(v), 0x0f);
      SpellPrepend(digit, emitted, hexDigits);
      str := [hexDigits[digit]] + str;
      emitted := [digit] + emitted;
      v := UnsignedShiftRight(v, 4);
    }
    assert str == Spell(LoopDigitValues(u, 16), hexDigits) by {
      assert DigitValues(v, 16) + emitted == emitted;
    }
    return PadStart(str, minLength);
  }

  /** Converts `value` to binary, padded with '0' to at least `minLength`. */
  method NumberToBinaryString(value: int, minLength: nat := 1) returns (s: string)
    ensures s == RadixString(value, minLength, BINARY_DIGITS)
  {
    if value == 0 {
      return Repeat('0', minLength);
    }
    var str := "";
    ghost var emitted: seq<nat> := [];
    ghost var u := ToUint32(value);
    var v := value;
    while v != 0
      invariant forall i :: 0 <= i < |emitted| ==> emitted[i] < 2
      invariant str == Spell(emitted, BINARY_DIGITS)
      invariant emitted == [] ==> v == value
      invariant emitted != [] ==>
        0 <= v < TWO_TO_32 && DigitValues(v, 2) + emitted == LoopDigitValues(u, 2)
      decreases if emitted == [] then TWO_TO_32 else v
    {
      BinaryStep(v);
      if emitted != [] {
        EmitDigit(v, 2, emitted);
      }
      var digit := And(ToUint32(v), 1);
      SpellPrepend(digit, emitted, BINARY_DIGITS);
      str := (if digit == 1 then "1" else "0") + str;
      emitted := [digit] + emitted;
      v := UnsignedShiftRight(v, 1);
    }
    assert str == Spell(LoopDigitValues(u, 2), BINARY_DIGITS) by {
      assert DigitValues(v, 2) + emitted == emitted;
    }
    return PadStart(str, minLength);
  }

  // ----- separatedString ---------------------------------------------------

  /** `count * every`, by repeated addition: the length of `count` full pieces. */
  function Product(count: nat, every: nat): nat
  {
    if count == 0 then 0 else Product(count - 1, every) + every
  }

  lemma {:induction false} ProductIsMultiplication(count: nat, every: nat)
    ensures Product(count, every) == count * every
  {
    if count > 0 {
      ProductIsMultiplication(count - 1, every);
      MulSucc(count - 1, every);
    }
  }

  lemma MulSucc(i: nat, every: nat)
    ensures (i + 1) * every == i * every + every
  {
  }

  lemma {:induction false} ProductMonotone(i: nat, count: nat, every: nat)
    requires i <= count
    ensures Product(i, every) <= Product(count, every)
    decreases count
  {
    if i < count {
      ProductMonotone(i, count - 1, every);
    }
  }

  /** The number of full pieces is the quotient, and what is left is shorter than a piece. */
  lemma Quotient(n: nat, every: nat)
    requires every >= 1
    ensures Product(n / every, every) <= n < Product(n / every, every) + every
  {
    DivMod(n, every);
    ProductIsMultiplication(n / every, every);
  }

  /** `s` cut from the left into pieces of `every` characters, the last one
      possibly shorter. */
  function Chunks(s: string, every: nat): (pieces: seq<string>)
    requires every >= 1
    decreases |s|
  {
    if |s| == 0 then []
    else if |s| <= every then [s]
    else [s[..every]] + Chunks(s[every..], every)
  }

  /** What `separatedString` returns. Counting from the right, a short leading
      piece followed by the separator comes first; from the left, the full
      pieces come first and the separator and the short trailing piece last. */
  function Separated(str: string, every: nat, separator: string, rightToLeft: bool): string
    requires every >= 1
  {
    Quotient(|str|, every);
    SeparatedBy(str, every, separator, rightToLeft, |str| / every)
  }

  /** `Separated` with the number of full pieces, `count`, given. */
  function SeparatedBy(str: string, every: nat, separator: string, rightToLeft: bool, count: nat): string
    requires every >= 1 && Product(count, every) <= |str|
  {
    var remainder := |str| - Product(count, every);
    if rightToLeft then
      (if remainder > 0 then str[..remainder] + separator else "")
      + Join(Chunks(str[remainder..], every), separator)
    else
      Join(Chunks(str[..Product(count, every)], every), separator)
      + (if remainder > 0 then separator + str[|str| - remainder..] else "")
  }

  /** The pieces `separatedString` puts the separator between, in order. */
  function SeparatedPieces(str: string, every: nat, rightToLeft: bool): seq<string>
    requires every >= 1
  {
    Quotient(|str|, every);
    SeparatedPiecesBy(str, every, rightToLeft, |str| / every)
  }

  function SeparatedPiecesBy(str: string, every: nat, rightToLeft: bool, count: nat): seq<string>
    requires every >= 1 && Product(count, every) <= |str|
  {
    var remainder := |str| - Product(count, every);
    if rightToLeft then
      (if remainder > 0 then [str[..remainder]] else []) + Chunks(str[remainder..], every)
    else
      Chunks(str[..Product(count, every)], every) + (if remainder > 0 then [str[|str| - remainder..]] else [])
  }

  lemma {:induction false} ChunksConcat(s: string, every: nat)
    requires every >= 1
    ensures Concat(Chunks(s, every)) == s
    decreases |s|
  {
    if |s| > every {
      ChunksConcat(s[every..], every);
      assert Chunks(s, every)[1..] == Chunks(s[every..], every);
    } else if |s| > 0 {
      assert [s][1..] == [];
    }
  }

  /** `count` full pieces' worth of characters is cut into `count` full pieces. */
  lemma {:induction false} ChunksFull(s: string, every: nat, count: nat)
    requires every >= 1 && |s| == Product(count, every)
    ensures |Chunks(s, every)| == count
    ensures forall i :: 0 <= i < count ==> |Chunks(s, every)[i]| == every
    decreases count
  {
    if count == 1 {
      assert |s| == every;
    } else if count >= 2 {
      assert Product(count - 1, every) >= every;
      ChunksFull(s[every..], every, count - 1);
    }
  }

  /** Appending a full piece to full pieces appends one chunk. */
  lemma {:induction false} ChunksAppend(s: string, piece: string, every: nat, count: nat)
    requires every >= 1 && |s| == Product(count, every) && |piece| == every
    ensures Chunks(s + piece, every) == Chunks(s, every) + [piece]
    decreases count
  {
    var t := s + piece;
    if count == 0 {
      assert t == piece;
    } else {
      assert t[..every] == s[..every];
      assert t[every..] == s[every..] + piece;
      ChunksAppend(s[every..], piece, every, count - 1);
      if count == 1 {
        assert s[every..] == "";
      } else {
        assert Product(count - 1, every) >= every;
      }
    }
  }

  lemma {:induction false} ConcatAppend(pieces: seq<string>, piece: string)
    ensures Concat(pieces + [piece]) == Concat(pieces) + piece
  {
    if |pieces| > 0 {
      assert (pieces + [piece])[1..] == pieces[1..] + [piece];
      ConcatAppend(pieces[1..], piece);
    } else {
      assert [piece][1..] == [];
    }
  }

  lemma JoinPrepend(head: string, pieces: seq<string>, separator: string)
    requires |pieces| > 0
    ensures Join([head] + pieces, separator) == head + separator + Join(pieces, separator)
  {
    assert ([head] + pieces)[1..] == pieces;
  }

  /** Whenever `str` is empty or at least `every` long, the result is exactly
      its pieces joined by the separator; the pieces concatenate to `str`, all
      but the first (counting from the right) or all but the last (counting
      from the left) are `every` long, and the odd one is shorter. Shorter
      non-empty strings get the separator on one side. */
  lemma SeparatedStringPieces(str: string, every: nat, separator: string, rightToLeft: bool)
    requires every >= 1
    ensures var pieces := SeparatedPieces(str, every, rightToLeft);
      && Concat(pieces) == str
      && (forall i :: 0 <= i < |pieces| ==> 1 <= |pieces[i]| <= every)
      && (rightToLeft ==> forall i :: 1 <= i < |pieces| ==> |pieces[i]| == every)
      && (!rightToLeft ==> forall i :: 0 <= i < |pieces| - 1 ==> |pieces[i]| == every)
      && (|str| == 0 || |str| >= every ==> Separated(str, every, separator, rightToLeft) == Join(pieces, separator))
      && (0 < |str| < every ==> Separated(str, every, separator, rightToLeft)
                                == if rightToLeft then str + separator else separator + str)
  {
    var count := |str| / every;
    Quotient(|str|, every);
    if rightToLeft {
      RightToLeftPieces(str, every, separator, count);
    } else {
      LeftToRightPieces(str, every, separator, count);
    }
  }

  lemma RightToLeftPieces(str: string, every: nat, separator: string, count: nat)
    requires every >= 1 && Product(count, every) <= |str| < Product(count, every) + every
    ensures var pieces := SeparatedPiecesBy(str, every, true, count);
      && Concat(pieces) == str
      && (forall i :: 0 <= i < |pieces| ==> 1 <= |pieces[i]| <= every)
      && (forall i :: 1 <= i < |pieces| ==> |pieces[i]| == every)
      && (count > 0 || |str| == 0 ==>
            SeparatedBy(str, every, separator, true, count) == Join(pieces, separator))
      && (count == 0 && |str| > 0 ==> SeparatedBy(str, every, separator, true, count) == str + separator)
  {
    var n := Product(count, every);
    var remainder := |str| - n;
    var rest := str[remainder..];
    ChunksConcat(rest, every);
    ChunksFull(rest, every, count);
    var chunks := Chunks(rest, every);
    var pieces := SeparatedPiecesBy(str, every, true, count);
    var result := SeparatedBy(str, every, separator, true, count);
    if remainder > 0 {
      var head := str[..remainder];
      assert pieces == [head] + chunks;
      assert result == head + separator + Join(chunks, separator);
      assert str == head + rest;
      HeadThenChunks(str, head, rest, chunks, pieces, result, separator, every);
    } else {
      assert pieces == chunks && result == Join(chunks, separator);
      assert str == rest;
    }
  }

  /** A short non-empty leading piece, the separator, then full pieces. */
  lemma HeadThenChunks(str: string, head: string, rest: string, chunks: seq<string>,
                       pieces: seq<string>, result: string, separator: string, every: nat)
    requires str == head + rest && Concat(chunks) == rest && pieces == [head] + chunks
    requires 1 <= |head| <= every && forall i :: 0 <= i < |chunks| ==> |chunks[i]| == every
    requires result == head + separator + Join(chunks, separator)
    ensures Concat(pieces) == str
    ensures forall i :: 0 <= i < |pieces| ==> 1 <= |pieces[i]| <= every
    ensures forall i :: 1 <= i < |pieces| ==> |pieces[i]| == every
    ensures |chunks| > 0 ==> result == Join(pieces, separator)
    ensures |chunks| == 0 ==> result == str + separator
  {
    assert pieces[1..] == chunks;
    if |chunks| > 0 {
      JoinPrepend(head, chunks, separator);
    } else {
      assert rest == "" && str == head;
    }
  }

  lemma LeftToRightPieces(str: string, every: nat, separator: string, count: nat)
    requires every >= 1 && Product(count, every) <= |str| < Product(count, every) + every
    ensures var pieces := SeparatedPiecesBy(str, every, false, count);
      && Concat(pieces) == str
      && (forall i :: 0 <= i < |pieces| ==> 1 <= |pieces[i]| <= every)
      && (forall i :: 0 <= i < |pieces| - 1 ==> |pieces[i]| == every)
      && (count > 0 || |str| == 0 ==>
            SeparatedBy(str, every, separator, false, count) == Join(pieces, separator))
      && (count == 0 && |str| > 0 ==> SeparatedBy(str, every, separator, false, count) == separator + str)
  {
    var n := Product(count, every);
    var remainder := |str| - n;
    var front := str[..n];
    ChunksConcat(front, every);
    ChunksFull(front, every, count);
    var chunks := Chunks(front, every);
    var pieces := SeparatedPiecesBy(str, every, false, count);
    var result := SeparatedBy(str, every, separator, false, count);
    if remainder > 0 {
      var tail := str[n..];
      assert pieces == chunks + [tail];
      assert result == Join(chunks, separator) + separator + tail;
      assert str == front + tail;
      FullThenShort(chunks, tail, pieces, every);
      if count > 0 {
        ChunksThenTail(chunks, tail, pieces, separator);
      } else {
        assert chunks == [] && pieces == [tail] && front == "";
        assert result == separator + tail && str == tail;
      }
    } else {
      assert pieces == chunks && result == Join(chunks, separator);
      assert str == front;
    }
  }

  /** Full pieces, the separator, then a trailing piece. */
  lemma ChunksThenTail(chunks: seq<string>, tail: string, pieces: seq<string>, separator: string)
    requires pieces == chunks + [tail] && |chunks| > 0
    ensures Concat(pieces) == Concat(chunks) + tail
    ensures Join(pieces, separator) == Join(chunks, separator) + separator + tail
  {
    ConcatAppend(chunks, tail);
    JoinAppend(chunks, tail, separator);
  }

  lemma FullThenShort(chunks: seq<string>, tail: string, pieces: seq<string>, every: nat)
    requires pieces == chunks + [tail] && 1 <= |tail| <= every
    requires forall i :: 0 <= i < |chunks| ==> |chunks[i]| == every
    ensures forall i :: 0 <= i < |pieces| ==> 1 <= |pieces[i]| <= every
    ensures forall i :: 0 <= i < |pieces| - 1 ==> |pieces[i]| == every
  {
  }

  /** One turn of the right-to-left loop: the piece ending where the previous
      one starts goes in front. */
  lemma RightToLeftStep(str: string, every: nat, separator: string, i: nat, result: string)
    requires every >= 1 && 1 <= i && Product(i, every) <= |str|
    requires result == Join(Chunks(str[|str| - Product(i - 1, every)..], every), separator)
    ensures var offset := |str| - Product(i, every);
      str[offset..offset + every] + (if i == 1 then "" else separator + result)
        == Join(Chunks(str[offset..], every), separator)
  {
    var offset := |str| - Product(i, every);
    var piece := str[offset..offset + every];
    var previous := str[offset + every..];
    assert str[offset..] == piece + previous;
    if i > 1 {
      assert Product(i - 1, every) >= every;
      assert str[offset..][..every] == piece && str[offset..][every..] == previous;
      JoinPrepend(piece, Chunks(previous, every), separator);
    }
  }

  /** One turn of the left-to-right loop: the next piece goes at the end. */
  lemma LeftToRightStep(str: string, every: nat, separator: string, i: nat, result: string)
    requires every >= 1 && Product(i + 1, every) <= |str|
    requires result == Join(Chunks(str[..Product(i, every)], every), separator)
    ensures var offset := Product(i, every);
      result + (if i == 0 then "" else separator) + str[offset..offset + every]
        == Join(Chunks(str[..Product(i + 1, every)], every), separator)
  {
    var offset := Product(i, every);
    var piece := str[offset..offset + every];
    assert str[..offset + every] == str[..offset] + piece;
    ChunksAppend(str[..offset], piece, every, i);
    JoinAppend(Chunks(str[..offset], every), piece, separator);
  }

  /** Inserts `separator` between groups of `every` characters of `str`. */
  method SeparatedString(str: string, every: nat, separator: string := " ", rightToLeft: bool := true)
    returns (result: string)
    requires every >= 1
    ensures result == Separated(str, every, separator, rightToLeft)
  {
    var count := |str| / every;
    Quotient(|str|, every);
    ProductIsMultiplication(count, every);
    var remainder := |str| - count * every;
    if rightToLeft {
      result := SeparateFromRight(str, every, separator, count, remainder);
    } else {
      result := SeparateFromLeft(str, every, separator, count, remainder);
    }
  }

  /** The right-to-left branch of `separatedString`. */
  method SeparateFromRight(str: string, every: nat, separator: string, count: nat, remainder: nat)
    returns (result: string)
    requires every >= 1 && remainder == |str| - Product(count, every) && remainder < every
    ensures result == SeparatedBy(str, every, separator, true, count)
  {
    result := "";
    assert str[|str| - Product(0, every)..] == [];
    for i := 1 to count + 1
      invariant Product(i - 1, every) <= |str|
      invariant result == Join(Chunks(str[|str| - Product(i - 1, every)..], every), separator)
    {
      ProductMonotone(i, count, every);
      ProductIsMultiplication(i, every);
      RightToLeftStep(str, every, separator, i, result);
      var offset := |str| - i * every;
      var piece := str[offset..offset + every];
      result := piece + (if i == 1 then "" else separator + result);
      assert result == Join(Chunks(str[|str| - Product(i, every)..], every), separator);
    }
    ghost var pieces := result;
    if remainder > 0 {
      var piece := str[..remainder];
      result := piece + separator + result;
    }
    RightToLeftDone(str, every, separator, count, remainder, pieces, result);
  }

  /** After the right-to-left loop: the short leading piece and the separator
      go in front of the full pieces. */
  lemma RightToLeftDone(str: string, every: nat, separator: string, count: nat, remainder: nat,
                        pieces: string, result: string)
    requires every >= 1 && remainder == |str| - Product(count, every)
    requires pieces == Join(Chunks(str[remainder..], every), separator)
    requires result == if remainder > 0 then str[..remainder] + separator + pieces else pieces
    ensures result == SeparatedBy(str, every, separator, true, count)
  {
  }

  /** The left-to-right branch of `separatedString`. */
  method SeparateFromLeft(str: string, every: nat, separator: string, count: nat, remainder: nat)
    returns (result: string)
    requires every >= 1 && remainder == |str| - Product(count, every) && remainder < every
    ensures result == SeparatedBy(str, every, separator, false, count)
  {
    result := "";
    for i := 0 to count
      invariant Product(i, every) <= |str|
      invariant result == Join(Chunks(str[..Product(i, every)], every), separator)
    {
      ProductMonotone(i + 1, count, every);
      ProductIsMultiplication(i, every);
      LeftToRightStep(str, every, separator, i, result);
      var offset := i * every;
      result := result + (if i == 0 then "" else separator) + str[offset..offset + every];
    }
    if remainder > 0 {
      result := result + separator + str[|str| - remainder..];
    }
  }
}
