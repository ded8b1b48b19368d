/** Time durations in whole milliseconds: the unit constants, duration specs
    (a millisecond count or a numeral with a unit suffix), conversion between
    units, and rendering as text. */
module TimeDuration {
  import opened Binary
  import GUtils

  datatype TimeUnit = Ms | S | M | H | D | W

  const SECOND: nat := 1000
  const MINUTE: nat := 60 * SECOND
  const HOUR: nat := 60 * MINUTE
  const DAY: nat := 24 * HOUR
  const WEEK: nat := 7 * DAY

  const DECIMAL_DIGITS: string := "0123456789"

  /** A duration: a millisecond count, or text such as `"14d"`. */
  datatype TimeDurationSpec = Millis(ms: nat) | Text(text: string)

  /** `timeDurationToString`'s target: every unit, or a single one. */
  datatype Format = Full | In(unit: TimeUnit)

  /** Milliseconds in one `unit`. */
  function UnitSize(unit: TimeUnit): (r: nat)
    ensures r >= 1
  {
    match unit
    case Ms => 1
    case S => SECOND
    case M => MINUTE
    case H => HOUR
    case D => DAY
    case W => WEEK
  }

  /** The unit's suffix in specs and in rendered durations. */
  function Suffix(unit: TimeUnit): string
  {
    match unit
    case Ms => "ms"
    case S => "s"
    case M => "m"
    case H => "h"
    case D => "d"
    case W => "w"
  }

  /** Each unit is a whole number of the next smaller one. */
  lemma UnitChain()
    ensures UnitSize(Ms) == 1 && UnitSize(S) == 1000 * UnitSize(Ms)
    ensures UnitSize(M) == 60 * UnitSize(S) && UnitSize(H) == 60 * UnitSize(M)
    ensures UnitSize(D) == 24 * UnitSize(H) && UnitSize(W) == 7 * UnitSize(D)
    ensures WEEK == 604_800_000 && DAY == 86_400_000 && HOUR == 3_600_000 && MINUTE == 60_000
  {
  }

  // ----- Decimal numerals --------------------------------------------------

  predicate IsDigit(c: char)
  {
    '0' <= c <= '9'
  }

  /** `${n}` for a natural number: its decimal digits, `"0"` for zero. */
  function Decimal(n: nat): (s: string)
    ensures |s| > 0 && forall i :: 0 <= i < |s| ==> IsDigit(s[i])
  {
    if n == 0 then "0"
    else
      var ds := GUtils.DigitValues(n, 10);
      var s := GUtils.Spell(ds, DECIMAL_DIGITS);
      assert forall i :: 0 <= i < |s| ==> s[i] == DECIMAL_DIGITS[ds[i]];
      s
  }

  lemma DecimalAlphabet()
    ensures GUtils.Alphabet(DECIMAL_DIGITS) && |DECIMAL_DIGITS| == 10
  {
  }

  /** A decimal numeral reads back as its number. */
  lemma DecimalRoundTrip(n: nat)
    ensures GUtils.ParseNumeral(Decimal(n), 10) == n
  {
    DecimalAlphabet();
    if n == 0 {
      assert Decimal(n)[..0] == "";
    } else {
      GUtils.ParseSpell(GUtils.DigitValues(n, 10), DECIMAL_DIGITS);
      GUtils.HornerDigits(n, 10);
    }
  }

  /** The decimal numeral of a two-digit number. */
  lemma DecimalOfTwoDigits(n: nat)
    requires 10 <= n < 100
    ensures Decimal(n) == [DECIMAL_DIGITS[n / 10], DECIMAL_DIGITS[n % 10]]
  {
    assert GUtils.DigitValues(n / 10, 10) == [n / 10];
    assert GUtils.DigitValues(n, 10) == [n / 10, n % 10];
  }

  // ----- Specs ---------------------------------------------------------------

  /** The length of the longest run of digits at the start of `s`. */
  function DigitPrefix(s: string): (k: nat)
    ensures k <= |s| && (forall i :: 0 <= i < k ==> IsDigit(s[i]))
    ensures k < |s| ==> !IsDigit(s[k])
  {
    if |s| == 0 || !IsDigit(s[0]) then 0 else 1 + DigitPrefix(s[1..])
  }

  /** The unit whose suffix is exactly `s`, if any. */
  function UnitOfSuffix(s: string): (r: Option<TimeUnit>)
    ensures r.Some? ==> Suffix(r.value) == s
    ensures r.None? ==> forall unit :: Suffix(unit) != s
  {
    if s == "ms" then Some(Ms)
    else if s == "s" then Some(S)
    else if s == "m" then Some(M)
    else if s == "h" then Some(H)
    else if s == "d" then Some(D)
    else if s == "w" then Some(W)
    else None
  }

  lemma UnitOfSuffixInverse(unit: TimeUnit)
    ensures UnitOfSuffix(Suffix(unit)) == Some(unit)
  {
  }

  /** A run of digits denotes a natural number. */
  lemma {:induction false} DigitsNonNegative(s: string)
    requires forall i :: 0 <= i < |s| ==> IsDigit(s[i])
    ensures GUtils.ParseNumeral(s, 10) >= 0
  {
    if |s| > 0 {
      DigitsNonNegative(s[..|s| - 1]);
    }
  }

  /** The match of `^(\d+)(ms|s|m|h|d|w)$` on `s`: the number and the unit,
      or nothing when `s` is not of that form. */
  function ParseSpec(s: string): (r: Option<(nat, TimeUnit)>)
    ensures r.Some? <==> DigitPrefix(s) > 0 && exists unit :: s[DigitPrefix(s)..] == Suffix(unit)
    ensures r.Some? ==> s == s[..DigitPrefix(s)] + Suffix(r.value.1)
    ensures r.Some? ==> r.value.0 == GUtils.ParseNumeral(s[..DigitPrefix(s)], 10)
  {
    var k := DigitPrefix(s);
    if k == 0 then None
    else
      match UnitOfSuffix(s[k..])
      case None => None
      case Some(unit) =>
        DigitsNonNegative(s[..k]);
        assert s == s[..k] + s[k..];
        Some((GUtils.ParseNumeral(s[..k], 10) as nat, unit))
  }

  /** `fromTimeDurationSpec`: the duration in milliseconds. Text that is not a
      numeral followed by a unit suffix has no match, and the source fails on it. */
  function FromTimeDurationSpec(duration: TimeDurationSpec): (r: Option<nat>)
    ensures duration.Millis? ==> r == Some(duration.ms)
    ensures duration.Text? ==> (r.Some? <==> ParseSpec(duration.text).Some?)
    ensures duration.Text? && r.Some? ==>
      r.value == ParseSpec(duration.text).value.0 * UnitSize(ParseSpec(duration.text).value.1)
  {
    match duration
    case Millis(ms) => Some(ms)
    case Text(text) =>
      match ParseSpec(text)
      case None => None
      case Some((n, unit)) => Some(n * UnitSize(unit))
  }

  /** `resolveTimeDuration`: the duration as a quantity of `toUnit`. */
  function ResolveTimeDuration(duration: TimeDurationSpec, toUnit: TimeUnit := Ms): (r: Option<real>)
    ensures r.Some? <==> FromTimeDurationSpec(duration).Some?
    ensures r.Some? ==> r.value * UnitSize(toUnit) as real == FromTimeDurationSpec(duration).value as real
  {
    match FromTimeDurationSpec(duration)
    case None => None
    case Some(ms) => Some(ms as real / UnitSize(toUnit) as real)
  }

  /** The spec text of `n` of `unit`, as the source's template type writes it. */
  function SpecText(n: nat, unit: TimeUnit): string
  {
    Decimal(n) + Suffix(unit)
  }

  /** Spec text parses back to its number and unit. */
  lemma ParseSpecText(n: nat, unit: TimeUnit)
    ensures ParseSpec(SpecText(n, unit)) == Some((n, unit))
  {
    var s, digits := SpecText(n, unit), Decimal(n);
    DigitsBeforeSuffix(digits, Suffix(unit));
    assert s[..|digits|] == digits && s[|digits|..] == Suffix(unit);
    UnitOfSuffixInverse(unit);
    DecimalRoundTrip(n);
  }

  lemma DigitsBeforeSuffix(digits: string, suffix: string)
    requires |digits| > 0 && forall i :: 0 <= i < |digits| ==> IsDigit(digits[i])
    requires |suffix| > 0 && !IsDigit(suffix[0])
    ensures DigitPrefix(digits + suffix) == |digits|
  {
    var s := digits + suffix;
    assert s[|digits|] == suffix[0];
    assert forall i :: 0 <= i < |digits| ==> s[i] == digits[i];
  }

  /** `"N<unit>"` is `N` of that unit, in milliseconds. */
  lemma FromSpecText(n: nat, unit: TimeUnit)
    ensures FromTimeDurationSpec(Text(SpecText(n, unit))) == Some(n * UnitSize(unit))
  {
    ParseSpecText(n, unit);
  }

  /** `"N<unit>"` is `N` of that unit, in milliseconds and in that unit. */
  lemma ResolveSpecText(n: nat, unit: TimeUnit)
    ensures FromTimeDurationSpec(Text(SpecText(n, unit))) == Some(n * UnitSize(unit))
    ensures ResolveTimeDuration(Text(SpecText(n, unit)), unit) == Some(n as real)
  {
    FromSpecText(n, unit);
    ResolveScaled(Text(SpecText(n, unit)), unit, n * UnitSize(unit), n);
  }

  /** A duration of `q` whole target units resolves to exactly `q`. */
  lemma ResolveScaled(duration: TimeDurationSpec, toUnit: TimeUnit, ms: nat, q: nat)
    requires FromTimeDurationSpec(duration) == Some(ms) && ms == q * UnitSize(toUnit)
    ensures ResolveTimeDuration(duration, toUnit) == Some(q as real)
  {
    RealQuotient(ms, UnitSize(toUnit), q);
  }

  /** Regrouping a product: `x` times `y * z`, kept apart from the rationals of its caller. */
  lemma ScaleSplit(x: int, y: int, z: int, yz: int)
    requires yz == y * z
    ensures x * yz == x * y * z
  {
  }

  /** Conversion to a smaller unit multiplies by the ratio of the sizes, exactly. */
  lemma ResolveWhole(n: nat, unit: TimeUnit, toUnit: TimeUnit, ratio: nat)
    requires UnitSize(unit) == ratio * UnitSize(toUnit)
    ensures ResolveTimeDuration(Text(SpecText(n, unit)), toUnit) == Some((n * ratio) as real)
  {
    FromSpecText(n, unit);
    ScaleSplit(n, ratio, UnitSize(toUnit), UnitSize(unit));
    NonNegativeProduct(n, ratio);
    var q: nat := n * ratio;
    ResolveScaled(Text(SpecText(n, unit)), toUnit, n * UnitSize(unit), q);
  }

  lemma RealQuotient(x: nat, d: nat, q: nat)
    requires d > 0 && x == q * d
    ensures x as real / d as real == q as real
  {
    assert x as real == q as real * d as real;
  }

  /** Decimal numerals of the numbers in the examples below. */
  lemma DecimalExamples()
    ensures Decimal(1) == "1" && Decimal(2) == "2" && Decimal(4) == "4"
    ensures Decimal(12) == "12" && Decimal(14) == "14" && Decimal(60) == "60"
  {
    assert GUtils.DigitValues(1, 10) == [1];
    assert GUtils.DigitValues(2, 10) == [2];
    assert GUtils.DigitValues(4, 10) == [4];
    DecimalOfTwoDigits(12);
    DecimalOfTwoDigits(14);
    DecimalOfTwoDigits(60);
  }

  /** `"14d"` in weeks is 2, and `"4w"` in hours is 672.
      The inputs are parameters pinned by the precondition, so that the
      verifier unfolds the definitions on them step by step instead of
      evaluating them on literals eagerly. */
  lemma ResolveExamples(fortnight: string, month: string)
    requires fortnight == "14d" && month == "4w"
    ensures ResolveTimeDuration(Text(fortnight), W) == Some(2.0)
    ensures ResolveTimeDuration(Text(month), H) == Some(672.0)
  {
    DecimalExamples();
    assert fortnight == SpecText(14, D);
    assert month == SpecText(4, W);
    ResolveWhole(4, W, H, 168);
    FromSpecText(14, D);
    ResolveScaled(Text(fortnight), W, 14 * DAY, 2);
  }

  // ----- Rendering -----------------------------------------------------------

  /** The units of a duration, largest first; every part below its unit's limit
      except the weeks. */
  datatype Breakdown = Breakdown(weeks: nat, days: nat, hours: nat, minutes: nat, seconds: nat, millis: nat)

  function Total(b: Breakdown): nat
  {
    b.weeks * WEEK + b.days * DAY + b.hours * HOUR + b.minutes * MINUTE + b.seconds * SECOND + b.millis
  }

  predicate Normalized(b: Breakdown)
  {
    b.days < 7 && b.hours < 24 && b.minutes < 60 && b.seconds < 60 && b.millis < 1000
  }

  /** The full form's decomposition of `durationInMs`. */
  function Decompose(durationInMs: nat): (b: Breakdown)
  {
    var r1 := durationInMs % WEEK;
    var r2 := r1 % DAY;
    var r3 := r2 % HOUR;
    var r4 := r3 % MINUTE;
    Breakdown(durationInMs / WEEK, r1 / DAY, r2 / HOUR, r3 / MINUTE, r4 / SECOND, r4 % SECOND)
  }

  /** The decomposition adds back up to the duration, and each part is below
      the next unit. */
  lemma DecomposeSum(durationInMs: nat)
    ensures Normalized(Decompose(durationInMs)) && Total(Decompose(durationInMs)) == durationInMs
  {
    var b := Decompose(durationInMs);
    var r1 := durationInMs % WEEK;
    var r2 := r1 % DAY;
    var r3 := r2 % HOUR;
    var r4 := r3 % MINUTE;
    DivMod(durationInMs, WEEK);
    DivMod(r1, DAY);
    DivMod(r2, HOUR);
    DivMod(r3, MINUTE);
    DivMod(r4, SECOND);
    PartBelow(r1, DAY, 7);
    PartBelow(r2, HOUR, 24);
    PartBelow(r3, MINUTE, 60);
    PartBelow(r4, SECOND, 60);
  }

  lemma PartBelow(r: nat, unit: nat, count: nat)
    requires unit > 0 && r < count * unit
    ensures r / unit < count
  {
    DivMod(r, unit);
    if r / unit >= count {
      MulLe(count, r / unit, unit);
    }
  }

  /** No other normalized breakdown has the same total. */
  lemma DecomposeUnique(b: Breakdown)
    requires Normalized(b)
    ensures Decompose(Total(b)) == b
  {
    var t := Total(b);
    var low4 := b.seconds * SECOND + b.millis;
    var low3 := b.minutes * MINUTE + low4;
    var low2 := b.hours * HOUR + low3;
    var low1 := b.days * DAY + low2;
    assert low4 < MINUTE by {
      MulLe(b.seconds, 59, SECOND);
    }
    assert low3 < HOUR by {
      MulLe(b.minutes, 59, MINUTE);
    }
    assert low2 < DAY by {
      MulLe(b.hours, 23, HOUR);
    }
    assert low1 < WEEK by {
      MulLe(b.days, 6, DAY);
    }
    assert t == WEEK * b.weeks + low1;
    DivModUnique(t, WEEK, b.weeks, low1);
    DivModUnique(low1, DAY, b.days, low2);
    DivModUnique(low2, HOUR, b.hours, low3);
    DivModUnique(low3, MINUTE, b.minutes, low4);
    DivModUnique(low4, SECOND, b.seconds, b.millis);
  }

  /** One part of the full form, such as `"12h"`. */
  function Part(count: nat, unit: TimeUnit): (s: string)
    ensures |s| > 0 && ' ' !in s
  {
    var d := Decimal(count);
    assert forall i :: 0 <= i < |d| ==> d[i] != ' ';
    d + Suffix(unit)
  }

  /** The part for `count` of `unit`, or none when `count` is zero. */
  function PartsOf(count: nat, unit: TimeUnit): seq<string>
  {
    if count > 0 then [Part(count, unit)] else []
  }

  /** The parts of `b` that are not zero, largest unit first. */
  function NonZeroParts(b: Breakdown): seq<string>
  {
    PartsOf(b.weeks, W) + PartsOf(b.days, D) + PartsOf(b.hours, H)
    + PartsOf(b.minutes, M) + PartsOf(b.seconds, S) + PartsOf(b.millis, Ms)
  }

  /** The full form of `durationInMs`. */
  function FullString(durationInMs: nat): string
  {
    GUtils.Join(NonZeroParts(Decompose(durationInMs)), " ")
  }

  /** Pieces of the full form: nonempty and without spaces. */
  ghost predicate WellFormedParts(pieces: seq<string>)
  {
    forall i :: 0 <= i < |pieces| ==> |pieces[i]| > 0 && ' ' !in pieces[i]
  }

  lemma WellFormedNonZeroParts(b: Breakdown)
    ensures WellFormedParts(NonZeroParts(b))
  {
    var p1 := PartsOf(b.weeks, W) + PartsOf(b.days, D);
    var p2 := p1 + PartsOf(b.hours, H);
    var p3 := p2 + PartsOf(b.minutes, M);
    var p4 := p3 + PartsOf(b.seconds, S);
    WellFormedConcat(PartsOf(b.weeks, W), PartsOf(b.days, D));
    WellFormedConcat(p1, PartsOf(b.hours, H));
    WellFormedConcat(p2, PartsOf(b.minutes, M));
    WellFormedConcat(p3, PartsOf(b.seconds, S));
    WellFormedConcat(p4, PartsOf(b.millis, Ms));
  }

  /** Only the zero duration has no parts. */
  lemma NoPartsOnlyForZero(b: Breakdown)
    ensures NonZeroParts(b) == [] <==> Total(b) == 0
  {
    NonNegativeProduct(b.weeks, WEEK);
    NonNegativeProduct(b.days, DAY);
    NonNegativeProduct(b.hours, HOUR);
    NonNegativeProduct(b.minutes, MINUTE);
    NonNegativeProduct(b.seconds, SECOND);
    if b.weeks > 0 {
      MulAtLeast(WEEK, b.weeks);
    }
    if b.days > 0 {
      MulAtLeast(DAY, b.days);
    }
    if b.hours > 0 {
      MulAtLeast(HOUR, b.hours);
    }
    if b.minutes > 0 {
      MulAtLeast(MINUTE, b.minutes);
    }
    if b.seconds > 0 {
      MulAtLeast(SECOND, b.seconds);
    }
  }

  lemma WellFormedConcat(a: seq<string>, b: seq<string>)
    requires WellFormedParts(a) && WellFormedParts(b)
    ensures WellFormedParts(a + b)
  {
    forall i | 0 <= i < |a + b|
      ensures |(a + b)[i]| > 0 && ' ' !in (a + b)[i]
    {
      if i >= |a| {
        assert (a + b)[i] == b[i - |a|];
      }
    }
  }

  /** Zero renders as the empty string, and every other duration as a
      nonempty string without a space at either end. */
  lemma FullStringShape(durationInMs: nat)
    ensures durationInMs == 0 <==> FullString(durationInMs) == ""
    ensures |FullString(durationInMs)| > 0 ==>
      FullString(durationInMs)[0] != ' ' && FullString(durationInMs)[|FullString(durationInMs)| - 1] != ' '
  {
    var b := Decompose(durationInMs);
    DecomposeSum(durationInMs);
    WellFormedNonZeroParts(b);
    NoPartsOnlyForZero(b);
    JoinShape(NonZeroParts(b));
  }

  /** Joining nonempty space-free pieces with single spaces. */
  lemma {:induction false} JoinShape(pieces: seq<string>)
    requires WellFormedParts(pieces)
    ensures var s := GUtils.Join(pieces, " ");
      && (|s| == 0 <==> |pieces| == 0)
      && (|s| > 0 ==> s[0] != ' ' && s[|s| - 1] != ' ')
  {
    if |pieces| >= 2 {
      JoinShape(pieces[1..]);
      var s := GUtils.Join(pieces, " ");
      assert s == pieces[0] + " " + GUtils.Join(pieces[1..], " ");
      assert s[0] == pieces[0][0];
    } else if |pieces| == 1 {
      assert ' ' !in pieces[0];
    }
  }

  /** The parts of a duration name it: reading them back gives its breakdown. */
  lemma PartRoundTrip(count: nat, unit: TimeUnit)
    ensures ParseSpec(Part(count, unit)) == Some((count, unit))
  {
    ParseSpecText(count, unit);
  }

  /** One `if (count > 0)` step of the full form: the part after a space, unless
      nothing was written yet. */
  method AppendPart(result: string, count: nat, unit: TimeUnit, ghost pieces: seq<string>)
    returns (r: string, ghost pieces': seq<string>)
    requires WellFormedParts(pieces) && result == GUtils.Join(pieces, " ")
    ensures pieces' == pieces + PartsOf(count, unit)
    ensures WellFormedParts(pieces') && r == GUtils.Join(pieces', " ")
  {
    r, pieces' := result, pieces;
    if count > 0 {
      var separator := if |result| > 0 then " " else "";
      var part := Part(count, unit);
      JoinShape(pieces);
      GUtils.JoinAppend(pieces, part, " ");
      r := result + separator + part;
      pieces' := pieces + [part];
    }
  }

  /** `timeDurationToString`: the duration in one unit, or every nonzero unit
      joined by spaces. */
  method TimeDurationToString(durationInMs: nat, toUnit: Format := Full) returns (s: string)
    requires toUnit.In? ==> durationInMs % UnitSize(toUnit.unit) == 0
    ensures toUnit.In? ==> s == Decimal(durationInMs / UnitSize(toUnit.unit)) + Suffix(toUnit.unit)
    ensures toUnit.Full? ==> s == FullString(durationInMs)
  {
    if toUnit != Full {
      s := Decimal(durationInMs / UnitSize(toUnit.unit)) + Suffix(toUnit.unit);
      return;
    }
    var remainder := durationInMs;
    var weeks := remainder / WEEK;
    remainder := remainder % WEEK;
    var days := remainder / DAY;
    remainder := remainder % DAY;
    var hours := remainder / HOUR;
    remainder := remainder % HOUR;
    var minutes := remainder / MINUTE;
    remainder := remainder % MINUTE;
    var seconds := remainder / SECOND;
    remainder := remainder % SECOND;
    var ms := remainder;
    ghost var b := Breakdown(weeks, days, hours, minutes, seconds, ms);
    assert b == Decompose(durationInMs);
    ghost var pieces: seq<string> := [];
    var result := "";
    result, pieces := AppendPart(result, weeks, W, pieces);
    assert pieces == PartsOf(b.weeks, W);
    result, pieces := AppendPart(result, days, D, pieces);
    result, pieces := AppendPart(result, hours, H, pieces);
    result, pieces := AppendPart(result, minutes, M, pieces);
    result, pieces := AppendPart(result, seconds, S, pieces);
    result, pieces := AppendPart(result, ms, Ms, pieces);
    assert pieces == NonZeroParts(b);
    s := result;
  }

  /** An hour in minutes is `"60m"`; seven and a half days in full is `"1w 12h"`.
      The inputs are parameters pinned by the precondition, so that the
      verifier unfolds the definitions on them step by step instead of
      evaluating them on literals eagerly. */
  lemma RenderExamples(hour: nat, weekAndAHalfDay: nat)
    requires hour == HOUR && weekAndAHalfDay == 7 * DAY + 12 * HOUR
    ensures Decimal(hour / UnitSize(M)) + Suffix(M) == "60m"
    ensures FullString(weekAndAHalfDay) == "1w 12h"
  {
    DecimalExamples();
    assert hour / UnitSize(M) == 60;
    var b := Breakdown(1, 0, 12, 0, 0, 0);
    assert Total(b) == weekAndAHalfDay;
    DecomposeUnique(b);
    assert NonZeroParts(b) == [Part(1, W), Part(12, H)];
    assert GUtils.Join([Part(1, W), Part(12, H)], " ") == Part(1, W) + " " + Part(12, H);
    assert Part(1, W) == "1w" && Part(12, H) == "12h";
  }

  /** A whole number of a unit, rendered in it, reads back as the same duration. */
  lemma SingleUnitRoundTrip(durationInMs: nat, unit: TimeUnit)
    requires durationInMs % UnitSize(unit) == 0
    ensures FromTimeDurationSpec(Text(SpecText(durationInMs / UnitSize(unit), unit))) == Some(durationInMs)
  {
    ResolveSpecText(durationInMs / UnitSize(unit), unit);
    ExactDivision(durationInMs, UnitSize(unit));
  }
}
