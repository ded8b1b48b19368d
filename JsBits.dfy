/** JavaScript's 32-bit operators on integral numbers, as the buffers use them.
    Every result is the unsigned 32-bit pattern of the operator's result: `<<`
    and `|` produce a signed 32-bit integer in JavaScript, whose bit pattern is
    what the buffers store or later turn unsigned with `>>> 0`. */
module JsBits {
  import opened Binary
  import opened BitStream

  /** ToUint32 of an integral number: its residue modulo 2^32. */
  function ToUint32(x: int): (r: nat)
    ensures r < TWO_TO_32
    ensures 0 <= x < TWO_TO_32 ==> r == x
  {
    x % TWO_TO_32
  }

  /** `x << s` for a shift count below 32. */
  function ShiftLeft(x: int, s: nat): (r: nat)
    requires s < 32
    ensures r < TWO_TO_32
  {
    (ToUint32(x) * Pow2(s)) % TWO_TO_32
  }

  /** `x >>> s` for a shift count below 32. */
  function UnsignedShiftRight(x: int, s: nat): (r: nat)
    requires s < 32
    ensures r <= ToUint32(x)
  {
    var u, p := ToUint32(x), Pow2(s);
    DivAtMost(u, p);
    u / p
  }

  /** Bitwise `&` of two bit patterns. */
  function And(x: nat, y: nat): (r: nat)
    ensures r <= x && r <= y
  {
    if x == 0 || y == 0 then 0
    else 2 * And(x / 2, y / 2) + (if x % 2 == 1 && y % 2 == 1 then 1 else 0)
  }

  /** Bitwise `|` of two bit patterns. */
  function Or(x: nat, y: nat): (r: nat)
    ensures r >= x && r >= y
    decreases x + y
  {
    if x == 0 && y == 0 then 0
    else 2 * Or(x / 2, y / 2) + (if x % 2 == 1 || y % 2 == 1 then 1 else 0)
  }

  /** Masking with `2^k - 1` keeps the low `k` bits. */
  lemma {:induction false} AndLowMask(x: nat, k: nat)
    ensures And(x, Pow2(k) - 1) == x % Pow2(k)
  {
    if k == 0 {
      assert Pow2(k) - 1 == 0;
      assert And(x, 0) == 0;
    } else if x == 0 {
      assert And(x, Pow2(k) - 1) == 0;
    } else {
      var p := Pow2(k - 1);
      AndLowMask(x / 2, k - 1);
      AndOddMask(x, Pow2(k) - 1, p);
      ModHalves(x, p);
      assert x % Pow2(k) == 2 * ((x / 2) % p) + x % 2;
    }
  }

  /** One step of `&` with an all-ones mask: the low bit survives, the rest recurses. */
  lemma AndOddMask(x: nat, mask: nat, p: nat)
    requires p >= 1 && x != 0 && mask == 2 * p - 1
    ensures And(x, mask) == 2 * And(x / 2, p - 1) + x % 2
  {
    assert mask / 2 == p - 1 && mask % 2 == 1 by {
      DivModUnique(mask, 2, p - 1, 1);
    }
  }

  /** `|` of a value whose low `k` bits are clear with a value below `2^k` is a sum. */
  lemma {:induction false} OrDisjoint(h: nat, c: nat, k: nat)
    requires c < Pow2(k)
    ensures Or(h * Pow2(k), c) == h * Pow2(k) + c
  {
    if k == 0 {
      OrZero(h);
    } else {
      var x := h * Pow2(k);
      assert x == 2 * (h * Pow2(k - 1));
      if x != 0 || c != 0 {
        OrDisjoint(h, c / 2, k - 1);
      }
    }
  }

  lemma {:induction false} OrZero(x: nat)
    ensures Or(x, 0) == x
  {
    if x != 0 {
      OrZero(x / 2);
    }
  }

  lemma ShiftLeftExact(x: nat, s: nat)
    requires s < 32 && x * Pow2(s) < TWO_TO_32
    ensures ShiftLeft(x, s) == x * Pow2(s)
  {
    var p := Pow2(s);
    MulAtLeastSelf(x, p);
    assert ToUint32(x) == x;
    SmallMod(x * p, TWO_TO_32);
  }

  /** ToUint32 keeps the low `n <= 32` bits. */
  lemma ToUint32LowBits(x: int, n: nat)
    requires n <= 32
    ensures ToUint32(x) % Pow2(n) == x % Pow2(n)
  {
    Pow2Constants();
    Pow2Add(n, 32 - n);
    ModMod(x, Pow2(n), Pow2(32 - n));
  }

  /** `(x >>> s) & ((1 << k) - 1)`: the `k` bits of `x` just above its low `s` bits. */
  lemma MaskedChunk(x: int, s: nat, k: nat)
    requires s < 32 && k < 32
    ensures ShiftLeft(1, k) == Pow2(k)
    ensures And(UnsignedShiftRight(x, s), ShiftLeft(1, k) - 1) == (ToUint32(x) / Pow2(s)) % Pow2(k)
  {
    Pow2Below32(k);
    ShiftLeftExact(1, k);
    var y := UnsignedShiftRight(x, s);
    assert And(y, Pow2(k) - 1) == y % Pow2(k) by {
      AndLowMask(y, k);
    }
  }

  /** `x >>> 0` of a 32-bit pattern is the pattern itself. */
  lemma UnsignedShiftRightZero(x: nat)
    requires x < TWO_TO_32
    ensures UnsignedShiftRight(x, 0) == x
  {
  }

  /** The low `n <= 32` bits of a number are those of its 32-bit pattern. */
  lemma ValueBitsUint32(x: int, n: nat)
    requires n <= 32
    ensures ValueBits(ToUint32(x), n) == ValueBits(x, n)
  {
    ToUint32LowBits(x, n);
    ValueBitsMod(ToUint32(x), n);
    ValueBitsMod(x, n);
  }

  /** `(x >>> shift) & ((1 << k) - 1)`, the bit-field read both bit buffers make:
      the first `k` of the low `shift + k` bits of `x`, as a number. */
  method BitField(x: int, shift: nat, k: nat) returns (r: nat)
    requires shift + k <= 32 && shift < 32 && k < 32
    ensures r < Pow2(k)
    ensures ValueBits(r, k) == ValueBits(x, shift + k)[..k]
  {
    MaskedChunk(x, shift, k);
    var bitMask := ShiftLeft(1, k) - 1;
    r := And(UnsignedShiftRight(x, shift), bitMask);
    FieldBits(x, shift, k);
  }

  lemma FieldBits(x: int, shift: nat, k: nat)
    requires shift + k <= 32
    ensures (ToUint32(x) / Pow2(shift)) % Pow2(k) < Pow2(k)
    ensures ValueBits((ToUint32(x) / Pow2(shift)) % Pow2(k), k) == ValueBits(x, shift + k)[..k]
  {
    var u := ToUint32(x);
    DivMod(u / Pow2(shift), Pow2(k));
    ValueBitsMod(u / Pow2(shift), k);
    ValueBitsSlices(u, shift + k, k);
    ValueBitsUint32(x, shift + k);
  }

  // ----- Appending bits with `|` ----------------------------------------------

  /** A value of at most `n` bits, shifted by `offset`, with `n + offset <= 32`. */
  lemma ShiftFits(x: nat, n: nat, offset: nat)
    requires x < Pow2(n) && n + offset <= 32
    ensures x * Pow2(offset) < TWO_TO_32
  {
    Pow2Add(n, offset);
    ScaledBelow(x, Pow2(n), Pow2(offset), Pow2(n + offset));
    Pow2Monotone(n + offset, 32);
    Pow2Constants();
  }

  /** The step both bit buffers take, in stream form: `result` holds the bits `prefix`
      read so far at the top of its low `n` bits, the next bits `chunk` are
      `value`, and `|`-ing in `value << offset` appends them. */
  lemma OrAppend(result: nat, prefix: seq<bool>, chunk: seq<bool>, value: nat, offset: nat, n: nat)
    requires n == |prefix| + |chunk| + offset && n <= 32 && offset < 32
    requires result < Pow2(n) && ValueBits(result, n) == prefix + Zeros(|chunk| + offset)
    requires value < Pow2(|chunk|) && ValueBits(value, |chunk|) == chunk
    ensures Or(result, ShiftLeft(value, offset)) < Pow2(n)
    ensures ValueBits(Or(result, ShiftLeft(value, offset)), n) == prefix + chunk + Zeros(offset)
  {
    ShiftedChunk(value, |chunk|, offset);
    OrShifted(result, prefix, chunk, ShiftLeft(value, offset), offset, n);
  }

  /** `OrAppend` with the chunk already shifted into place as `y`. */
  lemma OrShifted(result: nat, prefix: seq<bool>, chunk: seq<bool>, y: nat, offset: nat, n: nat)
    requires n == |prefix| + |chunk| + offset
    requires result < Pow2(n) && ValueBits(result, n) == prefix + Zeros(|chunk| + offset)
    requires y < Pow2(|chunk| + offset)
    requires ValueBits(y, |chunk| + offset) == chunk + Zeros(offset)
    ensures Or(result, y) < Pow2(n)
    ensures ValueBits(Or(result, y), n) == prefix + chunk + Zeros(offset)
  {
    var m := |chunk| + offset;
    SameWidth(result, n, |prefix| + m, prefix + Zeros(m));
    DisjointOr(result, prefix, y, m);
    SameWidth(Or(result, y), |prefix| + m, n, prefix + ValueBits(y, m));
    assert prefix + (chunk + Zeros(offset)) == prefix + chunk + Zeros(offset);
  }

  /** A width given by two equal expressions. */
  lemma SameWidth(x: nat, n: nat, w: nat, bits: seq<bool>)
    requires n == w && x < Pow2(n) && ValueBits(x, n) == bits
    ensures x < Pow2(w) && ValueBits(x, w) == bits
  {
  }

  /** `value << offset` for a `k`-bit value that still fits in 32 bits: the
      value's bits followed by `offset` zeros. */
  lemma ShiftedChunk(value: nat, k: nat, offset: nat)
    requires value < Pow2(k) && k + offset <= 32 && offset < 32
    ensures ShiftLeft(value, offset) < Pow2(k + offset)
    ensures ValueBits(ShiftLeft(value, offset), k + offset) == ValueBits(value, k) + Zeros(offset)
  {
    ShiftFits(value, k, offset);
    ShiftLeftExact(value, offset);
    ShiftedBits(value, k, offset);
  }

  /** `|` of a value whose low `m` bits are clear with a value below `2^m`
      puts the second's bits in place of the zeros. */
  lemma DisjointOr(x: nat, prefix: seq<bool>, y: nat, m: nat)
    requires x < Pow2(|prefix| + m) && ValueBits(x, |prefix| + m) == prefix + Zeros(m)
    requires y < Pow2(m)
    ensures Or(x, y) < Pow2(|prefix| + m)
    ensures ValueBits(Or(x, y), |prefix| + m) == prefix + ValueBits(y, m)
  {
    var t := |prefix|;
    ClearLowBits(x, prefix, m);
    var acc: nat := x / Pow2(m);
    var z := acc * Pow2(m) + y;
    OrDisjoint(acc, y, m);
    PlacedBits(acc, y, t, m);
    AppendBound(acc, y, t, m);
    OrPlaced(x, y, acc * Pow2(m), z, ValueBits(y, m), prefix, m);
  }

  lemma OrPlaced(x: nat, y: nat, scaled: nat, z: nat, low: seq<bool>, prefix: seq<bool>, m: nat)
    requires x == scaled && Or(scaled, y) == z
    requires z < Pow2(|prefix| + m) && ValueBits(z, |prefix| + m) == prefix + low
    ensures Or(x, y) < Pow2(|prefix| + m) && ValueBits(Or(x, y), |prefix| + m) == prefix + low
  {
  }

  /** A value whose low `m` of `|prefix| + m` bits are clear is its top part,
      with bits `prefix`, scaled by `2^m`. */
  lemma ClearLowBits(result: nat, prefix: seq<bool>, m: nat)
    requires result < Pow2(|prefix| + m) && ValueBits(result, |prefix| + m) == prefix + Zeros(m)
    ensures result == (result / Pow2(m)) * Pow2(m)
    ensures result / Pow2(m) < Pow2(|prefix|) && ValueBits(result / Pow2(m), |prefix|) == prefix
  {
    var t := |prefix|;
    ValueBitsSlices(result, t + m, t);
    assert ValueBits(result, m) == ValueBits(0, m) by {
      ValueBitsOfZero(m);
    }
    ValueBitsInjective(result, 0, m);
    ExactDivision(result, Pow2(m));
    Pow2Add(t, m);
    if result / Pow2(m) >= Pow2(t) {
      MulLe(Pow2(t), result / Pow2(m), Pow2(m));
    }
  }

  /** Scaling a value of `a` bits by `2^s` appends `s` zero bits. */
  lemma ShiftedBits(w: nat, a: nat, s: nat)
    requires w < Pow2(a)
    ensures w * Pow2(s) < Pow2(a + s)
    ensures ValueBits(w * Pow2(s), a + s) == ValueBits(w, a) + Zeros(s)
  {
    var v := w * Pow2(s);
    Pow2Add(a, s);
    ScaledBelow(w, Pow2(a), Pow2(s), Pow2(a + s));
    ValueBitsSplit(v, a, s);
    MultipleMod(w, Pow2(s), 0);
    ValueBitsMultiple(v, s);
  }
}
