/** Shared vocabulary of the codec: option/result wrappers, byte values,
    powers of two and the division facts the bit-level proofs rest on. */
module Binary {

  datatype Option<T> = None | Some(value: T)

  datatype Result<T, E> = Ok(value: T) | Err(error: E)

  /** The range of a byte as `Uint8Array` and `DataView.getUint8` see it. */
  type uint8 = x: int | 0 <= x < 0x100

  const TWO_TO_32: nat := 0x1_0000_0000

  function Pow2(n: nat): (r: nat)
    ensures r >= 1
  {
    if n == 0 then 1 else 2 * Pow2(n - 1)
  }

  lemma {:induction false} Pow2Add(a: nat, b: nat)
    ensures Pow2(a + b) == Pow2(a) * Pow2(b)
  {
    if b > 0 {
      Pow2Add(a, b - 1);
      assert Pow2(a + b) == 2 * Pow2(a + b - 1);
      assert Pow2(a) * Pow2(b) == 2 * (Pow2(a) * Pow2(b - 1));
    }
  }

  lemma {:induction false} Pow2Monotone(a: nat, b: nat)
    requires a <= b
    ensures Pow2(a) <= Pow2(b)
  {
    if a < b {
      Pow2Monotone(a, b - 1);
    }
  }

  lemma Pow2Constants()
    ensures Pow2(4) == 16 && Pow2(8) == 0x100 && Pow2(16) == 0x1_0000
    ensures Pow2(24) == 0x100_0000 && Pow2(32) == TWO_TO_32
  {
    Pow2Add(8, 8);
    Pow2Add(16, 8);
    Pow2Add(16, 16);
  }

  lemma Pow2Below32(k: nat)
    requires k < 32
    ensures Pow2(k) < TWO_TO_32
  {
    Pow2Monotone(k, 31);
    Pow2Constants();
    assert Pow2(32) == 2 * Pow2(31);
  }

  lemma DivAtMost(x: nat, d: nat)
    requires d > 0
    ensures 0 <= x / d <= x
  {
    var q := x / d;
    DivMod(x, d);
    assert d * q == q + (d - 1) * q;
    NonNegativeProduct(d - 1, q);
  }

  /** Euclidean division is determined by any quotient/remainder pair. */
  lemma DivModUnique(x: int, d: int, q: int, r: int)
    requires d > 0 && 0 <= r < d && x == d * q + r
    ensures x / d == q && x % d == r
  {
    var q0, r0 := x / d, x % d;
    assert x == d * q0 + r0;
    assert d * (q - q0) == r0 - r;
    if q0 < q {
      MulAtLeast(d, q - q0);
    } else if q < q0 {
      MulAtLeast(d, q0 - q);
    }
  }

  lemma DivMod(x: int, d: int)
    requires d > 0
    ensures x == d * (x / d) + x % d && 0 <= x % d < d
  {
  }

  lemma ExactDivision(x: int, d: int)
    requires d > 0 && x % d == 0
    ensures x == (x / d) * d
  {
    DivMod(x, d);
  }

  lemma NonNegativeProduct(a: nat, b: int)
    requires b >= 0
    ensures a * b >= 0
  {
  }

  lemma MulAtLeast(d: int, k: int)
    requires d > 0 && k >= 1
    ensures d * k >= d
  {
  }

  lemma MulAtLeastSelf(x: nat, p: nat)
    requires p >= 1
    ensures x <= x * p
  {
    NonNegativeProduct(x, p - 1);
    assert x * p == x * (p - 1) + x;
  }

  lemma MulBelow(a: int, r: int, b: int)
    requires a > 0 && 0 <= r < b
    ensures a * r <= a * b - a
  {
    assert a * b - a * r == a * (b - r);
    MulAtLeast(a, b - r);
  }

  lemma DivDiv(x: int, a: nat, b: nat)
    requires a > 0 && b > 0
    ensures a * b > 0 && x / a / b == x / (a * b)
  {
    var q1, r1 := x / a, x % a;
    var q2, r2 := q1 / b, q1 % b;
    MulAtLeast(a, b);
    MulBelow(a, r2, b);
    assert x == (a * b) * q2 + (a * r2 + r1) by {
      assert x == a * q1 + r1;
      assert q1 == b * q2 + r2;
      assert a * q1 == a * (b * q2) + a * r2;
      assert a * (b * q2) == (a * b) * q2;
    }
    DivModUnique(x, a * b, q2, a * r2 + r1);
  }

  lemma ModMod(x: int, a: nat, b: nat)
    requires a > 0 && b > 0
    ensures a * b > 0 && (x % (a * b)) % a == x % a
  {
    MulAtLeast(a, b);
    var q, r := x / (a * b), x % (a * b);
    var q', r' := r / a, r % a;
    assert x == a * (b * q + q') + r' by {
      assert x == (a * b) * q + r;
      assert r == a * q' + r';
      assert (a * b) * q == a * (b * q);
    }
    DivModUnique(x, a, b * q + q', r');
  }

  /** The remainder modulo `b * p` from the lowest digit in base `b` and the rest. */
  lemma ModSplit(x: int, b: nat, p: nat)
    requires b > 0 && p > 0
    ensures b * p > 0 && x % (b * p) == b * ((x / b) % p) + x % b
  {
    MulAtLeast(b, p);
    var q, r := x / b, x % b;
    var q', r' := q / p, q % p;
    MulBelow(b, r', p);
    assert x == (b * p) * q' + (b * r' + r) by {
      assert x == b * q + r;
      assert q == p * q' + r';
      assert b * q == b * (p * q') + b * r';
      assert b * (p * q') == (b * p) * q';
    }
    DivModUnique(x, b * p, q', b * r' + r);
  }

  /** Halving and re-doubling: the low bit plus twice the rest, taken modulo 2P. */
  lemma ModHalves(x: int, p: nat)
    requires p > 0
    ensures x % (2 * p) == 2 * ((x / 2) % p) + x % 2
  {
    ModSplit(x, 2, p);
  }

  /** `Pow2(n)` divides every multiple of it with remainder zero. */
  lemma MultipleMod(h: nat, p: nat, c: nat)
    requires p > 0 && c < p
    ensures (h * p + c) / p == h && (h * p + c) % p == c
  {
    DivModUnique(h * p + c, p, h, c);
  }

  lemma MulLe(x: nat, y: nat, b: nat)
    requires x <= y
    ensures x * b <= y * b
  {
  }

  lemma ScaledBelow(x: nat, bound: nat, p: nat, total: nat)
    requires x < bound && p > 0 && bound * p == total
    ensures x * p < total
  {
  }

  lemma AppendBound(h: nat, bits: nat, c: nat, k: nat)
    requires h < Pow2(c) && bits < Pow2(k)
    ensures 0 <= h * Pow2(k) + bits < Pow2(c + k)
  {
    Pow2Add(c, k);
    MulLe(h + 1, Pow2(c), Pow2(k));
  }
}
