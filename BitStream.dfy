/** The logical bitstream of the bit buffers: a sequence of booleans, each byte
    contributing its eight bits most-significant first. */
module BitStream {
  import opened Binary

  /** The low `n` bits of `v`, most-significant first. */
  function ValueBits(v: int, n: nat): (bs: seq<bool>)
    ensures |bs| == n
    decreases n
  {
    if n == 0 then [] else ValueBits(v / 2, n - 1) + [v % 2 == 1]
  }

  /** The unsigned number whose binary digits, most-significant first, are `bs`. */
  function Pack(bs: seq<bool>): (v: nat)
    ensures v < Pow2(|bs|)
  {
    if |bs| == 0 then 0
    else 2 * Pack(bs[..|bs| - 1]) + (if bs[|bs| - 1] then 1 else 0)
  }

  function Zeros(n: nat): (bs: seq<bool>)
    ensures |bs| == n && forall i :: 0 <= i < n ==> !bs[i]
  {
    seq(n, _ => false)
  }

  /** Every byte of `bytes`, in order, as eight bits most-significant first. */
  function BytesToBits(bytes: seq<uint8>): (bs: seq<bool>)
    ensures |bs| == 8 * |bytes|
  {
    if |bytes| == 0 then []
    else BytesToBits(bytes[..|bytes| - 1]) + ValueBits(bytes[|bytes| - 1], 8)
  }

  lemma {:induction false} PackValueBits(v: nat, n: nat)
    ensures Pack(ValueBits(v, n)) == v % Pow2(n)
  {
    if n > 0 {
      var bs := ValueBits(v, n);
      assert bs[..n - 1] == ValueBits(v / 2, n - 1);
      PackValueBits(v / 2, n - 1);
      ModHalves(v, Pow2(n - 1));
    }
  }

  lemma {:induction false} ValueBitsPack(bs: seq<bool>)
    ensures ValueBits(Pack(bs), |bs|) == bs
  {
    if |bs| > 0 {
      var init := bs[..|bs| - 1];
      var p := Pack(bs);
      assert p / 2 == Pack(init) && (p % 2 == 1) == bs[|bs| - 1];
      ValueBitsPack(init);
      assert bs == init + [bs[|bs| - 1]];
    }
  }

  /** Moving a factor of two inside a product, kept apart from the sequences of PackAppend. */
  lemma DoubleProduct(p: int, q: int)
    ensures 2 * (p * q) == p * (2 * q)
  {
  }

  lemma {:induction false} PackAppend(a: seq<bool>, b: seq<bool>)
    ensures Pack(a + b) == Pack(a) * Pow2(|b|) + Pack(b)
  {
    if |b| == 0 {
      assert a + b == a;
    } else {
      var b', last := b[..|b| - 1], b[|b| - 1];
      var ab := a + b;
      assert ab[..|ab| - 1] == a + b' && ab[|ab| - 1] == last;
      PackAppend(a, b');
      var p, q, bit := Pack(a), Pow2(|b'|), if last then 1 else 0;
      calc {
        Pack(ab);
        2 * Pack(a + b') + bit;
        2 * (p * q + Pack(b')) + bit;
        { DoubleProduct(p, q); }
        p * (2 * q) + (2 * Pack(b') + bit);
        p * Pow2(|b|) + Pack(b);
      }
    }
  }

  /** Splitting the low `a + b` bits into the high `a` and the low `b`. */
  lemma {:induction false} ValueBitsSplit(v: int, a: nat, b: nat)
    ensures ValueBits(v, a + b) == ValueBits(v / Pow2(b), a) + ValueBits(v, b)
    decreases b
  {
    if b > 0 {
      var half, bit := v / 2, [v % 2 == 1];
      var high := half / Pow2(b - 1);
      assert high == v / Pow2(b) by {
        DivDiv(v, 2, Pow2(b - 1));
      }
      ValueBitsSplit(half, a, b - 1);
      assert ValueBits(half, a + b - 1) == ValueBits(high, a) + ValueBits(half, b - 1);
      assert ValueBits(v, a + b) == ValueBits(half, a + b - 1) + bit;
      assert ValueBits(v, b) == ValueBits(half, b - 1) + bit;
    }
  }

  /** Only the low `n` bits of `v` matter. */
  lemma {:induction false} ValueBitsMod(v: int, n: nat)
    ensures ValueBits(v % Pow2(n), n) == ValueBits(v, n)
    decreases n
  {
    if n > 0 {
      var p := Pow2(n - 1);
      var r, q, b := v % Pow2(n), (v / 2) % p, v % 2;
      assert r == q * 2 + b by {
        ModHalves(v, p);
      }
      assert r / 2 == q && r % 2 == b by {
        MultipleMod(q, 2, b);
      }
      ValueBitsMod(v / 2, n - 1);
    }
  }

  lemma {:induction false} ValueBitsOfZero(n: nat)
    ensures ValueBits(0, n) == Zeros(n)
  {
    if n > 0 {
      ValueBitsOfZero(n - 1);
    }
  }

  lemma ValueBitsMultiple(v: nat, n: nat)
    requires v % Pow2(n) == 0
    ensures ValueBits(v, n) == Zeros(n)
  {
    ValueBitsMod(v, n);
    ValueBitsOfZero(n);
  }

  /** Two values with the same low `n` bits are equal modulo `2^n`. */
  lemma ValueBitsInjective(x: nat, y: nat, n: nat)
    requires ValueBits(x, n) == ValueBits(y, n)
    ensures x % Pow2(n) == y % Pow2(n)
  {
    PackValueBits(x, n);
    PackValueBits(y, n);
  }

  lemma AppendedEqual(s: seq<bool>, a: seq<bool>, b: seq<bool>, c: seq<bool>)
    requires s == a + b && b == c
    ensures s == a + c
  {
  }

  lemma ExtendStream(a: seq<bool>, b: seq<bool>, c: seq<bool>)
    ensures a + (b + c) == (a + b) + c
  {
  }

  /** Extending by `c` after `a + b` through the intermediate `ab`. */
  lemma Regrouped<T>(whole: seq<T>, ab: seq<T>, a: seq<T>, b: seq<T>, bc: seq<T>, c: seq<T>)
    requires whole == ab + c && ab == a + b && bc == b + c
    ensures whole == a + bc
  {
  }

  lemma {:induction false} BytesToBitsAppend(a: seq<uint8>, b: seq<uint8>)
    ensures BytesToBits(a + b) == BytesToBits(a) + BytesToBits(b)
  {
    if |b| == 0 {
      assert a + b == a;
    } else {
      var b', last := b[..|b| - 1], b[|b| - 1];
      BytesToBitsAppend(a, b');
      InitOfAppend(a, b);
      Regrouped(BytesToBits(a + b), BytesToBits(a + b'), BytesToBits(a), BytesToBits(b'),
                BytesToBits(b), ValueBits(last, 8));
    }
  }

  lemma InitOfAppend<T>(a: seq<T>, b: seq<T>)
    requires |b| > 0
    ensures (a + b)[..|a + b| - 1] == a + b[..|b| - 1] && (a + b)[|a + b| - 1] == b[|b| - 1]
  {
  }

  lemma BytesToBitsAt(bytes: seq<uint8>, i: nat)
    requires i < |bytes|
    ensures BytesToBits(bytes)[8 * i..8 * i + 8] == ValueBits(bytes[i], 8)
  {
    var before, byte, after := bytes[..i], bytes[i], bytes[i + 1..];
    SplitAt(bytes, i);
    BytesToBitsAppend(before + [byte], after);
    BytesToBitsAppend(before, [byte]);
    assert [byte][..0] == [];
    SliceMiddle(BytesToBits(before), ValueBits(byte, 8), BytesToBits(after), 8 * i, 8 * i + 8);
  }

  lemma SplitAt<T>(s: seq<T>, i: nat)
    requires i < |s|
    ensures s == s[..i] + [s[i]] + s[i + 1..]
  {
  }

  /** Distinct byte sequences have distinct bitstreams. */
  lemma {:induction false} BytesToBitsInjective(a: seq<uint8>, b: seq<uint8>)
    requires BytesToBits(a) == BytesToBits(b)
    ensures a == b
  {
    if |a| > 0 {
      var n := |a|;
      var initA, initB := a[..n - 1], b[..n - 1];
      var lastA, lastB := ValueBits(a[n - 1], 8), ValueBits(b[n - 1], 8);
      assert BytesToBits(a) == BytesToBits(initA) + lastA;
      assert BytesToBits(b) == BytesToBits(initB) + lastB;
      assert |BytesToBits(initA)| == |BytesToBits(initB)|;
      assert BytesToBits(initA) == BytesToBits(initB) && lastA == lastB by {
        SplitEqual(BytesToBits(initA), lastA, BytesToBits(initB), lastB);
      }
      BytesToBitsInjective(initA, initB);
      ByteBitsInjective(a[n - 1], b[n - 1]);
      InitLast(a);
      InitLast(b);
    }
  }

  lemma ByteBitsInjective(x: uint8, y: uint8)
    requires ValueBits(x, 8) == ValueBits(y, 8)
    ensures x == y
  {
    ValueBitsInjective(x, y, 8);
    assert Pow2(8) == 0x100 by {
      Pow2Constants();
    }
    SmallMod(x, 0x100);
    SmallMod(y, 0x100);
  }

  lemma SmallMod(x: nat, p: nat)
    requires x < p
    ensures x % p == x
  {
  }

  lemma SliceMiddle<T>(x: seq<T>, y: seq<T>, z: seq<T>, lo: nat, hi: nat)
    requires lo == |x| && hi == lo + |y|
    ensures (x + y + z)[lo..hi] == y
  {
  }

  lemma InitLast<T>(s: seq<T>)
    requires |s| > 0
    ensures s == s[..|s| - 1] + [s[|s| - 1]]
  {
  }

  lemma SplitEqual<T>(x: seq<T>, y: seq<T>, x': seq<T>, y': seq<T>)
    requires x + y == x' + y' && |x| == |x'|
    ensures x == x' && y == y'
  {
    assert x == (x + y)[..|x|] && x' == (x' + y')[..|x'|];
    assert y == (x + y)[|x|..] && y' == (x' + y')[|x'|..];
  }

  /** The low `n` bits of `v` cut after the first `w`: the top `w` of them, then
      the low `n - w`. */
  lemma ValueBitsSlices(v: int, n: nat, w: nat)
    requires w <= n
    ensures ValueBits(v, n)[..w] == ValueBits(v / Pow2(n - w), w)
    ensures ValueBits(v, n)[w..] == ValueBits(v, n - w)
  {
    ValueBitsSplit(v, w, n - w);
  }

  /** A byte's low `8 - c` bits are clear exactly when its last `8 - c` stream
      bits are zeros; its first `c` stream bits are its value shifted down. */
  lemma AlignedByte(byte: nat, c: nat)
    requires c <= 8
    ensures ValueBits(byte, 8)[..c] == ValueBits(byte / Pow2(8 - c), c)
    ensures byte % Pow2(8 - c) == 0 <==> ValueBits(byte, 8)[c..] == Zeros(8 - c)
  {
    ValueBitsSlices(byte, 8, c);
    ValueBitsOfZero(8 - c);
    if byte % Pow2(8 - c) == 0 {
      ValueBitsMultiple(byte, 8 - c);
    }
    if ValueBits(byte, 8 - c) == Zeros(8 - c) {
      ValueBitsInjective(byte, 0, 8 - c);
    }
  }

  /** The stream of `h` followed by `k` more bits `bits`. */
  lemma PlacedBits(h: nat, bits: nat, c: nat, k: nat)
    requires bits < Pow2(k)
    ensures ValueBits(h * Pow2(k) + bits, c + k) == ValueBits(h, c) + ValueBits(bits, k)
  {
    var v := h * Pow2(k) + bits;
    ValueBitsSplit(v, c, k);
    MultipleMod(h, Pow2(k), bits);
    ValueBitsMod(v, k);
  }

  /** The `count` bytes of `v` modulo `2^(8 * count)`, most-significant first. */
  function BigEndian(v: int, count: nat): (bytes: seq<uint8>)
    ensures |bytes| == count
    decreases count
  {
    if count == 0 then [] else BigEndian(v / 0x100, count - 1) + [v % 0x100]
  }

  /** The bits of the big-endian bytes are the low `8 * count` bits of `v`. */
  lemma {:induction false} BigEndianBits(v: int, count: nat)
    ensures BytesToBits(BigEndian(v, count)) == ValueBits(v, 8 * count)
    decreases count
  {
    if count > 0 {
      BigEndianBits(v / 0x100, count - 1);
      BigEndianStep(BigEndian(v / 0x100, count - 1), v, 8 * (count - 1), 8 * count);
    }
  }

  /** Appending the low byte of `v` to bytes holding the low `n` bits of `v / 256`. */
  lemma BigEndianStep(init: seq<uint8>, v: int, n: nat, total: nat)
    requires total == n + 8 && BytesToBits(init) == ValueBits(v / 0x100, n)
    ensures BytesToBits(init + [v % 0x100]) == ValueBits(v, total)
  {
    var bytes := init + [v % 0x100];
    assert bytes[..|bytes| - 1] == init;
    LowByteSplit(v, n);
  }

  /** The low `n + 8` bits of `v`: those of `v / 256`, then its low byte. */
  lemma LowByteSplit(v: int, n: nat)
    ensures ValueBits(v, n + 8) == ValueBits(v / 0x100, n) + ValueBits(v % 0x100, 8)
  {
    Pow2Constants();
    ValueBitsSplit(v, n, 8);
    ValueBitsMod(v, 8);
  }

  /** Bytes are the big-endian bytes of `v` exactly when their bits are the
      low `8 * |bytes|` bits of `v`. */
  lemma BigEndianIff(bytes: seq<uint8>, v: int)
    ensures bytes == BigEndian(v, |bytes|) <==> BytesToBits(bytes) == ValueBits(v, 8 * |bytes|)
  {
    BigEndianBits(v, |bytes|);
    if BytesToBits(bytes) == ValueBits(v, 8 * |bytes|) {
      BytesToBitsInjective(bytes, BigEndian(v, |bytes|));
    }
  }
}
