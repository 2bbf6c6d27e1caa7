/**
 Powers of two, bit lengths and dyadic scaling.

 The softfloat code works on machine words and shifts; this model works on unbounded integers,
 so `x << k` is `x * Pow2(k)`, `x >> k` is `x / Pow2(k)` and masking the low `k` bits is
 `x % Pow2(k)`.  An unpacked significand `n` at exponent `g` stands for the real number
 `Scale(n, g)`, which is n * 2^g.
 */
module Powers {

  function Pow2(n: nat): (p: nat)
    ensures p >= 1
  {
    if n == 0 then 1 else 2 * Pow2(n - 1)
  }

  lemma {:induction false} Pow2Add(a: nat, b: nat)
    ensures Pow2(a + b) == Pow2(a) * Pow2(b)
  {
    if a == 0 {
    } else {
      Pow2Add(a - 1, b);
      assert Pow2(a + b) == 2 * Pow2(a - 1 + b);
      MulAssoc(2, Pow2(a - 1), Pow2(b));
    }
  }

  lemma {:induction false} Pow2Monotone(a: nat, b: nat)
    requires a <= b
    ensures Pow2(a) <= Pow2(b)
  {
    if a < b {
      Pow2Monotone(a, b - 1);
    }
  }

  lemma Pow2Double(k: nat)
    ensures Pow2(k + 1) == 2 * Pow2(k)
  {
  }

  lemma Pow2Small()
    ensures Pow2(0) == 1 && Pow2(1) == 2 && Pow2(2) == 4 && Pow2(3) == 8
  {
    assert Pow2(2) == 2 * Pow2(1);
  }

  // ----- elementary facts about products and quotients -----

  lemma MulAssoc(a: int, b: int, c: int)
    ensures (a * b) * c == a * (b * c)
  {
  }

  lemma MulMonotone(a: int, b: int, c: int)
    requires a <= b && 0 <= c
    ensures a * c <= b * c
  {
  }

  lemma ProductPositiveNat(a: nat, b: nat)
    requires a > 0 && b > 0
    ensures a * b > 0
  {
  }

  /** Quotient and remainder are determined by the decomposition they come from. */
  lemma DivModUnique(n: int, d: int, q: int, r: int)
    requires d > 0 && n == q * d + r && 0 <= r < d
    ensures n / d == q && n % d == r
  {
    var q', r' := n / d, n % d;
    assert n == q' * d + r';
    if q' < q {
      MulMonotone(q' + 1, q, d);
      assert false;
    } else if q < q' {
      MulMonotone(q + 1, q', d);
      assert false;
    }
  }

  /** The quotient is the largest multiple that fits. */
  lemma DivBounds(n: int, d: int)
    requires d > 0
    ensures n == (n / d) * d + n % d
    ensures (n / d) * d <= n < (n / d + 1) * d
  {
  }

  lemma DivLess(n: int, d: int, q: int)
    requires d > 0 && n < q * d
    ensures n / d < q
  {
    DivBounds(n, d);
    if q <= n / d {
      MulMonotone(q, n / d, d);
    }
  }

  lemma DivAtLeast(n: int, d: int, q: int)
    requires d > 0 && q * d <= n
    ensures q <= n / d
  {
    DivBounds(n, d);
    if n / d < q {
      MulMonotone(n / d + 1, q, d);
    }
  }

  /** Scaling a number and its modulus scales its residue. */
  lemma ResidueOfScaled(n: nat, d: nat, scale: nat)
    requires d > 0 && scale > 0
    ensures d * scale > 0
    ensures n * scale % (d * scale) == n % d * scale
  {
    var q, r := n / d, n % d;
    DivBounds(n, d);
    ScaledSplit(n, q, d, r, scale);
    DivModUnique(n * scale, d * scale, q, r * scale);
  }

  lemma ScaledSplit(n: nat, q: nat, d: nat, r: nat, scale: nat)
    requires n == q * d + r && r < d && scale > 0
    ensures n * scale == q * (d * scale) + r * scale
    ensures r * scale < d * scale
  {
    assert (q * d + r) * scale == q * d * scale + r * scale;
    MulAssoc(q, d, scale);
    MulMonotone(r + 1, d, scale);
    assert (r + 1) * scale == r * scale + scale;
  }

  // ----- shifts -----

  function DivideNat(n: nat, d: nat): nat
    requires d > 0
  {
    n / d
  }

  /** `n >> k`. */
  function ShiftRight(n: nat, k: nat): nat {
    DivideNat(n, Pow2(k))
  }

  /** The `k` low bits of `n`, which a right shift by `k` discards. */
  function LowBits(n: nat, k: nat): nat {
    n % Pow2(k)
  }

  lemma ShiftSplit(n: nat, k: nat)
    ensures n == ShiftRight(n, k) * Pow2(k) + LowBits(n, k)
    ensures LowBits(n, k) < Pow2(k)
    ensures n < (ShiftRight(n, k) + 1) * Pow2(k)
  {
    hide Pow2;
    DivBounds(n, Pow2(k));
  }

  lemma ShiftedBelow(n: nat, k: nat, m: nat)
    requires n < Pow2(m + k)
    ensures ShiftRight(n, k) < Pow2(m)
  {
    hide Pow2;
    Pow2Add(m, k);
    DivLess(n, Pow2(k), Pow2(m));
  }

  lemma RaisedBelow(n: nat, k: nat, m: nat)
    requires n < Pow2(m)
    ensures n * Pow2(k) < Pow2(m + k)
  {
    hide Pow2;
    Pow2Add(m, k);
    MulMonotone(n + 1, Pow2(m), Pow2(k));
    assert (n + 1) * Pow2(k) == n * Pow2(k) + Pow2(k);
  }

  lemma LowBitsOfSmall(n: nat, k: nat)
    requires n < Pow2(k)
    ensures LowBits(n, k) == n
  {
    hide Pow2;
    DivModUnique(n, Pow2(k), 0, n);
  }

  // ----- bit length -----

  /** The number of significant bits: the word size less `leading_zeros`. */
  function BitLength(n: nat): (k: nat)
    ensures k == 0 <==> n == 0
  {
    if n == 0 then 0 else 1 + BitLength(n / 2)
  }

  lemma {:induction false} BitLengthBounds(n: nat)
    requires n > 0
    ensures Pow2(BitLength(n) - 1) <= n < Pow2(BitLength(n))
  {
    if n > 1 {
      BitLengthBounds(n / 2);
    }
  }

  lemma BitLengthUnique(n: nat, k: nat)
    requires Pow2(k) <= n < Pow2(k + 1)
    ensures BitLength(n) == k + 1
  {
    BitLengthBounds(n);
    if BitLength(n) <= k {
      Pow2Monotone(BitLength(n), k);
    } else if BitLength(n) > k + 1 {
      Pow2Monotone(k + 1, BitLength(n) - 1);
    }
  }

  lemma {:induction false} BitLengthMonotone(a: nat, b: nat)
    requires a <= b
    ensures BitLength(a) <= BitLength(b)
  {
    if a > 0 {
      BitLengthMonotone(a / 2, b / 2);
    }
  }

  ghost predicate IsPowerOfTwo(n: nat) {
    exists j: nat :: n == Pow2(j)
  }

  /** Adding one reaches a new leading bit exactly when it produces a power of two. */
  lemma NewLeadingBit(n: nat)
    ensures BitLength(n) < BitLength(n + 1) <==> IsPowerOfTwo(n + 1)
  {
    BitLengthBounds(n + 1);
    if n > 0 {
      BitLengthBounds(n);
    }
    if BitLength(n) < BitLength(n + 1) {
      var j := BitLength(n + 1) - 1;
      Pow2Monotone(BitLength(n), j);
      assert n + 1 == Pow2(j);
    }
    if IsPowerOfTwo(n + 1) {
      var j: nat :| n + 1 == Pow2(j);
      BitLengthUnique(n + 1, j);
      if BitLength(n) >= BitLength(n + 1) {
        Pow2Monotone(j, BitLength(n) - 1);
        assert false;
      }
    }
  }

  // ----- real powers and dyadic numbers -----

  /** 2^e for a positive, zero or negative exponent. */
  ghost function Pow2R(e: int): (r: real)
    ensures r > 0.0
    decreases if e < 0 then -e else e
  {
    if e == 0 then 1.0 else if e > 0 then 2.0 * Pow2R(e - 1) else Pow2R(e + 1) / 2.0
  }

  lemma Pow2RZero()
    ensures Pow2R(0) == 1.0
  {
  }

  lemma Pow2RStep(e: int)
    ensures Pow2R(e + 1) == 2.0 * Pow2R(e)
  {
  }

  lemma {:induction false} Pow2RNat(e: int, k: nat)
    ensures Pow2R(e + k) == Pow2(k) as real * Pow2R(e)
    decreases k
  {
    if k > 0 {
      Pow2RNat(e, k - 1);
      Pow2RStep(e + k - 1);
      RealMulAssoc(2.0, Pow2(k - 1) as real, Pow2R(e));
    }
  }

  lemma Pow2RAdd(a: int, b: int)
    ensures Pow2R(a + b) == Pow2R(a) * Pow2R(b)
  {
    Pow2RZero();
    hide Pow2R;
    if b >= 0 {
      Pow2RNat(a, b);
      Pow2RNat(0, b);
    } else {
      Pow2RNat(a + b, -b);
      Pow2RNat(b, -b);
      CancelFactor(Pow2R(a), Pow2R(b), Pow2R(a + b), Pow2(-b) as real);
    }
  }

  lemma CancelFactor(x: real, y: real, z: real, k: real)
    requires x == k * z && 1.0 == k * y
    ensures z == x * y
  {
    RealRotate(k, z, y);
  }

  lemma {:induction false} Pow2RMonotone(a: int, b: int)
    requires a <= b
    ensures Pow2R(a) <= Pow2R(b)
    decreases b - a
  {
    if a < b {
      Pow2RMonotone(a, b - 1);
      Pow2RStep(b - 1);
    }
  }

  lemma Pow2ROrder(a: int, b: int)
    ensures a < b <==> Pow2R(a) < Pow2R(b)
  {
    hide Pow2R;
    if a < b {
      Pow2RMonotone(a + 1, b);
      Pow2RStep(a);
    } else {
      Pow2RMonotone(b, a);
    }
  }

  lemma RealMulAssoc(a: real, b: real, c: real)
    ensures (a * b) * c == a * (b * c)
  {
  }

  lemma RealMulStrict(a: real, b: real, c: real)
    requires a < b && 0.0 < c
    ensures a * c < b * c
  {
  }

  /** n * 2^g. */
  ghost function Scale(n: int, g: int): real {
    n as real * Pow2R(g)
  }

  lemma ScaleOne(g: int)
    ensures Scale(1, g) == Pow2R(g)
  {
  }

  lemma ScaleOrder(a: int, b: int, g: int)
    ensures a < b <==> Scale(a, g) < Scale(b, g)
    ensures a == b <==> Scale(a, g) == Scale(b, g)
  {
    if a < b {
      RealMulStrict(a as real, b as real, Pow2R(g));
    } else if b < a {
      RealMulStrict(b as real, a as real, Pow2R(g));
    }
  }

  lemma ScaleZero(g: int)
    ensures Scale(0, g) == 0.0
  {
  }

  lemma ScalePositive(n: nat, g: int)
    requires n > 0
    ensures Scale(n, g) > 0.0
  {
    ScaleZero(g);
    ScaleOrder(0, n, g);
  }

  lemma ScaleAdd(a: int, b: int, g: int)
    ensures Scale(a, g) + Scale(b, g) == Scale(a + b, g)
    ensures Scale(a, g) - Scale(b, g) == Scale(a - b, g)
  {
    RealDistribute(a as real, b as real, Pow2R(g));
    assert (a + b) as real == a as real + b as real;
    assert (a - b) as real == a as real - b as real;
  }

  lemma RealDistribute(a: real, b: real, c: real)
    ensures (a + b) * c == a * c + b * c
    ensures (a - b) * c == a * c - b * c
  {
  }

  /** Shifting the integer left and lowering the exponent cancel. */
  lemma ScaleShift(n: int, k: nat, g: int)
    ensures Scale(n * Pow2(k), g) == Scale(n, g + k)
  {
    Pow2RNat(g, k);
    assert (n * Pow2(k)) as real == n as real * Pow2(k) as real;
    RealMulAssoc(n as real, Pow2(k) as real, Pow2R(g));
  }

  lemma ScaleMul(a: int, b: int, g: int, h: int)
    ensures Scale(a, g) * Scale(b, h) == Scale(a * b, g + h)
  {
    hide Pow2R;
    Pow2RAdd(g, h);
    RealProduct(a, b);
    RealMulSwap(a as real, Pow2R(g), b as real, Pow2R(h), Scale(a, g), Scale(b, h),
                (a * b) as real, Pow2R(g + h));
  }

  lemma RealProduct(a: int, b: int)
    ensures (a * b) as real == a as real * b as real
  {
  }

  /** (x p)(y q) == (x y)(p q), with each product named. */
  lemma RealMulSwap(x: real, p: real, y: real, q: real, xp: real, yq: real, xy: real, pq: real)
    requires xp == x * p && yq == y * q && xy == x * y && pq == p * q
    ensures xp * yq == xy * pq
  {
    RealMulAssoc(x, p, yq);
    RealRotate(p, y, q);
    RealMulAssoc(x, y, pq);
  }

  lemma RealRotate(a: real, b: real, c: real)
    ensures a * (b * c) == b * (a * c)
  {
    RealMulAssoc(a, b, c);
    RealMulAssoc(b, a, c);
  }
}
