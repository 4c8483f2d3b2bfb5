/**
 * Non-negative IEEE 754 binary64 arithmetic, exactly as far as Python's
 * `int(p * 0.01 * d)` needs it: converting an integer to a double, one
 * multiplication, both rounded to nearest with ties to even, and the
 * truncation of `int()`. The exponent range is unbounded: there is no
 * overflow to infinity and no subnormal number.
 */
module Binary64 {

  /** The value `significand * 2^exponent`; rounding leaves at most 53 significant bits. */
  datatype Double = Double(significand: nat, exponent: int)

  function Pow2(k: nat): (r: nat)
    ensures r >= 1
  {
    if k == 0 then 1 else 2 * Pow2(k - 1)
  }

  lemma {:induction false} Pow2Add(a: nat, b: nat)
    ensures Pow2(a + b) == Pow2(a) * Pow2(b)
  {
    if a > 0 {
      Pow2Add(a - 1, b);
      assert Pow2(a + b) == 2 * (Pow2(a - 1) * Pow2(b));
    }
  }

  lemma {:induction false} Pow2Le(a: nat, b: nat)
    requires a <= b
    ensures Pow2(a) <= Pow2(b)
  {
    if a < b {
      Pow2Le(a, b - 1);
    }
  }

  /** The first half of `Pow2Table`'s evaluation, the powers up to `2^48`, kept apart to keep each proof small. */
  lemma Pow2Low()
    ensures Pow2(4) == 16 && Pow2(5) == 32 && Pow2(6) == 64 && Pow2(7) == 128 && Pow2(8) == 256
    ensures Pow2(46) == 70368744177664
    ensures Pow2(48) == 281474976710656
  {
    assert Pow2(8) == 256;
    Pow2Add(8, 8);
    assert Pow2(16) == 65536;
    Pow2Add(16, 16);
    assert Pow2(32) == 4294967296;
    Pow2Add(32, 8);
    assert Pow2(40) == 1099511627776;
    Pow2Add(40, 6);
    Pow2Add(40, 8);
  }

  /** The powers of two that the concrete examples below meet. */
  lemma Pow2Table()
    ensures Pow2(4) == 16 && Pow2(5) == 32 && Pow2(6) == 64 && Pow2(7) == 128
    ensures Pow2(46) == 70368744177664
    ensures Pow2(48) == 281474976710656
    ensures Pow2(52) == 4503599627370496
    ensures Pow2(53) == 9007199254740992
    ensures Pow2(57) == 144115188075855872
    ensures Pow2(58) == 288230376151711744
    ensures Pow2(59) == 576460752303423488
    ensures Pow2(60) == 1152921504606846976
  {
    Pow2Low();
    Pow2Add(48, 4);
    assert Pow2(52) == 4503599627370496;
    Pow2Add(48, 5);
    Pow2Add(52, 5);
    Pow2Add(52, 6);
    Pow2Add(52, 7);
    Pow2Add(52, 8);
  }

  /** The number of binary digits of `n`. */
  function BitLength(n: nat): (b: nat)
    ensures n == 0 <==> b == 0
    ensures n > 0 ==> Pow2(b - 1) <= n < Pow2(b)
  {
    if n == 0 then 0 else 1 + BitLength(n / 2)
  }

  /** The bit length of `n` is fixed by the powers of two around `n`. */
  lemma BitLengthIs(n: nat, b: nat)
    requires b >= 1 && Pow2(b - 1) <= n < Pow2(b)
    ensures BitLength(n) == b
  {
    var c := BitLength(n);
    if c < b {
      Pow2Le(c, b - 1);
    } else if c > b {
      Pow2Le(b, c - 1);
    }
  }

  /** A number of at least `2^t` has more than `t` binary digits. */
  lemma BitLengthAbove(n: nat, t: nat)
    requires n >= Pow2(t)
    ensures BitLength(n) > t
  {
    if BitLength(n) <= t {
      Pow2Le(BitLength(n), t);
    }
  }

  lemma DivAtMost(n: nat, q: nat, p: nat)
    requires p > 0 && n <= q * p
    ensures n / p <= q
  {
  }

  lemma DivBelow(n: nat, a: nat, p: nat)
    requires p > 0 && n < a * p
    ensures n / p < a
  {
    if n / p >= a {
      MulLe(a, n / p, p);
    }
  }

  lemma MulLe(a: nat, b: nat, c: nat)
    requires a <= b
    ensures a * c <= b * c
  {
  }

  lemma MulNonNegative(a: nat, b: nat)
    ensures a * b >= 0
  {
  }

  lemma DivNonNegative(a: nat, b: nat)
    requires b > 0
    ensures a / b >= 0
  {
  }

  lemma MulCommutes(a: nat, b: nat)
    ensures a * b == b * a
  {
  }

  lemma MulAssoc(a: nat, b: nat, c: nat)
    ensures a * (b * c) == (a * b) * c
  {
  }

  lemma MulBelow(m: nat, a: nat, c: nat, b: nat)
    requires m < c && a <= b && b >= 1
    ensures m * a < c * b
  {
    MulLe(a, b, m);
    MulLe(m, c - 1, b);
    assert (c - 1) * b == c * b - b;
  }

  /** The double closest to `0.01`: the value the literal `0.01` denotes. */
  const OneHundredth := Double(5764607523034235, -59)

  /** `n * 2^e` with its last `k` bits rounded away, to nearest, ties to even. */
  function RoundShift(n: nat, e: int, k: nat): Double
    requires k >= 1
  {
    DivNonNegative(n, Pow2(k));
    var q := n / Pow2(k);
    var rest := n % Pow2(k);
    var half := Pow2(k - 1);
    Double(if rest > half || (rest == half && q % 2 == 1) then q + 1 else q, e + k)
  }

  /** Rounding away `k` bits stays within any multiple of `2^k` above the exact value. */
  lemma RoundShiftAtMost(n: nat, e: int, k: nat, bound: nat)
    requires k >= 1 && n <= bound * Pow2(k)
    ensures RoundShift(n, e, k).significand <= bound
    ensures RoundShift(n, e, k).exponent == e + k
  {
    var p := Pow2(k);
    var q := n / p;
    var rest := n % p;
    DivAtMost(n, bound, p);
    if rest > 0 && q == bound {
      assert false;
    }
  }

  /** The exact value `n * 2^e` rounded to 53 significant bits, to nearest, ties to even. */
  function Round(n: nat, e: int): (r: Double)
    ensures r.significand <= Pow2(53)
  {
    if n < Pow2(53) then Double(n, e)
    else
      BitLengthAbove(n, 53);
      var k: nat := BitLength(n) - 53;
      RoundShiftBelow(n, e, k);
      RoundShift(n, e, k)
  }

  /** A number of `53 + k` bits keeps at most `2^53` once its last `k` bits are rounded away. */
  lemma RoundShiftBelow(n: nat, e: int, k: nat)
    requires k >= 1 && BitLength(n) == 53 + k
    ensures RoundShift(n, e, k).significand <= Pow2(53)
  {
    QuotientBelow(n, 53, k);
    var q := n / Pow2(k);
    assert RoundShift(n, e, k).significand <= q + 1;
  }

  /** A number of `t + k` bits has fewer than `t` bits left once `k` are shifted out. */
  lemma QuotientBelow(n: nat, t: nat, k: nat)
    requires BitLength(n) == t + k
    ensures n / Pow2(k) < Pow2(t)
  {
    if n > 0 {
      var b := BitLength(n);
      var a, p := Pow2(t), Pow2(k);
      Pow2Add(t, k);
      assert Pow2(b) == a * p;
      assert n < a * p;
      DivBelow(n, a, p);
    }
  }

  /** `float(n)`. */
  function FromNat(n: nat): Double {
    Round(n, 0)
  }

  /** `x * y`. */
  function Mul(x: Double, y: Double): Double {
    Round(x.significand * y.significand, x.exponent + y.exponent)
  }

  /** `int(x)` for a non-negative double: rounds toward zero. */
  function Trunc(x: Double): nat {
    if x.exponent >= 0 then
      var scale := Pow2(x.exponent);
      MulNonNegative(x.significand, scale);
      x.significand * scale
    else
      var j: nat := -x.exponent;
      DivNonNegative(x.significand, Pow2(j));
      x.significand / Pow2(j)
  }

  /** `int(p * 0.01 * d)`, evaluated left to right as Python does. */
  function PercentOf(p: nat, d: nat): nat {
    Trunc(Mul(Mul(FromNat(p), OneHundredth), FromNat(d)))
  }

  /** `x <= m`, for a double `x` with a non-positive exponent. */
  predicate AtMost(x: Double, m: nat) {
    x.exponent <= 0 && x.significand <= m * Pow2(-x.exponent)
  }

  /** A bound below `2^53` that is at least `n * 2^e` leaves no room for the bits rounded away. */
  lemma ShiftWithinExponent(n: nat, m: nat, j: nat, k: nat)
    requires k >= 1 && m < Pow2(53) && Pow2(52 + k) <= n <= m * Pow2(j)
    ensures k <= j
  {
    if j < k {
      BelowWhenShort(m, j, k);
    }
  }

  /** Scaled by fewer than `k` bits, a bound below `2^53` stays below `2^(52 + k)`. */
  lemma BelowWhenShort(m: nat, j: nat, k: nat)
    requires m < Pow2(53) && j < k
    ensures m * Pow2(j) < Pow2(52 + k)
  {
    var t: nat := k - 1;
    Pow2Le(j, t);
    Pow2Add(53, t);
    assert Pow2(53 + t) == Pow2(52 + k);
    MulBelow(m, Pow2(j), Pow2(53), Pow2(t));
  }

  /** Splits the scale `2^j` of a bound into the `2^k` that rounding removes and the rest. */
  lemma Regroup(n: nat, m: nat, j: nat, k: nat) returns (bound: nat)
    requires k <= j && n <= m * Pow2(j)
    ensures bound == m * Pow2(j - k) && n <= bound * Pow2(k)
  {
    Pow2Add(j - k, k);
    var a, b := Pow2(j - k), Pow2(k);
    bound := m * a;
    MulAssoc(m, a, b);
  }

  /** Rounding never passes a representable bound: if `n * 2^e <= m` then `Round(n, e) <= m`. */
  lemma RoundAtMost(n: nat, e: int, m: nat)
    requires e <= 0 && m < Pow2(53) && n <= m * Pow2(-e)
    ensures AtMost(Round(n, e), m)
  {
    var j: nat := -e;
    var scaled := m * Pow2(j);
    assert scaled == m * Pow2(-e);
    if n < Pow2(53) {
      assert Round(n, e) == Double(n, e);
    } else {
      RoundIsShift(n, e);
      var b := BitLength(n);
      var k: nat := b - 53;
      assert 52 + k == b - 1;
      assert Pow2(52 + k) <= n;
      ShiftWithinExponent(n, m, j, k);
      var bound := Regroup(n, m, j, k);
      RoundShiftAtMost(n, e, k, bound);
      var x := Round(n, e);
      assert x == RoundShift(n, e, k);
      assert x.exponent == k - j && x.significand <= bound;
      ShiftedAtMost(x, m, j, k);
    }
  }

  /** A double at exponent `k - j` whose significand is at most `m * 2^(j - k)` is at most `m`. */
  lemma ShiftedAtMost(x: Double, m: nat, j: nat, k: nat)
    requires k <= j && x.exponent == k - j && x.significand <= m * Pow2(j - k)
    ensures AtMost(x, m)
  {
    var t: nat := j - k;
    assert -x.exponent == t;
  }

  /** Above 2^53 rounding drops the bits beyond the first 53. */
  lemma RoundIsShift(n: nat, e: int)
    requires n >= Pow2(53)
    ensures BitLength(n) > 53
    ensures Round(n, e) == RoundShift(n, e, BitLength(n) - 53)
  {
    BitLengthAbove(n, 53);
  }

  /** `p * 0.01` is at most 1 for every `p <= 100`. */
  lemma HundredthsAtMostOne(p: nat)
    requires p <= 100
    ensures AtMost(Mul(FromNat(p), OneHundredth), 1)
  {
    if p < 100 {
      HundredthsBelowOne(p);
    } else {
      Pow2Table();
      assert FromNat(p) == Double(p, 0);
      var n := p * 5764607523034235;
      assert Mul(FromNat(p), OneHundredth) == Round(n, -59);
      BitLengthIs(n, 60);
      assert Round(n, -59) == RoundShift(n, -59, 7);
      assert RoundShift(n, -59, 7) == Double(4503599627370496, -52);
    }
  }

  /** For `p < 100` the exact product `p * 0.01` is already below 1, and rounding keeps it there. */
  lemma HundredthsBelowOne(p: nat)
    requires p < 100
    ensures AtMost(Mul(FromNat(p), OneHundredth), 1)
  {
    Pow2Table();
    assert FromNat(p) == Double(p, 0);
    var n := p * 5764607523034235;
    assert Mul(FromNat(p), OneHundredth) == Round(n, -59);
    RoundAtMost(n, -59, 1);
  }

  /** A factor of at most 1 times an integer `d` below `2^53` is at most `d`. */
  lemma ScaleAtMost(y: Double, d: nat)
    requires AtMost(y, 1) && d < Pow2(53)
    ensures AtMost(Mul(y, FromNat(d)), d)
  {
    assert FromNat(d) == Double(d, 0);
    var s, j: nat := y.significand, -y.exponent;
    var p := Pow2(j);
    assert s <= p;
    MulNonNegative(s, d);
    var n: nat := s * d;
    assert Mul(y, FromNat(d)) == Round(n, y.exponent);
    MulLe(s, p, d);
    MulCommutes(p, d);
    assert n <= d * Pow2(-y.exponent);
    RoundAtMost(n, y.exponent, d);
  }

  lemma TruncAtMost(z: Double, d: nat)
    requires AtMost(z, d)
    ensures Trunc(z) <= d
  {
    if z.exponent < 0 {
      DivAtMost(z.significand, d, Pow2(-z.exponent));
    }
  }

  /** For `p <= 100` and a duration below 2^53 seconds, `int(p * 0.01 * d)` never exceeds `d`. */
  lemma PercentAtMost(p: nat, d: nat)
    requires p <= 100 && d < Pow2(53)
    ensures PercentOf(p, d) <= d
  {
    HundredthsAtMostOne(p);
    var y := Mul(FromNat(p), OneHundredth);
    ScaleAtMost(y, d);
    TruncAtMost(Mul(y, FromNat(d)), d);
  }

  /** 50% of 200 seconds is exactly 100. */
  lemma PercentHalf()
    ensures PercentOf(50, 200) == 100
  {
    Pow2Table();
    BitLengthIs(288230376151711750, 59);
    assert Round(288230376151711750, -59) == RoundShift(288230376151711750, -59, 6);
    assert Mul(FromNat(50), OneHundredth) == Double(4503599627370496, -53);
    BitLengthIs(900719925474099200, 60);
    assert Round(900719925474099200, -53) == RoundShift(900719925474099200, -53, 7);
    assert Mul(Double(4503599627370496, -53), FromNat(200)) == Double(7036874417766400, -46);
  }

  /** 29% of 100 seconds is 28, not 29: in binary64 `29 * 0.01` lies just below 0.29. */
  lemma PercentBelowExact()
    ensures PercentOf(29, 100) == 28
  {
    Pow2Table();
    BitLengthIs(167173618167992815, 58);
    assert Round(167173618167992815, -59) == RoundShift(167173618167992815, -59, 5);
    assert Mul(FromNat(29), OneHundredth) == Double(5224175567749775, -54);
    BitLengthIs(522417556774977500, 59);
    assert Round(522417556774977500, -54) == RoundShift(522417556774977500, -54, 6);
    assert Mul(Double(5224175567749775, -54), FromNat(100)) == Double(8162774324609023, -48);
  }
}
