// `FixedU256::saturating_pow` (common/src/fixed.rs): square-and-multiply in which every
// multiplication rounds down and saturates.
module FixedPow {
  import opened Arith
  import opened Words
  import opened FixedPoint

  // The loop as a recursion on the remaining exponent bits.
  function Power(result: U256, base: U256, e: nat): U256
    decreases e
  {
    if e == 0 then result
    else
      Power(if e % 2 == 1 then SaturatingMul(result, base) else result,
            SaturatingMul(base, base), e / 2)
  }

  // What the code computes for exponent e, starting from one.
  function PowerOf(x: U256, e: nat): U256 {
    DivIsWord();
    Power(DIV, x, e)
  }

  // e >> i; bit i of e is its parity.
  function Shr(e: nat, i: nat): nat {
    if i == 0 then e else Shr(e, i - 1) / 2
  }

  lemma {:induction false} ShrShortens(e: nat, i: nat)
    requires i <= BitLength(e)
    ensures BitLength(Shr(e, i)) == BitLength(e) - i
  {
    if i > 0 {
      ShrShortens(e, i - 1);
    }
  }

  // The exponent is cut to 32 bits, as the code does. Below 2^32 the result is never above
  // the exact power, and for integers it is the power itself, capped.
  method SaturatingPow(x: U256, exp: nat) returns (r: U256)
    ensures r == PowerOf(x, exp % 0x1_0000_0000)
    ensures exp % 0x1_0000_0000 == 0 ==> r == DIV
    ensures exp < 0x1_0000_0000 ==> r == PowerOf(x, exp)
    ensures 1 <= exp < 0x1_0000_0000 ==> r * Pow(DIV, exp - 1) <= Pow(x, exp)
    ensures forall k: nat | x == k * DIV && exp < 0x1_0000_0000 :: r == Min(Pow(k, exp) * DIV, MAX256)
  {
    if exp == 0 {
      DivIsWord();
      r := DIV;
    } else {
      r := PowLoop(x, AsU32(exp));
    }
    hide SaturatingMul, TenTo, TwoTo, Pow;
    if 1 <= exp < 0x1_0000_0000 {
      PowerNeverExceeds(x, exp);
    }
    forall k: nat | x == k * DIV && exp < 0x1_0000_0000
      ensures r == Min(Pow(k, exp) * DIV, MAX256)
    {
      PowerOfInteger(x, k, exp);
    }
  }

  // The loop over the bits of the exponent.
  method PowLoop(x: U256, e: nat) returns (r: U256)
    ensures r == PowerOf(x, e)
  {
    hide SaturatingMul, TenTo, TwoTo;
    DivIsWord();
    var msbPos := BitLength(e);
    r := DIV;
    var powVal := x;
    for i := 0 to msbPos
      invariant Power(r, powVal, Shr(e, i)) == Power(DIV, x, e)
    {
      ShrShortens(e, i);
      if Shr(e, i) % 2 == 1 {
        r := SaturatingMul(r, powVal);
      }
      powVal := SaturatingMul(powVal, powVal);
    }
    ShrShortens(e, msbPos);
  }

  // ---------------------------------------------------------------- never above the power

  // r stands for at most x^j at fixed-point scale: r / d <= (x / d)^j.
  ghost predicate AtMostPower(r: nat, x: nat, j: nat, d: nat) {
    r * Pow(d, j) <= Pow(x, j) * d
  }

  lemma FloorKeepsAtMost(r: nat, p: nat, t: nat, x: nat, j: nat, m: nat, d: nat)
    requires 0 < d && t * d <= r * p
    requires AtMostPower(r, x, j, d) && AtMostPower(p, x, m, d)
    ensures AtMostPower(t, x, j + m, d)
  {
    hide Pow;
    PowAdd(d, j, m);
    PowAdd(x, j, m);
    PowPos(d, j);
    PowPos(d, m);
    PowNonneg(x, j);
    PowNonneg(x, m);
    CrossBound(r, p, t, Pow(d, j), Pow(d, m), Pow(x, j), Pow(x, m), d);
  }

  lemma CrossBound(r: nat, p: nat, t: nat, dj: nat, dm: nat, xj: nat, xm: nat, d: nat)
    requires 0 < d && t * d <= r * p
    requires r * dj <= xj * d && p * dm <= xm * d
    ensures t * (dj * dm) <= (xj * xm) * d
  {
    var lhs, rhs := t * (dj * dm), (xj * xm) * d;
    assert lhs * d <= (r * dj) * (p * dm) by {
      MulLe2(0, 0, dj, dm);
      MulLe(t * d, r * p, dj * dm);
      Interchange(r, p, dj, dm);
      Interchange(t, d, dj * dm, 1);
    }
    assert (r * dj) * (p * dm) <= rhs * d by {
      MulLe2(0, 0, r, dj);
      MulLe2(0, 0, p, dm);
      MulLe2(r * dj, p * dm, xj * d, xm * d);
      Interchange(xj, xm, d, d);
    }
    MulLeCancel(lhs, rhs, d);
  }

  lemma Interchange(a: int, b: int, c: int, e: int)
    ensures (a * b) * (c * e) == (a * c) * (b * e)
  {
  }

  lemma SaturatingMulAtMost(r: U256, p: U256, x: nat, j: nat, m: nat)
    requires 0 < DIV
    requires AtMostPower(r, x, j, DIV) && AtMostPower(p, x, m, DIV)
    ensures AtMostPower(SaturatingMul(r, p), x, j + m, DIV)
  {
    SaturatingMulIsCapped(r, p);
    MulLe2(0, 0, r, p);
    DivBounds(r * p, DIV);
    var t := SaturatingMul(r, p);
    MulLe(t, r * p / DIV, DIV);
    FloorKeepsAtMost(r, p, t, x, j, m, DIV);
  }

  lemma {:induction false} PowerAtMost(r: U256, p: U256, e: nat, x: nat, j: nat, m: nat, n: nat)
    requires 0 < DIV && n == j + m * e
    requires AtMostPower(r, x, j, DIV) && AtMostPower(p, x, m, DIV)
    ensures AtMostPower(Power(r, p, e), x, n, DIV)
    decreases e
  {
    hide AtMostPower, SaturatingMul;
    if e > 0 {
      SaturatingMulAtMost(p, p, x, m, m);
      if e % 2 == 1 {
        SaturatingMulAtMost(r, p, x, j, m);
        HalveExponent(m, e, e / 2, 1);
        PowerAtMost(SaturatingMul(r, p), SaturatingMul(p, p), e / 2, x, j + m, m + m, n);
      } else {
        HalveExponent(m, e, e / 2, 0);
        PowerAtMost(r, SaturatingMul(p, p), e / 2, x, j, m + m, n);
      }
    }
  }

  lemma HalveExponent(m: nat, e: nat, h: nat, b: nat)
    requires e == 2 * h + b
    ensures 0 <= (m + m) * h && m * e == (m + m) * h + m * b
  {
  }

  // Despite a rounding at every step and saturation, the result never exceeds the exact
  // power: r * DIV^(e-1) <= x^e.
  lemma PowerNeverExceeds(x: U256, e: nat)
    requires 1 <= e
    ensures PowerOf(x, e) * Pow(DIV, e - 1) <= Pow(x, e)
  {
    DivIsWord();
    FirstPower(x);
    FirstPower(DIV);
    PowerAtMost(DIV, x, e, x, 0, 1, e);
    OneFewerFactor(PowerOf(x, e), Pow(x, e), DIV, e);
  }

  lemma FirstPower(b: int)
    ensures Pow(b, 0) == 1 && Pow(b, 1) == b
  {
  }

  lemma OneFewerFactor(r: nat, v: int, d: nat, e: nat)
    requires 1 <= e && 0 < d
    ensures r * Pow(d, e) <= v * d ==> r * Pow(d, e - 1) <= v
    ensures v * d <= r * Pow(d, e) ==> v <= r * Pow(d, e - 1)
  {
    var y := Pow(d, e - 1);
    assert Pow(d, e) == d * y;
    assert r * (d * y) == (r * y) * d;
    if r * Pow(d, e) <= v * d {
      MulLeCancel(r * y, v, d);
    }
    if v * d <= r * Pow(d, e) {
      MulLeCancel(v, r * y, d);
    }
  }

  // ------------------------------------------------------------ exact on integer arguments

  ghost predicate IsCappedInteger(r: nat, k: nat, j: nat, d: nat, cap: nat) {
    r == Min(Pow(k, j) * d, cap)
  }

  lemma CappedProduct(r: nat, p: nat, k: nat, j: nat, m: nat, d: nat, cap: nat)
    requires 0 < d <= cap
    requires IsCappedInteger(r, k, j, d, cap) && IsCappedInteger(p, k, m, d, cap)
    ensures 0 <= r * p && 0 <= r * p / d
    ensures IsCappedInteger(Min(r * p / d, cap), k, j + m, d, cap)
  {
    hide Pow;
    var kj, km := Pow(k, j), Pow(k, m);
    PowAdd(k, j, m);
    PowNonneg(k, j);
    PowNonneg(k, m);
    if kj * d <= cap && km * d <= cap {
      ExactProduct(kj, km, d);
    } else {
      if k == 0 {
        ZeroPowerSmall(j);
        ZeroPowerSmall(m);
        assert false;
      }
      PowPos(k, j);
      PowPos(k, m);
      CappedOut(r, p, kj, km, d, cap);
    }
  }

  lemma ExactProduct(kj: nat, km: nat, d: nat)
    requires 0 < d
    ensures 0 <= (kj * d) * (km * d) && ((kj * d) * (km * d)) / d == (kj * km) * d >= 0
  {
    Interchange(kj, km, d, d);
    MulLe2(0, 0, kj, km);
    MulLe2(0, 0, kj * km, d);
    assert (kj * km) * (d * d) == ((kj * km) * d) * d;
    DivExact((kj * km) * d, d);
  }

  // If one factor is capped and both are at least one, so is the product.
  lemma CappedOut(r: nat, p: nat, kj: nat, km: nat, d: nat, cap: nat)
    requires 0 < d <= cap && 1 <= kj && 1 <= km
    requires r == Min(kj * d, cap) && p == Min(km * d, cap)
    requires cap < kj * d || cap < km * d
    ensures 0 <= r * p && cap <= r * p / d
    ensures cap <= (kj * km) * d
  {
    MulLe(1, kj, d);
    MulLe(1, km, d);
    assert cap * d <= r * p by {
      MulLe2(cap, d, if r == cap then r else p, if r == cap then p else r);
    }
    MulLe2(0, 0, r, p);
    DivGreatest(r * p, d, cap);
    assert cap <= (kj * km) * d by {
      MulLe(1, km, kj);
      MulLe(1, kj, km);
      MulLe(kj, kj * km, d);
      MulLe(km, kj * km, d);
    }
  }

  lemma ZeroPowerSmall(j: nat)
    ensures 0 <= Pow(0, j) <= 1
  {
  }

  lemma SaturatingMulOfIntegers(r: U256, p: U256, k: nat, j: nat, m: nat)
    requires 0 < DIV <= MAX256
    requires IsCappedInteger(r, k, j, DIV, MAX256) && IsCappedInteger(p, k, m, DIV, MAX256)
    ensures IsCappedInteger(SaturatingMul(r, p), k, j + m, DIV, MAX256)
  {
    SaturatingMulIsCapped(r, p);
    CappedProduct(r, p, k, j, m, DIV, MAX256);
  }

  lemma {:induction false} PowerOfIntegers(r: U256, p: U256, e: nat, k: nat, j: nat, m: nat, n: nat)
    requires 0 < DIV <= MAX256 && n == j + m * e
    requires IsCappedInteger(r, k, j, DIV, MAX256) && IsCappedInteger(p, k, m, DIV, MAX256)
    ensures IsCappedInteger(Power(r, p, e), k, n, DIV, MAX256)
    decreases e
  {
    hide IsCappedInteger, SaturatingMul;
    if e > 0 {
      SaturatingMulOfIntegers(p, p, k, m, m);
      if e % 2 == 1 {
        SaturatingMulOfIntegers(r, p, k, j, m);
        HalveExponent(m, e, e / 2, 1);
        PowerOfIntegers(SaturatingMul(r, p), SaturatingMul(p, p), e / 2, k, j + m, m + m, n);
      } else {
        HalveExponent(m, e, e / 2, 0);
        PowerOfIntegers(r, SaturatingMul(p, p), e / 2, k, j, m + m, n);
      }
    }
  }

  // For an integer k the result is k^e exactly, capped at the largest value.
  lemma PowerOfInteger(x: U256, k: nat, e: nat)
    requires x == k * DIV
    ensures PowerOf(x, e) == Min(Pow(k, e) * DIV, MAX256)
  {
    DivIsWord();
    FirstPower(k);
    PowerOfIntegers(DIV, x, e, k, 0, 1, e);
  }

  // ------------------------------------------------------------ how far below the power

  // For j >= 1: r at fixed-point scale is at most x^j, and short of it by at most j - 1
  // roundings, each blown up by no more than the later factors.
  ghost predicate NearPower(r: nat, x: nat, j: nat, d: nat)
    requires 1 <= j
  {
    && r * Pow(d, j - 1) <= Pow(x, j)
    && Pow(x, j) <= r * Pow(d, j - 1) + (j - 1) * Pow(Max(x, d), j - 1)
  }

  lemma FloorKeepsNear(r: nat, p: nat, t: nat, x: nat, j: nat, m: nat, d: nat)
    requires 0 < d && 1 <= j && 1 <= m
    requires t * d <= r * p < t * d + d
    requires NearPower(r, x, j, d) && NearPower(p, x, m, d)
    ensures NearPower(t, x, j + m, d)
  {
    var y := Max(x, d);
    assert Pow(d, j) == d * Pow(d, j - 1) && Pow(y, j) == y * Pow(y, j - 1);
    assert Pow(d, m) == d * Pow(d, m - 1) && Pow(y, m) == y * Pow(y, m - 1);
    hide Pow;
    PowAdd(x, j, m);
    PowAdd(d, j, m - 1);
    PowAdd(y, j, m - 1);
    PowBelow(d, y, j - 1);
    PowBelow(d, y, m - 1);
    PowBelow(x, y, j);
    PowBelow(x, y, m);
    PowPos(d, j - 1);
    PowPos(d, m - 1);
    UpperFactor(r, p, t, Pow(d, j - 1), Pow(d, m - 1), Pow(x, j), Pow(x, m), d);
    LowerFactor(r, p, t, j - 1, m - 1, Pow(d, j - 1), Pow(d, m - 1), Pow(x, j), Pow(x, m),
                Pow(y, j - 1), Pow(y, m - 1), d, y);
  }

  lemma {:induction false} PowBelow(x: nat, d: nat, j: nat)
    requires x <= d
    ensures 0 <= Pow(x, j) <= Pow(d, j)
  {
    if j > 0 {
      PowBelow(x, d, j - 1);
      MulLe2(x, Pow(x, j - 1), d, Pow(d, j - 1));
    }
  }

  lemma UpperFactor(r: nat, p: nat, t: nat, a: nat, b: nat, xj: nat, xm: nat, d: nat)
    requires t * d <= r * p && r * a <= xj && p * b <= xm
    ensures t * ((d * a) * b) <= xj * xm
  {
    MulLe2(0, 0, a, b);
    MulLe(t * d, r * p, a * b);
    MulLe2(0, 0, r, a);
    MulLe2(0, 0, p, b);
    MulLe2(r * a, p * b, xj, xm);
    Interchange(r, p, a, b);
    assert t * ((d * a) * b) == (t * d) * (a * b) by {
      assert (d * a) * b == d * (a * b);
      assert t * (d * (a * b)) == (t * d) * (a * b);
    }
  }

  // The errors of the factors, j and m roundings, and one rounding for the product.
  lemma LowerFactor(r: nat, p: nat, t: nat, j: nat, m: nat, a: nat, b: nat,
                    xj: nat, xm: nat, u: nat, v: nat, d: nat, y: nat)
    requires r * p < t * d + d && p * b <= xm
    requires xj <= r * a + j * u && xm <= p * b + m * v
    requires a <= u && b <= v && d <= y && xj <= y * u && xm <= y * v
    ensures xj * xm <= t * ((d * a) * b) + (j + m + 1) * ((y * u) * v)
  {
    RoundedPart(r, p, t, a, b, u, v, d, y);
    ErrorPart(j, u, p * b, y, v);
    ErrorPart(m, v, xj, y, u);
    SplitErrors(xj, xm, r * a, p * b, j * u, m * v);
    SumOfErrors(j, m, (y * u) * v);
    SwapFactors(y, u, v);
  }

  lemma SplitErrors(xj: nat, xm: nat, low: nat, pb: nat, errorJ: nat, errorM: nat)
    requires xj <= low + errorJ && xm <= pb + errorM
    ensures xj * xm <= low * pb + errorJ * pb + errorM * xj
  {
    MulLe(xm, pb + errorM, xj);
    MulLe(xj, low + errorJ, pb);
    Expand(pb, errorM, xj);
    Expand(low, errorJ, pb);
  }

  lemma Expand(a: int, b: int, c: int)
    ensures (a + b) * c == a * c + b * c
  {
  }

  lemma SumOfErrors(j: int, m: int, whole: int)
    ensures (j + m + 1) * whole == j * whole + m * whole + whole
  {
  }

  lemma SwapFactors(y: int, u: int, v: int)
    ensures (y * u) * v == (y * v) * u
  {
  }

  // j roundings of at most u each, carried through a factor of at most y * v.
  lemma ErrorPart(j: nat, u: nat, factor: nat, y: nat, v: nat)
    requires factor <= y * v
    ensures (j * u) * factor <= j * ((y * u) * v)
  {
    MulLe2(0, 0, j, u);
    MulLe(factor, y * v, j * u);
    SameProduct(j, u, y, v);
  }

  lemma SameProduct(j: int, u: int, y: int, v: int)
    ensures (y * v) * (j * u) == j * ((y * u) * v)
  {
    Interchange(y, v, j, u);
    assert (y * j) * (v * u) == j * (y * (v * u));
    assert y * (v * u) == (y * u) * v;
  }

  lemma RoundedPart(r: nat, p: nat, t: nat, a: nat, b: nat, u: nat, v: nat, d: nat, y: nat)
    requires r * p < t * d + d && a <= u && b <= v && d <= y
    ensures (r * a) * (p * b) <= t * ((d * a) * b) + (y * u) * v
  {
    var ab := a * b;
    MulLe2(0, 0, a, b);
    MulLe(r * p, t * d + d, ab);
    Interchange(r, p, a, b);
    assert (t * d + d) * ab == t * (d * ab) + d * ab;
    assert d * ab == (d * a) * b;
    MulLe2(d, a, y, u);
    MulLe2(d * a, b, y * u, v);
  }

  // The power fits, or cannot grow.
  predicate PowerFits(x: nat, n: nat, d: nat, bound: nat)
    requires 1 <= n
  {
    x <= d || Pow(x, n) < bound * Pow(d, n - 1)
  }

  // Then so does every floor of a smaller power.
  lemma FloorFits(t: nat, x: nat, k: nat, n: nat, d: nat, bound: nat)
    requires 1 <= k <= n && 0 < d < bound
    requires t * Pow(d, k - 1) <= Pow(x, k) && PowerFits(x, n, d, bound)
    ensures t < bound
  {
    assert Pow(d, k) == d * Pow(d, k - 1);
    hide Pow;
    PowPos(d, k - 1);
    if x <= d {
      PowBelow(x, d, k);
      MulLeCancel(t, d, Pow(d, k - 1));
    } else {
      PowPos(d, n - k);
      PowBelow(d, x, n - k);
      PowAdd(x, k, n - k);
      PowAdd(d, k - 1, n - k);
      ExtendBound(t, Pow(d, k - 1), Pow(x, k), Pow(d, n - k), Pow(x, n - k), bound);
    }
  }

  lemma ExtendBound(t: nat, a: nat, xk: nat, c: nat, xc: nat, bound: nat)
    requires 0 < a && 0 < c && t * a <= xk && c <= xc && xk * xc < bound * (a * c)
    ensures t < bound
  {
    MulLe2(0, 0, t, a);
    MulLe2(t * a, c, xk, xc);
    MulLe2(1, 1, a, c);
    assert (t * a) * c == t * (a * c);
    MulLtCancel(t, bound, a * c);
  }

  lemma SaturatingMulNear(r: U256, p: U256, x: nat, j: nat, m: nat, n: nat)
    requires 0 < DIV < W256 && 1 <= j && 1 <= m && j + m <= n
    requires NearPower(r, x, j, DIV) && NearPower(p, x, m, DIV) && PowerFits(x, n, DIV, W256)
    ensures NearPower(SaturatingMul(r, p), x, j + m, DIV)
  {
    hide TenTo, TwoTo;
    SaturatingMulIsCapped(r, p);
    hide SaturatingMul;
    MulLe2(0, 0, r, p);
    DivBounds(r * p, DIV);
    var t := r * p / DIV;
    FloorKeepsNear(r, p, t, x, j, m, DIV);
    FloorFits(t, x, j + m, n, DIV, W256);
  }

  lemma SaturatingMulByOne(p: U256)
    requires 0 < DIV < W256
    ensures SaturatingMul(DIV, p) == p
  {
    SaturatingMulIsCapped(DIV, p);
    DivExact(p, DIV);
  }

  // `result` is still one, or near the power of the exponent bits read so far.
  ghost predicate ResultNear(r: nat, x: nat, j: nat, d: nat) {
    if j == 0 then r == d else NearPower(r, x, j, d)
  }

  lemma ResultTimes(r: U256, p: U256, x: nat, j: nat, m: nat, n: nat)
    requires 0 < DIV < W256 && 1 <= m && j + m <= n
    requires ResultNear(r, x, j, DIV) && NearPower(p, x, m, DIV) && PowerFits(x, n, DIV, W256)
    ensures NearPower(SaturatingMul(r, p), x, j + m, DIV)
  {
    hide SaturatingMul, NearPower, PowerFits;
    if j == 0 {
      SaturatingMulByOne(p);
    } else {
      SaturatingMulNear(r, p, x, j, m, n);
    }
  }

  lemma {:induction false} PowerNear(r: U256, p: U256, e: nat, x: nat, j: nat, m: nat, n: nat)
    requires 0 < DIV < W256 && 1 <= m && 1 <= n && n == j + m * e
    requires ResultNear(r, x, j, DIV) && PowerFits(x, n, DIV, W256)
    requires 1 <= e ==> NearPower(p, x, m, DIV)
    ensures NearPower(Power(r, p, e), x, n, DIV)
    decreases e
  {
    hide SaturatingMul, NearPower, PowerFits;
    if e > 0 {
      ExponentsWithin(j, m, e, n);
      if e >= 2 {
        SaturatingMulNear(p, p, x, m, m, n);
      }
      if e % 2 == 1 {
        ResultTimes(r, p, x, j, m, n);
        HalveExponent(m, e, e / 2, 1);
        PowerNear(SaturatingMul(r, p), SaturatingMul(p, p), e / 2, x, j + m, m + m, n);
      } else {
        HalveExponent(m, e, e / 2, 0);
        PowerNear(r, SaturatingMul(p, p), e / 2, x, j, m + m, n);
      }
    }
  }

  lemma ExponentsWithin(j: nat, m: nat, e: nat, n: nat)
    requires 1 <= e && n == j + m * e
    ensures j + m <= n && (2 <= e ==> m + m <= n)
  {
    MulLe(1, e, m);
    if 2 <= e {
      MulLe(2, e, m);
    }
  }

  // Whenever the exact power fits, or the base is at most one, the result is short of it by
  // at most e - 1 roundings: with y the larger of x and one,
  // x^e <= r * DIV^(e-1) + (e - 1) * y^(e-1).
  lemma PowerAccuracy(x: U256, e: nat)
    requires 1 <= e
    requires x <= DIV || Pow(x, e) < W256 * Pow(DIV, e - 1)
    ensures Pow(x, e) <= PowerOf(x, e) * Pow(DIV, e - 1) + (e - 1) * Pow(Max(x, DIV), e - 1)
  {
    DivIsWord();
    FirstPower(x);
    FirstPower(DIV);
    FirstPower(Max(x, DIV));
    assert NearPower(x, x, 1, DIV);
    hide SaturatingMul, Pow, TenTo, TwoTo;
    PowerNear(DIV, x, e, x, 0, 1, e);
  }

  // -------------------------------------------------------------------------- monotonicity

  lemma SaturatingMulMonotone(a: U256, b: U256, c: U256, d: U256)
    requires a <= c && b <= d
    ensures SaturatingMul(a, b) <= SaturatingMul(c, d)
  {
    SaturatingMulIsCapped(a, b);
    SaturatingMulIsCapped(c, d);
    MulLe2(a, b, c, d);
    DivMono(a * b, c * d, DIV);
  }

  lemma {:induction false} PowerMonotone(r: U256, p: U256, r': U256, p': U256, e: nat)
    requires r <= r' && p <= p'
    ensures Power(r, p, e) <= Power(r', p', e)
    decreases e
  {
    hide SaturatingMul;
    if e > 0 {
      SaturatingMulMonotone(r, p, r', p');
      SaturatingMulMonotone(p, p, p', p');
      PowerMonotone(if e % 2 == 1 then SaturatingMul(r, p) else r, SaturatingMul(p, p),
                    if e % 2 == 1 then SaturatingMul(r', p') else r', SaturatingMul(p', p'), e / 2);
    }
  }

  // A larger base never gives a smaller power, whatever was rounded or capped on the way.
  lemma PowerOfMonotone(x: U256, y: U256, e: nat)
    requires x <= y
    ensures PowerOf(x, e) <= PowerOf(y, e)
  {
    DivIsWord();
    PowerMonotone(DIV, x, DIV, y, e);
  }
}
