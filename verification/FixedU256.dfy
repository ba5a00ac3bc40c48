// `FixedU256`: decimal fixed point with 18 fractional digits on a 256-bit word
// (common/src/fixed.rs). A value is its raw word; raw DIV is the number one.
module FixedPoint {
  import opened Arith
  import opened Words
  import opened Doubles
  import opened MulDiv
  import opened IntSqrt

  const HALF_DECIMALS: nat := 9
  const DECIMALS: nat := HALF_DECIMALS + HALF_DECIMALS
  const DIV: nat := TenTo(DECIMALS)
  const HALF_DIV: nat := TenTo(HALF_DECIMALS)

  lemma TenToNine()
    ensures TenTo(9) == 1_000_000_000
  {
  }

  lemma DivNumeral()
    ensures HALF_DIV == 1_000_000_000
    ensures DIV == 1_000_000_000_000_000_000
  {
    TenToNine();
    TenToAdd(HALF_DECIMALS, HALF_DECIMALS);
  }

  lemma DivIsWord()
    ensures 2 <= DIV < W128 < W256
    ensures DIV == HALF_DIV * HALF_DIV && 1 <= HALF_DIV < W128
  {
    hide TwoTo, TenTo;
    DivNumeral();
    WordNumerals();
    TenToAdd(HALF_DECIMALS, HALF_DECIMALS);
  }

  // ---------------------------------------------------------------- signed intermediates

  // A primitive integer type: unsigned (min = 0) or two's complement (min = -max - 1).
  datatype IntType = IntType(min: int, max: nat) {
    predicate Valid() {
      && 1 <= max < W256
      && (min == 0 || min + max == -1)
      && (min < 0 ==> max < MAX256)
    }

    predicate Has(n: int) {
      min <= n <= max
    }

    // `checked_neg` of the type.
    function CheckedNeg(n: int): Option<int> {
      if Has(-n) then Some(-n) else None
    }
  }

  function Word256(): IntType { IntType(0, MAX256) }

  lemma Word256Valid()
    ensures Word256().Valid()
  {
  }

  datatype I257 = I257(value: U256, negative: bool) {
    function Signed(): int {
      if negative then -(value as int) else value
    }
  }

  function IntoI257(t: IntType, n: int): I257
    requires t.Valid() && t.Has(n)
  {
    if n < 0 then
      var value: U256 := match t.CheckedNeg(n)
        case Some(m) => m
        case None => Min(t.max + 1, MAX256);
      I257(value, true)
    else
      I257(n, false)
  }

  function FromI257(t: IntType, n: I257): Option<int>
    requires t.Valid()
  {
    var maxPlusOne := Min(t.max + 1, MAX256);
    if n.negative && t.min < 0 && n.value == maxPlusOne then Some(t.min)
    else if n.value > t.max then None
    else if n.negative then t.CheckedNeg(n.value)
    else Some(n.value)
  }

  // The detour through sign and magnitude loses nothing, the most negative value included,
  // and coming back it succeeds exactly for the values the type has.
  lemma I257RoundTrip(t: IntType, n: int)
    requires t.Valid() && t.Has(n)
    ensures IntoI257(t, n).Signed() == n
    ensures FromI257(t, IntoI257(t, n)) == Some(n)
  {
  }

  lemma FromI257Exact(t: IntType, n: I257)
    requires t.Valid()
    ensures FromI257(t, n) == if t.Has(n.Signed()) then Some(n.Signed()) else None
  {
  }

  // n / d rounded toward zero.
  function Truncated(n: int, d: nat): int
    requires 0 < d
  {
    if n < 0 then -((-n) / d) else n / d
  }

  // `checked_mul_int`: a fixed-point number times an integer of any primitive type.
  function CheckedMulInt(t: IntType, x: U256, n: int): Option<int>
    requires t.Valid() && t.Has(n)
  {
    DivIsWord();
    Word256Valid();
    var lhs, rhs := IntoI257(Word256(), x), IntoI257(t, n);
    var negative := lhs.negative != rhs.negative;
    match MulDivRounded(lhs.value, rhs.value, DIV, Down)
    case None => None
    case Some(value) => FromI257(t, I257(value, negative))
  }

  // It is the product rounded toward zero, for either sign, whenever the type has room.
  lemma CheckedMulIntTruncates(t: IntType, x: U256, n: int)
    requires t.Valid() && t.Has(n)
    ensures 0 < DIV
    ensures var exact := Truncated(x * n, DIV);
            CheckedMulInt(t, x, n) == if t.Has(exact) then Some(exact) else None
  {
    DivIsWord();
    Word256Valid();
    I257RoundTrip(t, n);
    var m: U256 := IntoI257(t, n).value;
    TruncatedBySign(x, n, m, DIV);
    var q := x * m / DIV;
    if q < W256 {
      FromI257Exact(t, I257(q, n < 0));
    }
  }

  lemma TruncatedBySign(x: nat, n: int, m: nat, d: nat)
    requires 0 < d && (n == m || n + m == 0)
    ensures 0 <= x * m && 0 <= x * m / d
    ensures Truncated(x * n, d) == if n < 0 then -(x * m / d) else x * m / d
  {
  }

  // ------------------------------------------------------------- multiplication, division

  function CheckedMul(x: U256, y: U256): Option<U256> {
    DivIsWord();
    Word256Valid();
    var lhs, rhs := IntoI257(Word256(), x), IntoI257(Word256(), y);
    match MulDivRounded(lhs.value, rhs.value, DIV, Down)
    case None => None
    case Some(value) => FromI257(Word256(), I257(value, lhs.negative != rhs.negative))
  }

  function CheckedDiv(x: U256, y: U256): Option<U256> {
    if y == 0 then None
    else
      DivIsWord();
      Word256Valid();
      var lhs, rhs := IntoI257(Word256(), x), IntoI257(Word256(), y);
      match MulDivRounded(lhs.value, DIV, rhs.value, Down)
      case None => None
      case Some(value) => FromI257(Word256(), I257(value, lhs.negative != rhs.negative))
  }

  // Both are floors of the exact result, absent exactly when it does not fit.
  lemma CheckedMulIsFloor(x: U256, y: U256)
    ensures 0 < DIV && 0 <= x * y
    ensures CheckedMul(x, y) == if x * y / DIV < W256 then Some(x * y / DIV) else None
  {
  }

  lemma CheckedDivIsFloor(x: U256, y: U256)
    ensures 0 <= x * DIV
    ensures CheckedDiv(x, y)
         == if y != 0 && x * DIV / y < W256 then Some(x * DIV / y) else None
  {
  }

  // Dividing and multiplying back never gains; what is lost is less than one raw unit plus
  // the value of the divisor at raw precision.
  lemma DivThenMul(x: U256, y: U256)
    requires CheckedDiv(x, y).Some?
    ensures var back := CheckedMul(CheckedDiv(x, y).value, y);
            && back.Some?
            && back.value <= x
            && x * DIV < (back.value + 1) * DIV + y
  {
    CheckedDivIsFloor(x, y);
    var q := CheckedDiv(x, y).value;
    CheckedMulIsFloor(q, y);
    FloorThenFloor(x, y, DIV);
  }

  lemma FloorThenFloor(x: nat, y: nat, d: nat)
    requires 0 < y && 0 < d
    ensures 0 <= x * d && 0 <= (x * d / y) * y
    ensures var m := (x * d / y) * y / d; m <= x && x * d < (m + 1) * d + y
  {
  }

  function SaturatingMul(x: U256, y: U256): U256 {
    match CheckedMul(x, y)
    case Some(v) => v
    case None => MAX256
  }

  lemma SaturatingMulIsCapped(x: U256, y: U256)
    ensures 0 < DIV && 0 <= x * y / DIV
    ensures SaturatingMul(x, y) == Min(x * y / DIV, MAX256)
  {
    CheckedMulIsFloor(x, y);
    DivBounds(x * y, DIV);
  }

  // ------------------------------------------------------------------------- square root

  // `try_sqrt`: the preferred path takes the root of n * DIV; when that overflows, the root
  // of n is scaled by the root of DIV.
  function TrySqrt(n: U256): U256
  {
    DivIsWord();
    if n == 0 then 0
    else if n * DIV < W256 then
      MulLe2(0, 0, n, DIV);
      Root(n * DIV)
    else
      RootBelowHalfWord(n);
      RootOfSquare(HALF_DIV);
      HalfProduct(Root(n), HALF_DIV);
      Root(n) * Root(DIV)
  }

  // Exact integer root of n * DIV on the first path; on the second it never exceeds the
  // exact root and is short of it by less than 10^9 raw units.
  lemma TrySqrtAccuracy(n: U256)
    ensures 0 <= n * DIV
    ensures n * DIV < W256 ==> TrySqrt(n) == Root(n * DIV)
    ensures TrySqrt(n) <= Root(n * DIV) < TrySqrt(n) + HALF_DIV
  {
    hide TenTo, TwoTo;
    DivIsWord();
    MulLe2(0, 0, n, DIV);
    if n == 0 {
      RootUnique(0, 0);
    } else if n * DIV >= W256 {
      RootOfSquare(HALF_DIV);
      ScaledRoot(n, HALF_DIV, DIV);
    }
  }

  lemma ScaledRoot(n: nat, h: nat, d: nat)
    requires 1 <= h && d == h * h && 0 <= n * d
    ensures 0 <= Root(n) * h <= Root(n * d) < Root(n) * h + h
  {
    MulLe2(0, 0, Root(n), h);
    ScaledRootBounds(n, Root(n), h);
  }

  lemma ScaledRootBounds(n: nat, r: nat, h: nat)
    requires r * r <= n < (r + 1) * (r + 1) && 1 <= h
    ensures 0 <= n * (h * h)
    ensures r * h <= Root(n * (h * h)) < r * h + h
  {
    var m := n * (h * h);
    MulLe2(1, 1, h, h);
    assert (r * h) * (r * h) == (r * r) * (h * h) by { SwapFactors(r, h); }
    assert ((r + 1) * h) * ((r + 1) * h) == ((r + 1) * (r + 1)) * (h * h) by { SwapFactors(r + 1, h); }
    MulLe(r * r, n, h * h);
    assert n * (h * h) < ((r + 1) * (r + 1)) * (h * h) by {
      MulLe(n + 1, (r + 1) * (r + 1), h * h);
      assert (n + 1) * (h * h) == n * (h * h) + h * h;
    }
    MulLe2(0, 0, r, h);
    RootBetween(m, r * h, (r + 1) * h);
    assert (r + 1) * h == r * h + h;
  }

  lemma SwapFactors(a: int, b: int)
    ensures (a * b) * (a * b) == (a * a) * (b * b)
  {
  }

  lemma RootBetween(m: nat, lo: nat, hi: nat)
    requires lo * lo <= m < hi * hi
    ensures lo <= Root(m) < hi
  {
    var r := Root(m);
    if r < lo {
      MulLe2(r + 1, r + 1, lo, lo);
      assert false;
    }
    if hi <= r {
      MulLe2(hi, hi, r, r);
      assert false;
    }
  }

  // Squaring the root never exceeds the argument.
  lemma SquareOfSqrt(n: U256)
    ensures CheckedMul(TrySqrt(n), TrySqrt(n)).Some?
    ensures CheckedMul(TrySqrt(n), TrySqrt(n)).value <= n
  {
    DivIsWord();
    TrySqrtAccuracy(n);
    var r := TrySqrt(n);
    CheckedMulIsFloor(r, r);
    SquareBelow(r, n, DIV);
  }

  lemma SquareBelow(r: nat, n: nat, d: nat)
    requires 0 < d && 0 <= n * d && r <= Root(n * d)
    ensures 0 <= r * r && 0 <= r * r / d <= n
  {
    var e := Root(n * d);
    MulLe2(r, r, e, e);
    DivMono(r * r, n * d, d);
    DivExact(n, d);
    DivBounds(r * r, d);
  }

  // For every raw x divisible by 10^9 whose square fits, the square root of x * x is x, on
  // both paths.
  lemma SqrtOfSquare(x: U256, y: nat)
    requires x == y * HALF_DIV
    requires CheckedMul(x, x).Some?
    ensures TrySqrt(CheckedMul(x, x).value) == x
  {
    DivIsWord();
    CheckedMulIsFloor(x, x);
    SquareOfMultiple(x, y, HALF_DIV);
    RootOfSquare(x);
    RootOfSquare(y);
    RootOfSquare(HALF_DIV);
  }

  lemma SquareOfMultiple(x: nat, y: nat, h: nat)
    requires x == y * h && 1 <= h
    ensures 0 < h * h
    ensures x * x / (h * h) == y * y && (y * y) * (h * h) == x * x
    ensures y * y == 0 ==> x == 0
  {
    SwapFactors(y, h);
    MulLe2(1, 1, h, h);
    MulLe2(0, 0, y, y);
    DivExact(y * y, h * h);
  }
}
