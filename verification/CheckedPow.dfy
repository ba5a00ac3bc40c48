// Generic exponentiation by squaring with overflow detection
// (common/src/arithmetic/checked.rs, sp_saturating.rs), for any primitive integer type.
module CheckedPower {
  import opened Arith
  import opened FixedPoint

  function CheckedTimes(t: IntType, a: int, b: int): Option<int> {
    if t.Has(a * b) then Some(a * b) else None
  }

  function CheckedPowSpec(t: IntType, base: int, exp: nat): Option<int> {
    if t.Has(Pow(base, exp)) then Some(Pow(base, exp)) else None
  }

  // None exactly when the power itself does not fit: no squaring overflows needlessly, not
  // even for the most negative value of a signed type.
  method CheckedPow(t: IntType, x: int, n: nat) returns (r: Option<int>)
    requires t.Valid() && t.Has(x)
    ensures r == CheckedPowSpec(t, x, n)
  {
    if n == 0 {
      return Some(1);
    }
    var base, exp := x, n;
    while exp % 2 == 0
      invariant 1 <= exp && t.Has(base) && Pow(base, exp) == Pow(x, n)
      decreases exp
    {
      SquareOut(t, base, exp / 2);
      var square := CheckedTimes(t, base, base);
      if square == None {
        return None;
      }
      base, exp := square.value, exp / 2;
    }
    if exp == 1 {
      return Some(base);
    }
    var acc := base;
    OddPower(base, exp);
    while exp > 1
      invariant 1 <= exp && t.Has(base) && t.Has(acc)
      invariant acc * Pow(base * base, exp / 2) == Pow(x, n)
      invariant -1 <= acc <= 0 ==> -1 <= base <= 1
      decreases exp
    {
      exp := exp / 2;
      SquareFails(t, acc, base, exp);
      var square := CheckedTimes(t, base, base);
      if square == None {
        return None;
      }
      base := square.value;
      if exp % 2 == 1 {
        ProductFails(t, acc, base, exp);
        var product := CheckedTimes(t, acc, base);
        if product == None {
          return None;
        }
        UnitProduct(acc, base);
        acc := product.value;
      } else {
        PowSquare(base, exp / 2);
      }
    }
    return Some(acc);
  }

  lemma {:induction false} PowAtLeastBase(c: int, n: nat)
    requires 1 <= c
    ensures 1 <= Pow(c, n) && (1 <= n ==> c <= Pow(c, n))
  {
    if n > 0 {
      PowAtLeastBase(c, n - 1);
      MulLe(1, Pow(c, n - 1), c);
    }
  }

  // An even power is a power of the square; if the square is out of range, so is the power.
  lemma SquareOut(t: IntType, base: int, half: nat)
    requires t.Valid() && 1 <= half
    ensures Pow(base, 2 * half) == Pow(base * base, half)
    ensures !t.Has(base * base) ==> !t.Has(Pow(base, 2 * half))
  {
    PowSquare(base, half);
    if !t.Has(base * base) {
      SquareNonneg(base);
      PowAtLeastBase(base * base, half);
    }
  }

  lemma SquareNonneg(a: int)
    ensures 0 <= a * a
    ensures a != 0 ==> 1 <= a * a
  {
  }

  lemma OddPower(base: int, exp: nat)
    requires exp % 2 == 1
    ensures Pow(base, exp) == base * Pow(base * base, exp / 2)
  {
    PowSquare(base, exp / 2);
  }

  lemma SquareFails(t: IntType, acc: int, base: int, exp: nat)
    requires t.Valid() && 1 <= exp
    requires -1 <= acc <= 0 ==> -1 <= base <= 1
    ensures !t.Has(base * base) ==> !t.Has(acc * Pow(base * base, exp))
  {
    SquareNonneg(base);
    if !t.Has(base * base) {
      PowAtLeastBase(base * base, exp);
      var p := Pow(base * base, exp);
      if -1 <= acc <= 0 {
        SmallSquare(base);
        assert false;
      } else if acc > 0 {
        MulLe(1, acc, p);
      } else {
        MulLe(acc, -2, p);
      }
    }
  }

  lemma SmallSquare(b: int)
    requires -1 <= b <= 1
    ensures 0 <= b * b <= 1
  {
  }

  lemma ProductFails(t: IntType, acc: int, base: int, exp: nat)
    requires t.Valid() && exp % 2 == 1 && 0 <= base
    ensures acc * Pow(base, exp) == (acc * base) * Pow(base * base, exp / 2)
    ensures !t.Has(acc * base) ==> !t.Has(acc * Pow(base, exp))
  {
    OddPower(base, exp);
    var p := Pow(base * base, exp / 2);
    assert acc * (base * p) == (acc * base) * p;
    if base == 0 {
      assert acc * base == 0;
    } else {
      SquareNonneg(base);
      PowAtLeastBase(base * base, exp / 2);
      ScaleOut(t, acc * base, p);
    }
  }

  lemma ScaleOut(t: IntType, v: int, p: int)
    requires t.Valid() && 1 <= p
    ensures !t.Has(v) ==> !t.Has(v * p)
  {
  }

  lemma UnitProduct(acc: int, base: int)
    requires 0 <= base
    requires acc == 0 || acc == -1 ==> base <= 1
    ensures -1 <= acc * base <= 0 ==> -1 <= base <= 1
  {
  }

  lemma {:induction false} PowSign(b: int, e: nat)
    ensures b < 0 && e % 2 == 1 ==> Pow(b, e) < 0
    ensures !(b < 0 && e % 2 == 1) ==> 0 <= Pow(b, e)
  {
    if e % 2 == 1 {
      OddPower(b, e);
      SquareNonneg(b);
      PowNonneg(b * b, e / 2);
      if b != 0 {
        PowPos(b * b, e / 2);
      }
    } else {
      PowSquare(b, e / 2);
      SquareNonneg(b);
      PowNonneg(b * b, e / 2);
    }
  }

  function Clamp(t: IntType, v: int): int {
    if v < t.min then t.min else if v > t.max then t.max else v
  }

  // The blanket `saturating_pow`: the exact power clamped into the type.
  method SaturatingPow(t: IntType, x: int, n: nat) returns (r: int)
    requires t.Valid() && t.Has(x)
    ensures r == Clamp(t, Pow(x, n))
  {
    var neg := x < 0 && n % 2 != 0;
    var power := CheckedPow(t, x, n);
    PowSign(x, n);
    return match power
      case Some(v) => v
      case None => if neg then t.min else t.max;
  }
}
