// a * b / c with a 512-bit intermediate and four rounding modes
// (`multiply_by_rational_with_rounding`).
module MulDiv {
  import opened Arith
  import opened Words
  import opened Doubles

  datatype Rounding = Up | Down | NearestPrefUp | NearestPrefDown

  // The signed errors q - n / c that a mode allows, scaled by 2c: a half-open interval.
  predicate ErrorAllowed(error: int, c: nat, mode: Rounding) {
    match mode
    case Down => 0 < error + 2 * c <= 2 * c
    case Up => 0 <= error < 2 * c
    case NearestPrefUp => 0 < error + c <= 2 * c
    case NearestPrefDown => 0 <= error + c < 2 * c
  }

  // What it means for q to be n / c rounded in a mode, without division.
  predicate IsRounded(n: nat, c: nat, mode: Rounding, q: nat)
    requires 0 < c
  {
    ErrorAllowed(2 * (q * c) - 2 * n, c, mode)
  }

  // Whether the remainder of the floor division rounds up.
  predicate Bumps(rem: nat, c: nat, mode: Rounding) {
    match mode
    case Down => false
    case Up => rem != 0
    case NearestPrefUp => 2 * rem >= c
    case NearestPrefDown => 2 * rem > c
  }

  // The rounded quotient, from floor division and the remainder.
  function RoundedQuotient(n: nat, c: nat, mode: Rounding): nat
    requires 0 < c
  {
    DivBounds(n, c);
    if Bumps(n % c, c, mode) then n / c + 1 else n / c
  }

  // RoundedQuotient is the one and only value that IsRounded allows.
  lemma RoundedQuotientIsUnique(n: nat, c: nat, mode: Rounding, q: nat)
    requires 0 < c
    ensures IsRounded(n, c, mode, q) <==> q == RoundedQuotient(n, c, mode)
  {
    hide ErrorAllowed, Bumps;
    DivBounds(n, c);
    var k := n / c;
    Multiples(q, k, c);
    AllowedNearby(q, k, q * c, k * c, n % c, c, mode);
  }

  lemma Multiples(q: nat, k: nat, c: nat)
    requires 0 < c
    ensures q == k ==> q * c == k * c
    ensures q == k + 1 ==> q * c == k * c + c
    ensures q < k ==> q * c + c <= k * c
    ensures k + 1 < q ==> k * c + 2 * c <= q * c
  {
    if q < k {
      MulLe(q + 1, k, c);
    } else if k + 1 < q {
      MulLe(k + 2, q, c);
    }
  }

  // With qc = q * c and kc = k * c for the floor k: only k and k + 1 can be right.
  lemma AllowedNearby(q: int, k: int, qc: int, kc: int, rem: int, c: nat, mode: Rounding)
    requires 0 <= rem < c
    requires q == k ==> qc == kc
    requires q == k + 1 ==> qc == kc + c
    requires q < k ==> qc + c <= kc
    requires k + 1 < q ==> kc + 2 * c <= qc
    ensures ErrorAllowed(2 * qc - 2 * (kc + rem), c, mode) <==>
      q == if Bumps(rem, c, mode) then k + 1 else k
  {
  }

  // The answer the function is documented to give: nothing for c = 0 or an overflowing
  // result, the rounded quotient otherwise.
  function MulDivRounded(a: U256, b: U256, c: U256, mode: Rounding): Option<U256> {
    if c == 0 then None
    else
      MulLe2(0, 0, a, b);
      var q := RoundedQuotient(a * b, c, mode);
      if q < W256 then Some(q) else None
  }

  // Without division: a value v exactly when v is a * b / c rounded in the mode.
  lemma MulDivRoundedMeaning(a: U256, b: U256, c: U256, mode: Rounding, v: U256)
    ensures 0 <= a * b
    ensures MulDivRounded(a, b, c, mode) == Some(v) <==> c != 0 && IsRounded(a * b, c, mode, v)
  {
    MulLe2(0, 0, a, b);
    if c != 0 {
      RoundedQuotientIsUnique(a * b, c, mode, v);
      hide RoundedQuotient, IsRounded;
    }
  }

  method MultiplyByRationalWithRounding(a: U256, b: U256, c: U256, mode: Rounding)
    returns (r: Option<U256>)
    ensures r == MulDivRounded(a, b, c, mode)
  {
    hide TwoTo, Passes;
    if c == 0 {
      return None;
    }
    var product := Double256.ProductOf(a, b);
    var quotient, remainder, _ := product.Div(c);
    MulLe2(0, 0, a, b);
    DivUnique(a * b, c, quotient.Value());
    DivBounds(c, 2);
    match quotient.TryIntoU256() {
      case None =>
        HighIsTooBig(quotient);
        return None;
      case Some(v) =>
        var result: U256 := v;
        var bump := match mode
          case Up => remainder > 0
          case NearestPrefUp => remainder >= c / 2 + c % 2
          case NearestPrefDown => remainder > c / 2
          case Down => false;
        if bump {
          if result + 1 >= W256 {
            return None;
          }
          result := result + 1;
        }
        return Some(result);
    }
  }

  lemma HighIsTooBig(d: Double256)
    requires d.high != 0
    ensures W256 <= d.Value()
  {
    MulLe(1, d.high, W256);
  }
}
