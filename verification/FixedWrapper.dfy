// `FixedWrapper`: checked arithmetic on `Fixed`, an i128 with 18 fractional digits
// (common/src/fixed_wrapper.rs). Only non-negative operands occur here. The `fixnum` crate
// is taken at its documented word: `rmul` and `rdiv` with `Floor` are the floors of the
// exact results, failing with Overflow above i128::MAX and DivisionByZero on zero.
module FixedWrappers {
  import opened Arith
  import opened Words
  import opened FixedPoint

  const I128_MAX: nat := TwoTo(HALF_BITS - 1) - 1
  const BALANCE_MAX: nat := W128 - 1

  type Balance = b: nat | b <= BALANCE_MAX
  type Fixed = x: nat | x <= I128_MAX

  datatype ArithmeticError = Overflow | DivisionByZero

  datatype Wrapper = Ok(raw: Fixed) | Err(error: ArithmeticError)

  lemma FixedFitsBalance()
    ensures 1 <= DIV <= I128_MAX < BALANCE_MAX
  {
    WordIsSquare();
    hide TwoTo, TenTo;
    DivNumeral();
    WordNumerals();
  }

  // `u128::checked_mul`.
  function CheckedTimes(a: Balance, b: Balance): Option<Balance> {
    MulLe2(0, 0, a, b);
    if a * b <= BALANCE_MAX then Some(a * b) else None
  }

  function FromBalance(b: Balance): (r: Wrapper)
    ensures r.Err? ==> r.error == Overflow
  {
    if b <= I128_MAX then Ok(b) else Err(Overflow)
  }

  function RMul(a: Fixed, b: Fixed): (r: Wrapper)
    ensures r.Err? ==> r.error == Overflow
  {
    var v := FloorMul(a, b);
    if v <= I128_MAX then Ok(v) else Err(Overflow)
  }

  function RDiv(a: Fixed, b: Fixed): (r: Wrapper)
    ensures r == Err(DivisionByZero) <==> b == 0
  {
    if b == 0 then Err(DivisionByZero)
    else
      var v := FloorDiv(a, b);
      if v <= I128_MAX then Ok(v) else Err(Overflow)
  }

  function FloorMul(a: nat, b: nat): nat {
    MulLe2(0, 0, a, b);
    DivLe(a * b, DIV);
    a * b / DIV
  }

  function FloorDiv(a: nat, b: nat): nat
    requires 0 < b
  {
    MulLe2(0, 0, a, DIV);
    DivLe(a * DIV, b);
    a * DIV / b
  }

  // Operators between wrappers: the first error wins.
  function Mul(a: Wrapper, b: Wrapper): Wrapper {
    if a.Err? then a else if b.Err? then b else RMul(a.raw, b.raw)
  }

  function Div(a: Wrapper, b: Wrapper): Wrapper {
    if a.Err? then a else if b.Err? then b else RDiv(a.raw, b.raw)
  }

  // Operators with a plain `Fixed` on the right.
  function MulFixed(a: Wrapper, b: Fixed): Wrapper {
    if a.Err? then Err(Overflow) else Mul(a, Ok(b))
  }

  function DivFixed(a: Wrapper, b: Fixed): Wrapper {
    if a.Err? then Err(Overflow) else Div(a, Ok(b))
  }

  // `try_into_balance().ok()`.
  function ToBalance(w: Wrapper): Option<Balance> {
    FixedFitsBalance();
    match w
    case Ok(v) => Some(v)
    case Err(_) => None
  }
}
