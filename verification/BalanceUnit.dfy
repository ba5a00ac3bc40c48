// `BalanceUnit`: a balance with or without 18 fractional digits
// (common/src/balance_unit.rs).
module BalanceUnits {
  import opened Arith
  import opened Words
  import opened FixedPoint
  import opened FixedWrappers

  datatype Ordering = Less | Equal | Greater

  function Compare(a: int, b: int): Ordering {
    if a < b then Less else if a == b then Equal else Greater
  }

  datatype RoundMode = Ceil | Floor

  function CheckedQuotient(a: Balance, b: Balance): Option<Balance> {
    if b == 0 then None
    else
      DivLe(a, b);
      Some(a / b)
  }

  datatype BalanceUnit = BalanceUnit(inner: Balance, isDivisible: bool) {

    // What the unit is worth, in units of 10^-18.
    function Value(): nat {
      MulLe2(0, 0, inner, DIV);
      if isDivisible then inner else inner * DIV
    }

    function Integer(): Balance {
      DivLe(inner, DIV);
      if isDivisible then inner / DIV else inner
    }

    function FractionalPart(): Balance {
      DivBounds(inner, DIV);
      MulLe2(0, 0, inner / DIV, DIV);
      if isDivisible then inner % DIV else 0
    }

    function Cmp(other: BalanceUnit): Ordering {
      var result := Compare(Integer(), other.Integer());
      if result.Equal? then Compare(FractionalPart(), other.FractionalPart()) else result
    }

    // Both operands at the finer precision of the two; None if scaling up overflows.
    function Aligned(rhs: BalanceUnit): Option<(Balance, Balance)> {
      DivIsBalance();
      match (isDivisible, rhs.isDivisible)
      case (false, true) =>
        (match CheckedTimes(inner, DIV) case Some(l) => Some((l, rhs.inner)) case None => None)
      case (true, false) =>
        (match CheckedTimes(rhs.inner, DIV) case Some(r) => Some((inner, r)) case None => None)
      case _ => Some((inner, rhs.inner))
    }

    function CheckedAdd(rhs: BalanceUnit): Option<BalanceUnit> {
      match Aligned(rhs)
      case None => None
      case Some((l, r)) =>
        if l + r <= BALANCE_MAX then Some(BalanceUnit(l + r, isDivisible || rhs.isDivisible)) else None
    }

    function CheckedSub(rhs: BalanceUnit): Option<BalanceUnit> {
      match Aligned(rhs)
      case None => None
      case Some((l, r)) =>
        if r <= l then Some(BalanceUnit(l - r, isDivisible || rhs.isDivisible)) else None
    }

    function CheckedMul(rhs: BalanceUnit): Option<BalanceUnit> {
      var balance :=
        if isDivisible && rhs.isDivisible
        then ToBalance(Mul(FromBalance(inner), FromBalance(rhs.inner)))
        else CheckedTimes(inner, rhs.inner);
      match balance
      case Some(b) => Some(BalanceUnit(b, isDivisible || rhs.isDivisible))
      case None => None
    }

    function CheckedDiv(rhs: BalanceUnit): Option<BalanceUnit> {
      DivIsBalance();
      var balance :=
        if rhs.isDivisible then
          var left := if isDivisible then Some(inner) else CheckedTimes(inner, DIV);
          if left.None? then None
          else ToBalance(Div(FromBalance(left.value), FromBalance(rhs.inner)))
        else CheckedQuotient(inner, rhs.inner);
      match balance
      case Some(b) => Some(BalanceUnit(b, isDivisible || rhs.isDivisible))
      case None => None
    }

    function IntoIndivisible(mode: RoundMode): BalanceUnit {
      if isDivisible then
        DivBounds(inner, DIV);
        CeilFits(inner);
        BalanceUnit(match mode
                    case Floor => inner / DIV
                    case Ceil => if inner % DIV == 0 then inner / DIV else inner / DIV + 1,
                    false)
      else this
    }

    function IntoDivisible(): Option<BalanceUnit> {
      DivIsBalance();
      if isDivisible then Some(this)
      else
        match CheckedTimes(inner, DIV)
        case Some(b) => Some(BalanceUnit(b, true))
        case None => None
    }
  }

  lemma DivIsBalance()
    ensures 2 <= DIV <= BALANCE_MAX
  {
    FixedFitsBalance();
    DivIsWord();
  }

  lemma CeilFits(a: Balance)
    ensures a % DIV != 0 ==> a / DIV + 1 <= BALANCE_MAX
  {
  }

  // ----------------------------------------------------------------------------- order

  lemma PartsOfValue(u: BalanceUnit)
    ensures u.Value() == u.Integer() * DIV + u.FractionalPart()
    ensures 0 <= u.FractionalPart() < DIV
  {
  }

  lemma LexicographicIsNumeric(q: nat, f: nat, q': nat, f': nat, d: nat)
    requires f < d && f' < d
    ensures q < q' ==> q * d + f < q' * d + f'
  {
    if q < q' {
      MulLe(q + 1, q', d);
      assert (q + 1) * d == q * d + d;
    }
  }

  // `cmp` never scales anything up, yet orders by value across the two precisions.
  lemma CmpIsByValue(a: BalanceUnit, b: BalanceUnit)
    ensures a.Cmp(b) == Compare(a.Value(), b.Value())
  {
    hide TenTo, TwoTo;
    PartsOfValue(a);
    PartsOfValue(b);
    LexicographicIsNumeric(a.Integer(), a.FractionalPart(), b.Integer(), b.FractionalPart(), DIV);
    LexicographicIsNumeric(b.Integer(), b.FractionalPart(), a.Integer(), a.FractionalPart(), DIV);
  }

  // Hence a total preorder; its ties are equal units, or the two precisions of one value.
  lemma CmpIsTotalPreorder(a: BalanceUnit, b: BalanceUnit, c: BalanceUnit)
    ensures a.Cmp(b).Less? <==> b.Cmp(a).Greater?
    ensures !a.Cmp(b).Greater? && !b.Cmp(c).Greater? ==> !a.Cmp(c).Greater?
    ensures a.Cmp(b).Equal? ==> a == b || a.isDivisible != b.isDivisible
  {
    CmpIsByValue(a, b);
    CmpIsByValue(b, a);
    CmpIsByValue(b, c);
    CmpIsByValue(a, c);
    if a.Cmp(b).Equal? && a.isDivisible == b.isDivisible && !a.isDivisible {
      DivIsBalance();
      MulLeCancel(a.inner, b.inner, DIV);
      MulLeCancel(b.inner, a.inner, DIV);
    }
  }

  // ------------------------------------------------------------------------ arithmetic

  // What one inner unit is worth, in units of 10^-18.
  function Unit(divisible: bool): nat { if divisible then 1 else DIV }

  lemma AlignedValues(a: BalanceUnit, b: BalanceUnit)
    ensures a.Aligned(b).Some? ==>
      var u := Unit(a.isDivisible || b.isDivisible);
      && a.Aligned(b).value.0 * u == a.Value()
      && a.Aligned(b).value.1 * u == b.Value()
    ensures a.Aligned(b).None? <==>
      || (!a.isDivisible && b.isDivisible && a.Value() > BALANCE_MAX)
      || (a.isDivisible && !b.isDivisible && b.Value() > BALANCE_MAX)
  {
  }

  // Addition is exact, and fails only when the sum does not fit the result's precision.
  lemma CheckedAddExact(a: BalanceUnit, b: BalanceUnit)
    ensures var u := Unit(a.isDivisible || b.isDivisible);
            a.CheckedAdd(b).Some? <==> a.Value() + b.Value() <= BALANCE_MAX * u
    ensures a.CheckedAdd(b).Some? ==>
      && a.CheckedAdd(b).value.Value() == a.Value() + b.Value()
      && a.CheckedAdd(b).value.isDivisible == (a.isDivisible || b.isDivisible)
  {
    hide TenTo, TwoTo;
    DivIsBalance();
    AlignedValues(a, b);
    if a.Aligned(b).Some? {
      var (l, r) := a.Aligned(b).value;
      SumInUnits(l, r, Unit(a.isDivisible || b.isDivisible), BALANCE_MAX);
    }
  }

  lemma SumInUnits(l: nat, r: nat, u: nat, max: nat)
    requires 1 <= u
    ensures (l + r) * u == l * u + r * u
    ensures l + r <= max <==> l * u + r * u <= max * u
  {
  }

  // Subtraction is exact. It fails when the result would be negative, and also when an
  // indivisible left side is too large to be scaled up.
  lemma CheckedSubExact(a: BalanceUnit, b: BalanceUnit)
    ensures a.CheckedSub(b).Some? <==>
      && b.Value() <= a.Value()
      && (!a.isDivisible && b.isDivisible ==> a.Value() <= BALANCE_MAX)
    ensures a.CheckedSub(b).Some? ==>
      && a.CheckedSub(b).value.Value() == a.Value() - b.Value()
      && a.CheckedSub(b).value.isDivisible == (a.isDivisible || b.isDivisible)
  {
    hide TenTo, TwoTo;
    DivIsBalance();
    AlignedValues(a, b);
    if a.Aligned(b).Some? {
      var (l, r) := a.Aligned(b).value;
      var u := Unit(a.isDivisible || b.isDivisible);
      if r <= l {
        MulLe(r, l, u);
        assert (l - r) * u == l * u - r * u;
      } else {
        MulLe(l + 1, r, u);
        assert (l + 1) * u == l * u + u;
      }
    }
  }

  // So it can fail although the difference is representable.
  lemma CheckedSubGivesUp(a: BalanceUnit, b: BalanceUnit)
    requires a.inner == 340_282_366_920_938_463_464 && !a.isDivisible
    requires b.inner == DIV && b.isDivisible
    ensures a.CheckedSub(b).None? && 0 <= a.Value() - b.Value() <= BALANCE_MAX
  {
    hide TenTo, TwoTo;
    DivNumeral();
    WordNumerals();
  }

  // Multiplication is the floor of the exact product, at every mix of precisions. It fails
  // only when that does not fit, or when two divisible operands are not in range for `Fixed`.
  lemma CheckedMulFloor(a: BalanceUnit, b: BalanceUnit)
    ensures 0 <= a.Value() * b.Value()
    ensures a.CheckedMul(b).Some? <==>
      if a.isDivisible && b.isDivisible
      then Max(a.Value(), b.Value()) <= I128_MAX && a.Value() * b.Value() / DIV <= I128_MAX
      else a.Value() * b.Value() / DIV <= BALANCE_MAX * Unit(a.isDivisible || b.isDivisible)
    ensures a.CheckedMul(b).Some? ==>
      && a.CheckedMul(b).value.Value() == a.Value() * b.Value() / DIV
      && a.CheckedMul(b).value.isDivisible == (a.isDivisible || b.isDivisible)
  {
    hide TenTo, TwoTo;
    DivIsBalance();
    var x: nat, y: nat := a.inner, b.inner;
    MulLe2(0, 0, a.Value(), b.Value());
    MulLe2(0, 0, x, y);
    if !a.isDivisible || !b.isDivisible {
      ScaledProduct(x, y, DIV);
      if !a.isDivisible && !b.isDivisible {
        SumInUnits(x * y, 0, DIV, BALANCE_MAX);
      }
    }
  }

  lemma ScaledProduct(x: nat, y: nat, d: nat)
    requires 0 < d && 0 <= x * y
    ensures 0 <= (x * d) * y && (x * d) * y / d == x * y
    ensures 0 <= x * (y * d) && x * (y * d) / d == x * y
    ensures 0 <= (x * d) * (y * d) && (x * d) * (y * d) / d == (x * y) * d
  {
    DivExact(x * y, d);
    assert (x * d) * y == (x * y) * d;
    assert x * (y * d) == (x * y) * d;
    MulLe2(0, 0, x * y, d);
    DivExact((x * y) * d, d);
    assert (x * d) * (y * d) == ((x * y) * d) * d by {
      var p := y * d;
      assert (x * d) * p == (x * p) * d;
      assert x * (y * d) == (x * y) * d;
    }
  }

  // Division is the floor of the exact quotient whenever one side is divisible; between two
  // indivisible units it is cut further, to a whole number. It fails for a zero divisor, and,
  // if the divisor is divisible, when an operand or the quotient is not in range for `Fixed`.
  lemma CheckedDivFloor(a: BalanceUnit, b: BalanceUnit)
    ensures 0 <= a.Value() * DIV
    ensures a.CheckedDiv(b).Some? <==>
      && 0 < b.Value()
      && (b.isDivisible ==>
            Max(a.Value(), b.Value()) <= I128_MAX && a.Value() * DIV / b.Value() <= I128_MAX)
    ensures a.CheckedDiv(b).Some? ==>
      && a.CheckedDiv(b).value.isDivisible == (a.isDivisible || b.isDivisible)
      && a.CheckedDiv(b).value.Value() ==
           if a.isDivisible || b.isDivisible then a.Value() * DIV / b.Value()
           else a.Value() / b.Value() * DIV
  {
    hide TenTo, TwoTo;
    DivIsBalance();
    FixedFitsBalance();
    MulLe2(0, 0, a.Value(), DIV);
    if !b.isDivisible && b.inner > 0 {
      MulLe(1, b.inner, DIV);
      CommonFactor(a.inner, b.inner, DIV);
    }
  }

  lemma CommonFactor(x: nat, y: nat, d: nat)
    requires 0 < d && 0 < y
    ensures 0 < y * d && 0 <= x * d && (x * d) / (y * d) == x / y
  {
    DivBounds(x, y);
    var q := x / y;
    MulLe(1, y, d);
    MulLe2(0, 0, x, d);
    assert q * (y * d) == (q * y) * d;
    MulLe(q * y, x, d);
    MulLe(x + 1, q * y + y, d);
    assert (q * y + y) * d == (q * y) * d + y * d;
    assert (x + 1) * d == x * d + d;
    DivUnique(x * d, y * d, q);
  }

  // Changing precision: up is exact and comes back under either rounding; down brackets
  // the value within one whole unit. Each gives the precision its name says.
  lemma PrecisionRoundTrip(u: BalanceUnit, mode: RoundMode)
    ensures !u.IntoIndivisible(mode).isDivisible
    ensures u.IntoDivisible().Some? ==> u.IntoDivisible().value.isDivisible
    ensures u.IntoDivisible().Some? <==> u.Value() <= BALANCE_MAX
    ensures u.IntoDivisible().Some? ==>
      && u.IntoDivisible().value.Value() == u.Value()
      && (!u.isDivisible ==> u.IntoDivisible().value.IntoIndivisible(mode) == u)
    ensures u.IntoIndivisible(Floor).Value() <= u.Value() < u.IntoIndivisible(Floor).Value() + DIV
    ensures u.IntoIndivisible(Ceil).Value() < u.Value() + DIV && u.Value() <= u.IntoIndivisible(Ceil).Value()
  {
    hide TenTo, TwoTo;
    DivIsBalance();
    DivBounds(u.inner, DIV);
    MulLe2(0, 0, u.inner, DIV);
    DivUnique(u.inner * DIV, DIV, u.inner);
    assert (u.inner / DIV + 1) * DIV == (u.inner / DIV) * DIV + DIV;
  }
}
