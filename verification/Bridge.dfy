// `BalancePrecisionConverter` (runtime/src/impls.rs), between two chains that count an
// asset at different precisions. The asset's denomination factor and the precisions are
// parameters.
module Bridge {
  import opened Arith
  import opened Words
  import opened FixedWrappers

  // `10_u128.checked_pow(exp)`.
  function Coefficient(exp: nat): Option<Balance> {
    if TenTo(exp) <= BALANCE_MAX then Some(TenTo(exp)) else None
  }

  // The amount actually represented, at the old precision and at the new one.
  function ConvertPrecision(from: nat, to: nat, amount: Balance): Option<(Balance, Balance)> {
    if from == to then Some((amount, amount))
    else if from < to then
      match Coefficient(to - from)
      case None => None
      case Some(coeff) =>
        (match CheckedTimes(amount, coeff)
         case None => None
         case Some(coerced) => Some((amount, coerced)))
    else
      match Coefficient(from - to)
      case None => None
      case Some(coeff) =>
        DivBounds(amount, coeff);
        MulLe2(0, 0, amount / coeff, coeff);
        Some((amount / coeff * coeff, amount / coeff))
  }

  function FromSidechain(factor: Balance, thischain: nat, sidechain: nat, amount: Balance)
    : Option<(Balance, Balance)>
  {
    if factor == 0 then None
    else
      DivLe(amount, factor);
      match ConvertPrecision(sidechain, thischain, amount / factor)
      case None => None
      case Some((a, b)) => Some((b, a))
  }

  function ToSidechain(factor: Balance, thischain: nat, sidechain: nat, amount: Balance)
    : Option<(Balance, Balance)>
  {
    match CheckedTimes(amount, factor)
    case None => None
    case Some(scaled) => ConvertPrecision(thischain, sidechain, scaled)
  }

  function Distance(a: nat, b: nat): nat {
    if a < b then b - a else a - b
  }

  // Conversion answers with one quantity counted at both precisions: the largest one, up to
  // the amount, that both can hold. It fails only on what does not fit a Balance.
  lemma ConvertedIsOneQuantity(from: nat, to: nat, amount: Balance)
    ensures ConvertPrecision(from, to, amount).Some? <==>
      && TenTo(Distance(from, to)) <= BALANCE_MAX
      && (from < to ==> amount * TenTo(to - from) <= BALANCE_MAX)
    ensures ConvertPrecision(from, to, amount).Some? ==>
      var (before, after) := ConvertPrecision(from, to, amount).value;
      && before * TenTo(to) == after * TenTo(from)
      && before <= amount
      && (from <= to ==> before == amount)
      && (to < from ==> amount < before + TenTo(from - to))
  {
    hide TwoTo;
    if from == to {
      OneFits();
    } else if from < to {
      TenToAdd(to - from, from);
      hide TenTo;
      Rescale(amount, TenTo(to - from), TenTo(from));
    } else {
      TenToAdd(from - to, to);
      hide TenTo;
      DivBounds(amount, TenTo(from - to));
      Rescale(amount / TenTo(from - to), TenTo(from - to), TenTo(to));
    }
  }

  lemma OneFits()
    ensures TenTo(0) <= BALANCE_MAX
  {
    hide TwoTo;
    FixedFitsBalance();
  }

  lemma Rescale(x: int, c: int, d: int)
    ensures (x * c) * d == x * (c * d)
  {
  }

  // Both directions answer with one quantity counted on both chains, first at the precision
  // here and then at the other chain's. Coming in, it is the largest that the factor and the
  // two precisions can hold, in units of the factor; going out it is so after scaling up.
  lemma FromSidechainIsOneQuantity(factor: Balance, thischain: nat, sidechain: nat, amount: Balance)
    ensures FromSidechain(factor, thischain, sidechain, amount).Some? <==>
      && factor != 0
      && TenTo(Distance(thischain, sidechain)) <= BALANCE_MAX
      && (sidechain < thischain ==> amount / factor * TenTo(thischain - sidechain) <= BALANCE_MAX)
    ensures FromSidechain(factor, thischain, sidechain, amount).Some? ==>
      var (here, there) := FromSidechain(factor, thischain, sidechain, amount).value;
      && here * TenTo(sidechain) == there * TenTo(thischain)
      && there * factor <= amount
      && amount < there * factor + LeastCredit(factor, thischain, sidechain)
  {
    hide TwoTo, TenTo, ConvertPrecision;
    if factor != 0 {
      DivBounds(amount, factor);
      var z := amount / factor;
      ConvertedIsOneQuantity(sidechain, thischain, z);
      if FromSidechain(factor, thischain, sidechain, amount).Some? {
        var there := FromSidechain(factor, thischain, sidechain, amount).value.1;
        MulLe(there, z, factor);
        if thischain < sidechain {
          Shortfall(amount, z, there, factor, TenTo(sidechain - thischain));
        }
      }
    }
  }

  lemma Shortfall(n: nat, z: nat, t: nat, f: nat, c: nat)
    requires n < z * f + f && z < t + c
    ensures n < t * f + f * c
  {
    OneMore(z, f);
    MulLe(z + 1, t + c, f);
    assert (t + c) * f == t * f + f * c;
  }

  lemma ToSidechainIsOneQuantity(factor: Balance, thischain: nat, sidechain: nat, amount: Balance)
    ensures ToSidechain(factor, thischain, sidechain, amount).Some? <==>
      && amount * factor <= BALANCE_MAX
      && TenTo(Distance(thischain, sidechain)) <= BALANCE_MAX
      && (thischain < sidechain ==> (amount * factor) * TenTo(sidechain - thischain) <= BALANCE_MAX)
    ensures ToSidechain(factor, thischain, sidechain, amount).Some? ==>
      var (here, there) := ToSidechain(factor, thischain, sidechain, amount).value;
      && here * TenTo(sidechain) == there * TenTo(thischain)
      && here <= amount * factor
      && (thischain <= sidechain ==> here == amount * factor)
      && (sidechain < thischain ==> amount * factor < here + TenTo(thischain - sidechain))
  {
    hide TwoTo, TenTo, ConvertPrecision;
    MulLe2(0, 0, amount, factor);
    if amount * factor <= BALANCE_MAX {
      ConvertedIsOneQuantity(thischain, sidechain, amount * factor);
    }
  }

  // Out and back: if the amount can be sent, what arrives can be sent back, and it is the
  // amount sent less what the coarser precision cannot hold.
  lemma OutAndBack(factor: Balance, thischain: nat, sidechain: nat, amount: Balance)
    requires 0 < factor
    requires ToSidechain(factor, thischain, sidechain, amount).Some?
    ensures var arrived := ToSidechain(factor, thischain, sidechain, amount).value.1;
            var back := FromSidechain(factor, thischain, sidechain, arrived);
            && back.Some?
            && back.value.0 ==
                 (if thischain > sidechain
                  then amount - amount % TenTo(thischain - sidechain)
                  else amount)
  {
    hide TenTo, TwoTo;
    MulLe2(0, 0, amount, factor);
    if thischain == sidechain {
      DivExact(amount, factor);
    } else if thischain < sidechain {
      var c := TenTo(sidechain - thischain);
      UpAndDown(amount, factor, c);
    } else {
      var c := TenTo(thischain - sidechain);
      DownAndUp(amount, factor, c);
      DivBounds(amount, c);
    }
  }

  lemma UpAndDown(x: nat, f: nat, c: nat)
    requires 0 < f && 0 < c && 0 <= x * f
    ensures 0 <= (x * f) * c && (x * f) * c / f == x * c && x * c / c == x
  {
    MulLe2(0, 0, x * f, c);
    MulLe2(0, 0, x, c);
    assert (x * f) * c == (x * c) * f;
    DivExact(x * c, f);
    DivExact(x, c);
  }

  // Dividing by c and then by f is dividing by both, so the factor cancels.
  lemma DownAndUp(x: nat, f: nat, c: nat)
    requires 0 < f && 0 < c && 0 <= x * f
    ensures 0 <= x * f / c && (x * f / c) / f == x / c
  {
    var q := x / c;
    DivBounds(x, c);
    DivLe(x * f, c);
    assert q * f <= x * f / c by {
      MulLe(q * c, x, f);
      Swap(q, c, f);
      MulLe2(0, 0, q, f);
      DivGreatest(x * f, c, q * f);
    }
    assert x * f / c < q * f + f by {
      MulLe2(0, 0, q, f);
      StrictlyBelow(x, q, c, f);
      DivGreatest(x * f, c, q * f + f);
    }
    DivUnique(x * f / c, f, q);
  }

  lemma Swap(q: int, c: int, f: int)
    ensures (q * c) * f == (q * f) * c
  {
  }

  lemma StrictlyBelow(x: nat, q: nat, c: nat, f: nat)
    requires x < q * c + c && 0 < f
    ensures x * f < (q * f + f) * c
  {
  }

  // The least amount from the other chain that can be credited here.
  function LeastCredit(factor: Balance, thischain: nat, sidechain: nat): (r: nat)
    requires 0 < factor
    ensures 1 <= r
  {
    if thischain < sidechain then
      MulLe2(1, 1, factor, TenTo(sidechain - thischain));
      factor * TenTo(sidechain - thischain)
    else factor
  }

  // In and back out: the return leg fails only where this chain counts more finely and the
  // credited amount times the factor does not fit. What is returned is what came in, rounded
  // down to what can be credited here.
  lemma InAndBack(factor: Balance, thischain: nat, sidechain: nat, amount: Balance)
    requires FromSidechain(factor, thischain, sidechain, amount).Some?
    ensures var credited := FromSidechain(factor, thischain, sidechain, amount).value.0;
            var back := ToSidechain(factor, thischain, sidechain, credited);
            && (back.Some? <==> sidechain < thischain ==> credited * factor <= BALANCE_MAX)
            && (back.Some? ==>
                  back.value.1 == amount - amount % LeastCredit(factor, thischain, sidechain))
  {
    hide TenTo, TwoTo;
    DivBounds(amount, factor);
    var z := amount / factor;
    if thischain < sidechain {
      var c := TenTo(sidechain - thischain);
      DivideTwice(amount, factor, c);
      DivBounds(z, c);
      FitsBefore(z / c * factor, c, amount);
    } else if sidechain < thischain {
      UpThenDown(z, factor, TenTo(thischain - sidechain));
    }
  }

  lemma FitsBefore(x: nat, c: nat, n: nat)
    requires 1 <= c && x * c <= n
    ensures x <= n
  {
    MulLe(1, c, x);
  }

  lemma DivideTwice(n: nat, f: nat, c: nat)
    requires 0 < f && 0 < c
    ensures 0 < f * c && 0 <= n / f
    ensures ((n / f) / c * f) * c == n - n % (f * c)
  {
    MulLe2(1, 1, f, c);
    DivBounds(n, f);
    DivBounds(n / f, c);
    var q := n / f / c;
    Nested(n, n / f, q, f, c);
    Rescale(q, f, c);
    DivUnique(n, f * c, q);
  }

  lemma Nested(n: nat, z: nat, q: nat, f: nat, c: nat)
    requires z * f <= n < z * f + f && q * c <= z < q * c + c
    ensures q * (f * c) <= n < q * (f * c) + f * c
  {
    OneMore(z, f);
    OneMore(q, c);
    OneMore(q, f * c);
    MulLe(q * c, z, f);
    MulLe(z + 1, (q + 1) * c, f);
    Swap(q, c, f);
    Swap(q + 1, c, f);
    Rescale(q, f, c);
    Rescale(q + 1, f, c);
  }

  lemma OneMore(a: int, b: int)
    ensures (a + 1) * b == a * b + b
  {
  }

  lemma UpThenDown(z: nat, f: nat, c: nat)
    requires 0 < c
    ensures 0 <= (z * c) * f && (z * c) * f / c == z * f
  {
    MulLe2(0, 0, z, f);
    Swap(z, c, f);
    MulLe2(0, 0, z * f, c);
    DivExact(z * f, c);
  }
}
