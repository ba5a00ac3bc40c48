// The rounding arithmetic behind proportional amounts: compositions of floors over plain
// integers, with d standing for 10^18.
module Shares {
  import opened Arith

  // p = ((a * b / d) * d) / c falls short of a * b / c by less than (c + d) / c.
  lemma FloorTwice(a: nat, b: nat, c: nat, d: nat, m: nat, p: nat)
    requires 0 < c && 0 < d && 0 <= a * b && 0 <= m * d
    requires m == a * b / d && p == m * d / c
    ensures p * c <= a * b < p * c + c + d
  {
  }

  // price = out * d / inp rounded down, then a / price rounded down: at least floor(a * inp / out).
  lemma PriceThenDiv(a: nat, out: nat, inp: nat, d: nat, price: nat, p: nat)
    requires 0 < inp && 0 < d && 0 < price && 0 <= out * d && 0 <= a * d
    requires price == out * d / inp && p == a * d / price
    ensures a * inp < (p + 1) * out
  {
    DivBounds(out * d, inp);
    DivBounds(a * d, price);
    assert (p + 1) * price == p * price + price;
    CrossMultiply(a, d, p + 1, price, inp, out);
  }

  lemma CrossMultiply(a: nat, d: nat, k: nat, price: nat, inp: nat, out: nat)
    requires 0 < d && 0 < inp
    requires a * d < k * price && price * inp <= out * d
    ensures a * inp < k * out
  {
  }

  lemma Rotate(x: int, y: int, z: int)
    ensures (x * y) * z == (y * z) * x
    ensures (y * z) * x == (y * x) * z
  {
  }

  // price rounded down, then a * price rounded down: at most a * out / inp.
  lemma PriceThenMul(a: nat, out: nat, inp: nat, d: nat, price: nat, p: nat)
    requires 0 < inp && 0 < d && 0 <= out * d && 0 <= a * price
    requires price == out * d / inp && p == a * price / d
    ensures p * inp <= a * out
  {
    DivBounds(out * d, inp);
    DivBounds(a * price, d);
    assert (p * inp) * d <= (a * price) * inp by {
      MulLe(p * d, a * price, inp);
      Rotate(inp, p, d);
    }
    assert (a * price) * inp <= (a * out) * d by {
      MulLe(price * inp, out * d, a);
      Rotate(a, price, inp);
      Rotate(a, out, d);
    }
    MulLeCancel(p * inp, a * out, d);
  }

  // And short of it by less than one unit, and a * 1 / d for the rounding of the price.
  lemma PriceThenMulLow(a: nat, out: nat, inp: nat, d: nat, price: nat, p: nat)
    requires 0 < inp && 0 < d && 0 <= out * d && 0 <= a * price
    requires price == out * d / inp && p == a * price / d
    ensures (a * out) * d < ((p + 1) * inp) * d + a * inp || a == 0
  {
    DivBounds(out * d, inp);
    DivBounds(a * price, d);
    if a > 0 {
      assert (a * out) * d < (a * price) * inp + a * inp by {
        MulLe(out * d + 1, price * inp + inp, a);
        Rotate(a, out, d);
        Rotate(a, price, inp);
        assert (out * d + 1) * a == (out * d) * a + a;
        assert (price * inp + inp) * a == (price * inp) * a + inp * a;
      }
      assert (a * price) * inp <= ((p + 1) * inp) * d by {
        assert (p + 1) * d == p * d + d;
        MulLe(a * price, (p + 1) * d, inp);
        Rotate(inp, p + 1, d);
      }
    }
  }

  // The quotient by a rounded price exceeds the exact one by p * inp / (d * out) at most.
  lemma PriceThenDivHigh(a: nat, out: nat, inp: nat, d: nat, price: nat, p: nat)
    requires 0 < inp && 0 < d && 0 < price && 0 <= out * d && 0 <= a * d
    requires price == out * d / inp && p == a * d / price
    ensures (p * out) * d <= (a * inp) * d + p * inp
  {
    DivBounds(out * d, inp);
    DivBounds(a * d, price);
    assert (p * out) * d <= (p * price) * inp + p * inp by {
      MulLe(out * d, price * inp + inp, p);
      Rotate(p, out, d);
      Rotate(p, price, inp);
      assert (price * inp + inp) * p == (price * inp) * p + inp * p;
    }
    assert (p * price) * inp <= (a * inp) * d by {
      MulLe(p * price, a * d, inp);
      Rotate(inp, a, d);
    }
  }

  lemma FloorBelow(x: nat, d: nat, max: nat)
    requires 0 < d && 0 <= max * d && x <= max * d
    ensures 0 <= x / d <= max
  {
    DivLe(x, d);
    DivMono(x, max * d, d);
    DivExact(max, d);
  }

  // If a part of the input times the output is too large to divide, the price is not: both
  // paths of `proportional_output` cannot overflow together.
  lemma OnePathFits(a: nat, out: nat, inp: nat, d: nat, max: nat)
    requires 0 < a <= inp && out <= max && 0 < d && 0 <= a * out && 0 <= out * d
    ensures a * out / d <= max || out * d / inp <= max
  {
    if d <= inp {
      MulLe2(out, d, max, inp);
      FloorBelow(out * d, inp, max);
    } else {
      MulLe2(out, a, max, d);
      FloorBelow(a * out, d, max);
    }
  }

  // On the way to an input, a product too large to divide means the price fits.
  lemma PriceFits(a: nat, out: nat, inp: nat, d: nat, max: nat)
    requires a <= out <= max && 0 < inp && 0 < d && 0 <= out * d
    requires (max + 1) * d <= a * inp
    ensures out * d / inp <= max
  {
    assert d <= inp by {
      assert (max + 1) * d == max * d + d;
      if inp < d {
        MulLe2(a, inp, max, d);
        assert false;
      }
    }
    MulLe2(out, d, max, inp);
    FloorBelow(out * d, inp, max);
  }

  lemma ShareAtMostWhole(p: nat, inp: nat, a: nat, out: nat)
    requires 0 < inp && a <= inp && p * inp <= a * out
    ensures p <= out
  {
  }

  lemma RatioAtMostOne(a: nat, whole: nat, d: nat)
    requires 0 < whole && a <= whole && 0 <= a * d
    ensures 0 <= a * d / whole <= d
  {
  }
}
