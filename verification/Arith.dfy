// Integer arithmetic shared by the models: powers, and division facts stated so that
// callers never have to reason about `/` with two variables themselves.
module Arith {

  datatype Option<+T> = None | Some(value: T)

  function Min(a: int, b: int): int { if a <= b then a else b }

  function Max(a: int, b: int): int { if a <= b then b else a }

  function Pow(b: int, e: nat): int
    decreases e
  {
    if e == 0 then 1 else b * Pow(b, e - 1)
  }

  function TenTo(n: nat): (r: nat)
    ensures 1 <= r
  {
    if n == 0 then 1 else 10 * TenTo(n - 1)
  }

  lemma {:induction false} TenToAdd(m: nat, n: nat)
    ensures TenTo(m + n) == TenTo(m) * TenTo(n)
    decreases m
  {
    if m > 0 {
      TenToAdd(m - 1, n);
      MulAssoc(10, TenTo(m - 1), TenTo(n));
    }
  }

  lemma {:induction false} TenToMono(m: nat, n: nat)
    requires m <= n
    ensures TenTo(m) <= TenTo(n)
    decreases n
  {
    if m < n {
      TenToMono(m, n - 1);
    }
  }

  lemma MulAssoc(a: int, b: int, c: int)
    ensures (a * b) * c == a * (b * c)
  {
  }

  lemma MulLe(a: int, b: int, c: int)
    requires a <= b && 0 <= c
    ensures a * c <= b * c
  {
  }

  lemma MulLe2(a: int, b: int, c: int, d: int)
    requires 0 <= a <= c && 0 <= b <= d
    ensures 0 <= a * b <= c * d
  {
  }

  lemma MulLeCancel(a: int, b: int, c: int)
    requires a * c <= b * c && 0 < c
    ensures a <= b
  {
  }

  lemma MulLtCancel(a: int, b: int, c: int)
    requires a * c < b * c && 0 < c
    ensures a < b
  {
  }

  // Floor division as the pair of inequalities that pins it down.
  lemma DivBounds(n: nat, d: nat)
    requires 0 < d
    ensures 0 <= n / d <= n
    ensures (n / d) * d <= n < (n / d) * d + d
    ensures n == (n / d) * d + n % d && 0 <= n % d < d
  {
    assert n == (n / d) * d + n % d;
    var q := n / d;
    assert 0 <= q by {
      if q < 0 {
        MulLe(q, -1, d);
        assert false;
      }
    }
    MulLe(1, d, q);
  }

  lemma DivLe(n: nat, d: nat)
    requires 0 < d
    ensures 0 <= n / d <= n
  {
    DivBounds(n, d);
  }

  lemma DivUnique(n: nat, d: nat, q: nat)
    requires 0 < d
    requires q * d <= n < q * d + d
    ensures n / d == q && n % d == n - q * d
  {
    DivBounds(n, d);
    var p := n / d;
    if p < q {
      MulLe(p + 1, q, d);
      assert false;
    } else if q < p {
      MulLe(q + 1, p, d);
      assert false;
    }
  }

  lemma DivMono(a: nat, b: nat, d: nat)
    requires 0 < d && a <= b
    ensures a / d <= b / d
  {
    DivBounds(a, d);
    DivBounds(b, d);
    var p, q := a / d, b / d;
    if q < p {
      MulLe(q + 1, p, d);
      assert false;
    }
  }

  lemma DivExact(q: nat, d: nat)
    requires 0 < d
    ensures (q * d) / d == q
  {
    DivUnique(q * d, d, q);
  }

  // The quotient is the greatest q with q * d <= n.
  lemma DivGreatest(n: nat, d: nat, q: nat)
    requires 0 < d
    ensures q <= n / d <==> q * d <= n
  {
    DivBounds(n, d);
    var p := n / d;
    if q <= p {
      MulLe(q, p, d);
    } else {
      MulLe(p + 1, q, d);
      assert (p + 1) * d == p * d + d;
    }
  }

  lemma {:induction false} PowPos(b: int, e: nat)
    requires 0 < b
    ensures 0 < Pow(b, e)
  {
    if e > 0 {
      PowPos(b, e - 1);
    }
  }

  lemma {:induction false} PowNonneg(b: int, e: nat)
    requires 0 <= b
    ensures 0 <= Pow(b, e)
  {
    if e > 0 {
      PowNonneg(b, e - 1);
    }
  }

  lemma {:induction false} PowAdd(b: int, m: nat, n: nat)
    ensures Pow(b, m + n) == Pow(b, m) * Pow(b, n)
    decreases m
  {
    if m > 0 {
      PowAdd(b, m - 1, n);
      MulAssoc(b, Pow(b, m - 1), Pow(b, n));
    }
  }

  lemma {:induction false} PowSquare(b: int, e: nat)
    ensures Pow(b * b, e) == Pow(b, 2 * e)
    decreases e
  {
    if e > 0 {
      PowSquare(b, e - 1);
      var x := Pow(b, 2 * (e - 1));
      assert Pow(b, 2 * e) == b * Pow(b, 2 * e - 1) == b * (b * x);
      assert (b * b) * x == b * (b * x);
    }
  }
}
