// 256-bit words (`sp_core::U256`): natural numbers below 2^256, with the wrapping
// operations written out. The plain operators of the Rust type panic on overflow;
// here that is the proof that the result is again a `U256`.
module Words {
  import opened Arith

  function TwoTo(n: nat): (r: nat)
    ensures 1 <= r
  {
    if n == 0 then 1 else 2 * TwoTo(n - 1)
  }

  // A word is four 64-bit limbs. Proofs work with the names W128 and W256 rather than with
  // 39- and 78-digit numerals; `WordNumerals` gives the values.
  const LIMB_BITS: nat := 64
  const HALF_BITS: nat := LIMB_BITS + LIMB_BITS
  const WORD_BITS: nat := HALF_BITS + HALF_BITS

  const W128: nat := TwoTo(HALF_BITS)
  const W256: nat := TwoTo(WORD_BITS)
  const MAX256: nat := W256 - 1

  type U256 = x: nat | x < W256

  // The number of values of a `u32`, and `n as u32`: the low 32 bits.
  const U32: nat := 0x1_0000_0000

  function AsU32(n: nat): (r: nat)
    ensures r < U32 && (n < U32 ==> r == n)
  {
    n % U32
  }

  // `U256::overflowing_add`: the wrapped sum and whether it wrapped.
  function OverflowingAdd(a: U256, b: U256): (r: (U256, bool))
    ensures a + b == r.0 + (if r.1 then W256 else 0)
  {
    if a + b < W256 then (a + b, false) else (a + b - W256, true)
  }

  // Number of bits needed to write n; 256 - BitLength(n) is `U256::leading_zeros`.
  function BitLength(n: nat): nat {
    if n == 0 then 0 else 1 + BitLength(n / 2)
  }

  lemma {:induction false} BitLengthBounds(n: nat)
    requires 0 < n
    ensures 0 < BitLength(n)
    ensures TwoTo(BitLength(n) - 1) <= n < TwoTo(BitLength(n))
  {
    if n == 1 {
      assert BitLength(1) == 1 + BitLength(0);
      assert TwoTo(1) == 2 * TwoTo(0);
    } else {
      BitLengthBounds(n / 2);
    }
  }

  lemma {:induction false} BitLengthAtMost(n: nat, w: nat)
    requires n < TwoTo(w)
    ensures BitLength(n) <= w
  {
    if n > 0 {
      BitLengthAtMost(n / 2, w - 1);
    }
  }

  lemma {:induction false} TwoToAdd(m: nat, n: nat)
    ensures TwoTo(m + n) == TwoTo(m) * TwoTo(n)
    decreases m
  {
    if m > 0 {
      TwoToAdd(m - 1, n);
      MulAssoc(2, TwoTo(m - 1), TwoTo(n));
    }
  }

  lemma {:induction false} TwoToMono(m: nat, n: nat)
    requires m <= n
    ensures TwoTo(m) <= TwoTo(n)
    decreases n
  {
    if m < n {
      TwoToMono(m, n - 1);
    }
  }

  lemma WordIsSquare()
    ensures W256 == W128 * W128
    ensures W128 == 2 * TwoTo(HALF_BITS - 1)
    ensures 2 <= W128
  {
    TwoToAdd(HALF_BITS, HALF_BITS);
  }

  lemma TwoToDouble(n: nat, v: nat)
    requires TwoTo(n) == v
    ensures TwoTo(n + n) == v * v
  {
    TwoToAdd(n, n);
  }

  lemma TwoToEight()
    ensures TwoTo(8) == 0x100
  {
  }

  lemma WordNumerals()
    ensures W128 == 0x1_0000_0000_0000_0000_0000_0000_0000_0000
    ensures W256 == 0x1_0000_0000_0000_0000_0000_0000_0000_0000_0000_0000_0000_0000_0000_0000_0000_0000
  {
    hide TwoTo;
    var n := LIMB_BITS / 8;
    TwoToEight();
    TwoToDouble(n, 0x100);
    TwoToDouble(2 * n, 0x1_0000);
    TwoToDouble(4 * n, 0x1_0000_0000);
    TwoToDouble(8 * n, 0x1_0000_0000_0000_0000);
    TwoToDouble(16 * n, 0x1_0000_0000_0000_0000_0000_0000_0000_0000);
  }
}
