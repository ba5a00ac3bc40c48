// Integer square root of a word (`helpers_256bit::sqrt`).
module IntSqrt {
  import opened Arith
  import opened Words

  // The floor of the square root, found by counting up. This is the reference the
  // bit-by-bit algorithm is compared with.
  function Root(n: nat): (r: nat)
    ensures r * r <= n < (r + 1) * (r + 1)
    ensures r <= n
  {
    if n == 0 then 0
    else
      var r := Root(n - 1);
      if (r + 1) * (r + 1) <= n then r + 1 else r
  }

  lemma RootUnique(n: nat, r: nat)
    requires r * r <= n < (r + 1) * (r + 1)
    ensures r == Root(n)
  {
    var s := Root(n);
    if r < s {
      MulLe2(r + 1, r + 1, s, s);
      assert false;
    } else if s < r {
      MulLe2(s + 1, s + 1, r, r);
      assert false;
    }
  }

  lemma RootOfSquare(r: nat)
    ensures 0 <= r * r && Root(r * r) == r
  {
    assert (r + 1) * (r + 1) == r * r + 2 * r + 1;
    RootUnique(r * r, r);
  }

  // The loop of `sqrt` on unbounded numbers: `bit` runs down the powers of four.
  function Digits(remaining: nat, result: nat, bit: nat): nat
    decreases bit
  {
    if bit == 0 then result
    else if remaining >= result + bit then
      Digits(remaining - (result + bit), result / 2 + bit, bit / 4)
    else
      Digits(remaining, result / 2, bit / 4)
  }

  // No sum formed by that loop reaches 2^256.
  predicate NeverOverflows(remaining: nat, result: nat, bit: nat)
    decreases bit
  {
    bit == 0 ||
    (&& result + bit < W256
     && if remaining >= result + bit then
          NeverOverflows(remaining - (result + bit), result / 2 + bit, bit / 4)
        else
          NeverOverflows(remaining, result / 2, bit / 4))
  }

  // State of the loop in terms of the root built so far: s is the root without its lower
  // bits, b the weight 2^k of the bit being decided. `result` carries 2 * s * b and
  // `remaining` what is left of n; s + 2b stays within half a word.
  ghost predicate Deciding(n: nat, remaining: nat, result: nat, bit: nat, s: nat, b: nat) {
    && bit == b * b
    && result == 2 * (s * b)
    && remaining + s * s == n
    && n < (s + 2 * b) * (s + 2 * b)
    && s + 2 * b <= W128
  }

  lemma ExpandSquares(s: int, b: int)
    ensures (s + b) * (s + b) == s * s + 2 * (s * b) + b * b
    ensures (s + 2 * b) * (s + 2 * b) == s * s + 4 * (s * b) + 4 * (b * b)
  {
  }

  // No intermediate sum reaches 2^256.
  lemma TrialFits(n: nat, remaining: nat, result: nat, bit: nat, s: nat, b: nat)
    requires Deciding(n, remaining, result, bit, s, b)
    ensures result + bit < W256
  {
    WordIsSquare();
    ExpandSquares(s, b);
    MulLe2(s + 2 * b, s + 2 * b, W128, W128);
    MulLe2(0, 0, s, s);
    MulLe2(0, 0, s, b);
    if s == 0 && b == 0 {
      assert false;
    }
    assert 0 < b * b || 0 < s * s;
  }

  lemma HalveWeights(s: nat, b: nat, b': nat)
    requires b == 2 * b'
    ensures (b * b) / 4 == b' * b'
    ensures 2 * (s * b) / 2 == 2 * (s * b')
    ensures 2 * (s * b) / 2 + b * b == 2 * ((s + b) * b')
  {
  }

  lemma KeepBit(n: nat, remaining: nat, result: nat, bit: nat, s: nat, b: nat, b': nat)
    requires Deciding(n, remaining, result, bit, s, b) && b == 2 * b'
    requires remaining >= result + bit
    ensures Deciding(n, remaining - (result + bit), result / 2 + bit, bit / 4, s + b, b')
  {
    ExpandSquares(s, b);
    HalveWeights(s, b, b');
    assert (s + b) + 2 * b' == s + 2 * b;
  }

  lemma DropBit(n: nat, remaining: nat, result: nat, bit: nat, s: nat, b: nat, b': nat)
    requires Deciding(n, remaining, result, bit, s, b) && b == 2 * b'
    requires remaining < result + bit
    ensures Deciding(n, remaining, result / 2, bit / 4, s, b')
  {
    ExpandSquares(s, b);
    HalveWeights(s, b, b');
  }

  lemma LastBit(n: nat, remaining: nat, result: nat, bit: nat, s: nat)
    requires Deciding(n, remaining, result, bit, s, 1)
    ensures bit == 1 && result / 2 == s
    ensures Root(n) == if remaining >= result + bit then s + 1 else s
  {
    ExpandSquares(s, 1);
    RootUnique(n, if remaining >= result + bit then s + 1 else s);
  }

  lemma {:induction false} DigitsFindRoot(n: nat, remaining: nat, result: nat, bit: nat, s: nat, k: nat)
    requires Deciding(n, remaining, result, bit, s, TwoTo(k))
    ensures NeverOverflows(remaining, result, bit)
    ensures Digits(remaining, result, bit) == Root(n)
    decreases k
  {
    var b := TwoTo(k);
    TrialFits(n, remaining, result, bit, s, b);
    MulLe2(1, 1, b, b);
    if k == 0 {
      LastBit(n, remaining, result, bit, s);
    } else if remaining >= result + bit {
      KeepBit(n, remaining, result, bit, s, b, TwoTo(k - 1));
      DigitsFindRoot(n, remaining - (result + bit), result / 2 + bit, bit / 4, s + b, k - 1);
    } else {
      DropBit(n, remaining, result, bit, s, b, TwoTo(k - 1));
      DigitsFindRoot(n, remaining, result / 2, bit / 4, s, k - 1);
    }
  }

  // `shift` is the exponent of the largest power of four not above n.
  function StartShift(n: U256): nat
    requires 0 < n
  {
    BitLengthOfWord(n);
    var maxShift := WORD_BITS - BitLength(0) - 1;
    var shift := maxShift - (WORD_BITS - BitLength(n));
    shift - shift % 2
  }

  method Sqrt(n: U256) returns (r: U256)
    ensures r == Root(n)
  {
    if n == 0 {
      return 0;
    }
    StartIsRight(n);
    hide TwoTo, NeverOverflows, Digits;
    r := DigitLoop(n, TwoTo(StartShift(n)));
  }

  // The loop, from the first bit to the last.
  method DigitLoop(n: U256, start: U256) returns (r: U256)
    requires NeverOverflows(n, 0, start)
    ensures r == Digits(n, 0, start)
  {
    hide TwoTo, Digits, NeverOverflows;
    var remaining: U256 := n;
    var result: U256 := 0;
    var bit := start;
    while bit != 0
      invariant NeverOverflows(remaining, result, bit)
      invariant Digits(remaining, result, bit) == Digits(n, 0, start)
      decreases bit
    {
      OneDigit(remaining, result, bit);
      if remaining >= result + bit {
        remaining := remaining - (result + bit);
        result := result / 2 + bit;
      } else {
        result := result / 2;
      }
      bit := bit / 4;
    }
    NoMoreDigits(remaining, result);
    return result;
  }

  lemma OneDigit(remaining: nat, result: nat, bit: nat)
    requires 0 < bit && NeverOverflows(remaining, result, bit)
    ensures result + bit < W256
    ensures if remaining >= result + bit then
              && NeverOverflows(remaining - (result + bit), result / 2 + bit, bit / 4)
              && Digits(remaining - (result + bit), result / 2 + bit, bit / 4) == Digits(remaining, result, bit)
            else
              && NeverOverflows(remaining, result / 2, bit / 4)
              && Digits(remaining, result / 2, bit / 4) == Digits(remaining, result, bit)
  {
  }

  lemma NoMoreDigits(remaining: nat, result: nat)
    ensures Digits(remaining, result, 0) == result
  {
  }

  lemma BitLengthOfWord(n: U256)
    requires 0 < n
    ensures 1 <= BitLength(n) <= WORD_BITS
  {
    BitLengthBounds(n);
    BitLengthAtMost(n, WORD_BITS);
  }

  lemma StartIsRight(n: U256)
    requires 0 < n
    ensures TwoTo(StartShift(n)) < W256
    ensures NeverOverflows(n, 0, TwoTo(StartShift(n)))
    ensures Digits(n, 0, TwoTo(StartShift(n))) == Root(n)
  {
    BitLengthOfWord(n);
    var len, shift := BitLength(n), StartShift(n);
    assert shift == len - 1 - (len - 1) % 2;
    var k := shift / 2;
    StartBounds(n, len, k);
    assert shift == k + k;
    DigitsFindRoot(n, n, 0, TwoTo(shift), 0, k);
  }

  lemma StartBounds(n: U256, len: nat, k: nat)
    requires 0 < n && len == BitLength(n) <= WORD_BITS
    requires len - 2 <= k + k <= len - 1
    ensures TwoTo(k + k) < W256
    ensures Deciding(n, n, 0, TwoTo(k + k), 0, TwoTo(k))
  {
    var p := TwoTo(k);
    TwoToAdd(k, k);
    ExpandSquares(0, p);
    assert n < 4 * (p * p) && p * p <= n by {
      BitLengthBounds(n);
      TwoToMono(len, k + k + 2);
      TwoToMono(k + k, len - 1);
      assert TwoTo(k + k + 2) == 2 * TwoTo(k + k + 1);
    }
    assert 2 * p <= W128 by {
      TwoToMono(k + 1, HALF_BITS);
    }
  }

  // What `Root` promises, for a word: the root itself is at most half a word long.
  lemma RootBelowHalfWord(n: U256)
    ensures Root(n) < W128
  {
    WordIsSquare();
    var r := Root(n);
    if W128 <= r {
      MulLe2(W128, W128, r, r);
      assert false;
    }
  }
}
