// 512-bit intermediate values (common/src/arithmetic/helpers_256bit.rs, mod double256).
module Doubles {
  import opened Arith
  import opened Words

  const W512: nat := W256 * W256

  // Two's complement: 2^256 - a, wrapping to 0 at a = 0.
  function Neg256(a: U256): U256 {
    OverflowingAdd(MAX256 - a, 1).0
  }

  // Meant to be 2^256 / a. At a = 1 the final addition wraps and the result is 0.
  function Div256(a: U256): U256
    requires a != 0
  {
    DivBounds(Neg256(a), a);
    OverflowingAdd(Neg256(a) / a, 1).0
  }

  // 2^256 mod a.
  function Mod256(a: U256): U256
    requires a != 0
  {
    DivBounds(Neg256(a), a);
    Neg256(a) % a
  }

  // Div256/Mod256 split 2^256 exactly as soon as a >= 2, and the part left over is below
  // half a word: this is what makes the reduction loop of `Div` logarithmic.
  lemma WordSplit(a: U256)
    requires 2 <= a
    ensures Div256(a) * a + Mod256(a) == W256
    ensures Mod256(a) < a
    ensures 2 * Mod256(a) < W256
  {
    var n := Neg256(a);
    DivBounds(n, a);
    var k := n / a;
    MulLe(2, a, k);
    assert k + 1 < W256;
    assert (k + 1) * a == k * a + a;
  }

  // The split fails at a = 1, which is why `div` answers that divisor separately.
  lemma WordSplitFailsAtOne()
    ensures Div256(1) == 0 && Div256(1) * 1 + Mod256(1) != W256
  {
  }

  datatype Double256 = Double256(high: U256, low: U256) {

    function Value(): nat {
      high * W256 + low
    }

    function TryIntoU256(): Option<U256> {
      if high == 0 then Some(low) else None
    }

    function LowPart(): Double256 {
      Double256(0, low)
    }

    static function FromLow(low: U256): Double256 {
      Double256(0, low)
    }

    // `scaled_value << 128`, spread over the two words.
    static function LeftShift128(v: U256): (d: Double256)
      ensures d.Value() == v * W128
    {
      ShiftParts(v);
      Double256(v / W128, (v * W128) % W256)
    }

    // Wrapping addition modulo 2^512: exact unless the sum itself needs 513 bits.
    function Add(b: Double256): (d: Double256)
      ensures Value() + b.Value() < W512 ==> d.Value() == Value() + b.Value()
      ensures Value() + b.Value() >= W512 ==> d.Value() == Value() + b.Value() - W512
    {
      var (lo, overflow) := OverflowingAdd(low, b.low);
      var carry: U256 := if overflow then 1 else 0;
      var (hi, wrap1) := OverflowingAdd(high, b.high);
      var (hi', wrap2) := OverflowingAdd(hi, carry);
      CarryValue(W256, high, b.high, carry, hi', lo, (if wrap1 then 1 else 0) + (if wrap2 then 1 else 0));
      Double256(hi', lo)
    }

    // The same addition where it must not wrap.
    function AddExact(b: Double256): (d: Double256)
      requires Value() + b.Value() < W512
      ensures d.Value() == Value() + b.Value()
    {
      Add(b)
    }

    // Schoolbook product over 128-bit halves. No product of halves overflows a word and no
    // addition wraps, so the result is the full product.
    static function ProductOf(a: U256, b: U256): (d: Double256)
      ensures d.Value() == a * b
    {
      WordIsSquare();
      DivBounds(a, W128);
      DivBounds(b, W128);
      var al, ah, bl, bh := a % W128, a / W128, b % W128, b / W128;
      HighHalfSmall(a);
      HighHalfSmall(b);
      HalfProduct(al, bl);
      HalfProduct(al, bh);
      HalfProduct(ah, bl);
      HalfProduct(ah, bh);
      SplitProduct(W128, ah, al, bh, bl);
      WordProduct(a, b);
      var low: U256 := al * bl;
      var mid1: U256 := al * bh;
      var mid2: U256 := ah * bl;
      var high: U256 := ah * bh;
      Double256(high, low).Add(LeftShift128(mid1)).Add(LeftShift128(mid2))
    }

    // One pass of the division loop: a = h * 2^256 + l becomes h * (2^256 mod rhs) + l.
    function Folded(rhs: U256): (b: Double256)
      requires 2 <= rhs && high != 0
      ensures b.Value() == high * Mod256(rhs) + low
      ensures b.Value() < Value()
    {
      WordSplit(rhs);
      WordProduct(high, Mod256(rhs));
      FoldShrinks(high, low, Mod256(rhs), W256);
      ProductOf(high, Mod256(rhs)).AddExact(LowPart())
    }

    // Long division of a 512-bit value by a word.
    //
    // Each pass folds the value and credits h * (2^256 / rhs) to the quotient. The high word
    // may fail to shrink on a pass, so termination is by the whole value. No addition made
    // here goes beyond 512 bits: each meets the condition of `AddExact`. `passes` counts the
    // passes made.
    method Div(rhs: U256) returns (quotient: Double256, remainder: U256, ghost passes: nat)
      requires rhs != 0
      ensures quotient.Value() * rhs + remainder == Value()
      ensures remainder < rhs
      ensures passes == if rhs == 1 then 0 else Passes(this, rhs)
      ensures passes <= WORD_BITS + 2
    {
      hide TwoTo;
      if rhs == 1 {
        quotient, remainder, passes := this, 0, 0;
        return;
      }
      PassesAreFew(this, rhs, 0);
      hide HighBound, Passes;
      var x, low;
      x, low, passes := FoldAll(rhs);
      DivBounds(low, rhs);
      var lowResult: U256 := low / rhs;
      remainder := low % rhs;
      ValueBound(this);
      CombineQuotients(x.Value(), lowResult, rhs, remainder, Value(), W512);
      quotient := x.AddExact(FromLow(lowResult));
    }

    // The loop of the division.
    method FoldAll(rhs: U256) returns (x: Double256, low: U256, ghost passes: nat)
      requires 2 <= rhs
      ensures x.Value() * rhs + low == Value()
      ensures passes == Passes(this, rhs)
    {
      hide TwoTo;
      var q := Div256(rhs);
      hide Div256, Mod256;
      ValueBound(this);
      var a := this;
      x, passes := Double256(0, 0), 0;
      while a.high != 0
        invariant x.Value() * rhs + a.Value() == Value()
        invariant passes + Passes(a, rhs) == Passes(this, rhs)
        decreases a.Value()
      {
        FoldKeeps(x, a, rhs, Value());
        x := x.AddExact(ProductOf(a.high, q));
        a := a.Folded(rhs);
        passes := passes + 1;
      }
      low := a.low;
    }
  }

  // One pass keeps quotient * divisor + rest, and its credit does not wrap.
  lemma FoldKeeps(x: Double256, a: Double256, rhs: U256, total: nat)
    requires 2 <= rhs && a.high != 0 && total < W512
    requires x.Value() * rhs + a.Value() == total
    ensures x.Value() + Double256.ProductOf(a.high, Div256(rhs)).Value() < W512
    ensures x.AddExact(Double256.ProductOf(a.high, Div256(rhs))).Value() * rhs + a.Folded(rhs).Value() == total
  {
    hide TwoTo;
    WordSplit(rhs);
    hide Div256, Mod256;
    FoldStep(x.Value(), a.high, a.low, rhs, Div256(rhs), Mod256(rhs), W256, W512);
  }

  // How many passes it takes until the high word is clear.
  function Passes(a: Double256, rhs: U256): nat
    requires 2 <= rhs
    decreases a.Value()
  {
    if a.high == 0 then 0 else 1 + Passes(a.Folded(rhs), rhs)
  }

  lemma {:induction false} PassesAreFew(a: Double256, rhs: U256, n: nat)
    requires 2 <= rhs && HighBound(a, Mod256(rhs), n)
    ensures n + Passes(a, rhs) <= WORD_BITS + 2
    decreases a.Value()
  {
    hide TwoTo, Mod256;
    if a.high != 0 {
      WordSplit(rhs);
      FoldHalves(a, rhs, n);
      PassesAreFew(a.Folded(rhs), rhs, n + 1);
    }
  }

  lemma FoldShrinks(h: nat, l: nat, r: nat, w: nat)
    requires 0 < h && r < w
    ensures 0 <= h * r && h * r + l < h * w + l
  {
    MulLe2(0, 0, h, r);
    MulLe(r + 1, w, h);
    assert (r + 1) * h == r * h + h;
  }

  lemma ValueBound(d: Double256)
    ensures d.Value() < W512
  {
    MulLe(d.high, W256 - 1, W256);
    assert (W256 - 1) * W256 == W256 * W256 - W256;
  }

  lemma ShiftParts(v: U256)
    ensures 2 <= W128 && W256 == W128 * W128
    ensures 0 <= v / W128 < W256 && 0 <= (v * W128) % W256 < W256
    ensures (v / W128) * W256 + (v * W128) % W256 == v * W128
  {
    WordIsSquare();
    ShiftByHalf(W128, v);
  }

  lemma ShiftByHalf(w: nat, v: nat)
    requires 2 <= w
    ensures 0 < w * w
    ensures 0 <= v / w <= v
    ensures 0 <= (v * w) % (w * w) < w * w
    ensures (v / w) * (w * w) + (v * w) % (w * w) == v * w
  {
    DivBounds(v, w);
    var h, l := v / w, v % w;
    MulLe(l, w - 1, w);
    MulLe(0, l, w);
    assert v * w == (h * w + l) * w == (h * w) * w + l * w;
    assert (h * w) * w == h * (w * w);
    assert (w - 1) * w == w * w - w;
    MulLe2(1, 1, w, w);
    DivUnique(v * w, w * w, h);
  }

  lemma CarryValue(w: nat, h1: nat, h2: nat, carry: nat, h: nat, lo: nat, wraps: nat)
    requires 0 < w && h1 < w && h2 < w && h < w && lo < w && carry <= 1
    requires h1 + h2 + carry == h + wraps * w
    ensures wraps <= 1
    ensures h1 * w + h2 * w + carry * w + lo == h * w + lo + wraps * (w * w)
    ensures h * w + lo < w * w
  {
    if 2 <= wraps {
      MulLe(2, wraps, w);
      assert false;
    }
    assert (h1 + h2 + carry) * w == h1 * w + h2 * w + carry * w;
    assert (h + wraps * w) * w == h * w + wraps * (w * w);
    MulLe(h, w - 1, w);
    assert (w - 1) * w == w * w - w;
  }

  lemma HighHalfSmall(a: U256)
    requires 0 < W128
    ensures 0 <= a / W128 < W128
  {
    WordIsSquare();
    DivBounds(a, W128);
    if W128 <= a / W128 {
      MulLe(W128, a / W128, W128);
      assert false;
    }
  }

  lemma HalfProduct(x: nat, y: nat)
    requires x < W128 && y < W128
    ensures 0 <= x * y < W256
  {
    WordIsSquare();
    ProductBelow(x, y, W128);
  }

  lemma ProductBelow(x: nat, y: nat, w: nat)
    requires x < w && y < w
    ensures 0 <= x * y && x * y + w <= w * w
  {
    MulLe2(x, y, w - 1, w);
    assert (w - 1) * w == w * w - w;
  }

  lemma WordProduct(x: U256, y: U256)
    ensures 0 <= x * y && x * y + W256 <= W512
  {
    ProductBelow(x, y, W256);
  }

  lemma SplitProduct(w: nat, ah: nat, al: nat, bh: nat, bl: nat)
    ensures (ah * w + al) * (bh * w + bl)
         == (ah * bh) * (w * w) + (al * bh) * w + (ah * bl) * w + al * bl
  {
  }

  // One pass, for any word size w: it keeps x * rhs + (h * w + l), shrinks the second part,
  // and none of its sums reaches `bound` if the whole was below it.
  lemma FoldStep(x: nat, h: nat, l: nat, rhs: nat, q: nat, r: nat, w: nat, bound: nat)
    requires 2 <= rhs && q * rhs + r == w && r < rhs && r < w
    requires 0 < h
    requires x * rhs + (h * w + l) < bound
    ensures 0 <= h * q && 0 <= h * r
    ensures x + h * q < bound
    ensures h * r + l < h * w + l
    ensures (x + h * q) * rhs + (h * r + l) == x * rhs + (h * w + l)
  {
  }

  // After n passes the high word is at most 2^(256-n) while n <= 256; the 257th pass
  // leaves at most 2^256 + l with l < r, and the 258th clears the high word.
  ghost predicate HighBound(a: Double256, r: U256, n: nat) {
    && n <= WORD_BITS + 2
    && (n <= WORD_BITS ==> a.high <= TwoTo(WORD_BITS - n))
    && (n == WORD_BITS + 1 ==> a.high == 0 || (a.high == 1 && a.low < r))
    && (n == WORD_BITS + 2 ==> a.high == 0)
  }

  lemma FoldHalves(a: Double256, rhs: U256, n: nat)
    requires 2 <= rhs && HighBound(a, Mod256(rhs), n) && a.high != 0
    ensures HighBound(a.Folded(rhs), Mod256(rhs), n + 1)
  {
    WordSplit(rhs);
    var r, b := Mod256(rhs), a.Folded(rhs);
    HighHalves(W256, a.high, a.low, r, b.high, b.low);
    if n < WORD_BITS {
      assert TwoTo(WORD_BITS - n) == 2 * TwoTo(WORD_BITS - (n + 1));
    }
  }

  // The high word alone is no measure of progress: dividing by 2^256 - 1, a pass turns
  // (1, 2^256 - 1) into (1, 0).
  lemma HighWordMayNotShrink()
    ensures 2 < W256
    ensures Double256(1, MAX256).Folded(MAX256) == Double256(1, 0)
  {
    WordIsSquare();
    assert 4 <= W256 by {
      MulLe2(2, 2, W128, W128);
    }
    DivUnique(Neg256(MAX256), MAX256, 0);
    assert Mod256(MAX256) == 1;
    var b := Double256(1, MAX256).Folded(MAX256);
    assert b.Value() == W256;
    UniqueParts(W256, b.high, b.low);
  }

  lemma UniqueParts(w: nat, h: nat, l: nat)
    requires 0 < w && l < w && h * w + l == w
    ensures h == 1 && l == 0
  {
  }

  // h' is at most half of h, rounded up; and once h = 1 the fold is plain addition of r.
  lemma HighHalves(w: nat, h: nat, l: nat, r: nat, h': nat, l': nat)
    requires 2 * r < w && l < w && l' < w && 0 < h
    requires h' * w + l' == h * r + l
    ensures 2 * h' <= h + 1
    ensures h == 1 && h' == 1 ==> l' < r
    ensures h == 1 && l < r ==> h' == 0
  {
    MulLe(2 * r, w, h);
    assert 2 * (h * r) == (2 * r) * h;
    assert (h + 2) * w == w * h + 2 * w;
    assert (2 * h') * w == 2 * (h' * w);
    if h + 2 <= 2 * h' {
      MulLe(h + 2, 2 * h', w);
      assert false;
    }
    if h == 1 && l < r && 1 <= h' {
      MulLe(1, h', w);
      assert false;
    }
  }

  lemma CombineQuotients(x: nat, low: nat, rhs: nat, rem: nat, total: nat, bound: nat)
    requires 1 <= rhs && total < bound
    requires x * rhs + low * rhs + rem == total
    ensures x + low < bound
    ensures (x + low) * rhs + rem == total
  {
  }
}
