// Reading and writing `FixedU256` as decimal text (`pow10`, `parse_int`, `parse_fixed` and
// the digits of `Debug` in common/src/fixed.rs). Where the Rust code panics, the answer
// here is None.
module DecimalText {
  import opened Arith
  import opened Words
  import opened FixedPoint

  type Byte = b: nat | b < 256

  const DOT: Byte := '.' as int
  const ZERO: Byte := '0' as int

  // ------------------------------------------------------------------------ specification

  predicate IsDigit(b: Byte) { ZERO <= b < ZERO + 10 }

  predicate AllDigits(s: seq<Byte>) { forall i | 0 <= i < |s| :: IsDigit(s[i]) }

  // The number a digit string denotes.
  function Number(s: seq<Byte>): nat
    requires AllDigits(s)
  {
    if s == [] then 0 else 10 * Number(s[..|s| - 1]) + (s[|s| - 1] - ZERO)
  }

  // Position of the first occurrence, or the length.
  function IndexOf(s: seq<Byte>, b: Byte): (k: nat)
    ensures k <= |s|
    ensures k < |s| ==> s[k] == b
    ensures forall j | 0 <= j < k :: s[j] != b
  {
    if s == [] || s[0] == b then 0 else 1 + IndexOf(s[1..], b)
  }

  function Integral(s: seq<Byte>): seq<Byte> { s[..IndexOf(s, DOT)] }

  function Fractional(s: seq<Byte>): seq<Byte> {
    if IndexOf(s, DOT) < |s| then s[IndexOf(s, DOT) + 1..] else []
  }

  // digits, or digits "." digits with at most 18 after the point; either part may be empty.
  predicate IsLiteral(s: seq<Byte>) {
    AllDigits(Integral(s)) && AllDigits(Fractional(s)) && |Fractional(s)| <= DECIMALS
  }

  // The literal's value in units of 10^-18: its digits read without the point, times a
  // power of ten.
  function LiteralValue(s: seq<Byte>): nat
    requires IsLiteral(s)
  {
    MulLe2(0, 0, Number(Integral(s) + Fractional(s)), TenTo(DECIMALS - |Fractional(s)|));
    Number(Integral(s) + Fractional(s)) * TenTo(DECIMALS - |Fractional(s)|)
  }

  lemma ValueOfParts(s: seq<Byte>)
    requires IsLiteral(s)
    ensures LiteralValue(s)
         == Number(Integral(s)) * DIV + Number(Fractional(s)) * TenTo(DECIMALS - |Fractional(s)|)
  {
    var a, b := Integral(s), Fractional(s);
    NumberOfSplit(a, b, a + b);
    TenToAdd(|b|, DECIMALS - |b|);
    Redistribute(Number(a), TenTo(|b|), Number(b), TenTo(DECIMALS - |b|));
  }

  lemma Redistribute(a: int, x: int, b: int, y: int)
    ensures (a * x + b) * y == a * (x * y) + b * y
  {
  }

  // 2^128 has 39 digits and 2^256 has 78: 10^77 is the last power of ten in a word, so no
  // longer integral part can be read.
  const HALF_DIGITS: nat := 39
  const MAX_DIGITS: nat := HALF_DIGITS + HALF_DIGITS

  // What `parse_fixed` answers. A literal whose value fits is still refused when more than
  // 78 digits precede the point: superfluous leading zeros make `parse_int` ask for a power
  // of ten that overflows.
  function ParseFixedSpec(s: seq<Byte>): Option<U256> {
    if IsLiteral(s) && |Integral(s)| <= MAX_DIGITS && LiteralValue(s) < W256
    then Some(LiteralValue(s)) else None
  }

  // Seventy-nine zeros are such a literal.
  lemma LeadingZerosAreRejected()
    ensures var s := Repeat(ZERO, 79);
            IsLiteral(s) && LiteralValue(s) == 0 && ParseFixedSpec(s) == None
  {
    var s := Repeat(ZERO, 79);
    assert Integral(s) == s && Fractional(s) == [] && s + [] == s;
    NumberOfZeros(79);
  }

  // ----------------------------------------------------------------------- implementation

  method Find(bytes: seq<Byte>, pattern: Byte) returns (r: Option<nat>)
    ensures r == if IndexOf(bytes, pattern) < |bytes| then Some(IndexOf(bytes, pattern)) else None
  {
    var i := 0;
    while i < |bytes|
      invariant i <= |bytes|
      invariant forall j | 0 <= j < i :: bytes[j] != pattern
    {
      if bytes[i] == pattern {
        return Some(i);
      }
      i := i + 1;
    }
    return None;
  }

  const POW_10: seq<nat> := [
    1, 10, 100, 1_000, 10_000, 100_000, 1_000_000, 10_000_000, 100_000_000, 1_000_000_000,
    10_000_000_000, 100_000_000_000, 1_000_000_000_000, 10_000_000_000_000,
    100_000_000_000_000, 1_000_000_000_000_000, 10_000_000_000_000_000,
    100_000_000_000_000_000, 1_000_000_000_000_000_000
  ]

  lemma {:induction false} TableIsTenTo(k: nat)
    requires k < |POW_10|
    ensures POW_10[k] == TenTo(k)
  {
    if k > 0 {
      TableIsTenTo(k - 1);
      assert POW_10[k] == 10 * POW_10[k - 1];
    }
  }

  // 10^power, unless it overflows a word.
  method Pow10(power: nat) returns (r: Option<U256>)
    ensures r == if TenTo(power) < W256 then Some(TenTo(power)) else None
  {
    TenToBounds();
    if power < |POW_10| {
      TableIsTenTo(power);
      TenToMono(power, MAX_DIGITS - 1);
      return Some(POW_10[power]);
    }
    TableIsTenTo(|POW_10| - 1);
    TenToMono(|POW_10| - 1, MAX_DIGITS - 1);
    var result: U256 := POW_10[|POW_10| - 1];
    var i := power - |POW_10| + 1;
    while i > 0
      invariant 0 <= i <= power
      invariant result == TenTo(power - i)
    {
      TenToMono(power - i + 1, power);
      if result * 10 >= W256 {
        return None;
      }
      result := result * 10;
      i := i - 1;
    }
    return Some(result);
  }

  // A byte minus '0' in wrapping arithmetic is below ten exactly for the digits.
  function ParseDigit(byte: Byte): (r: Option<nat>)
    ensures r == if IsDigit(byte) then Some(byte - ZERO) else None
  {
    var digit := (byte + 256 - ZERO) % 256;
    if digit < 10 then Some(digit) else None
  }

  // What `parse_int` answers for a run of bytes.
  function ParseIntSpec(s: seq<Byte>): Option<U256> {
    if AllDigits(s) && |s| <= MAX_DIGITS && Number(s) < W256 then Some(Number(s)) else None
  }

  // After k bytes of s: their weighted sum, as long as s is not too long to be read at all;
  // otherwise the byte that asks for 10^78 is still to come.
  ghost predicate PartialSum(s: seq<Byte>, k: nat, sum: nat) {
    && k <= |s|
    && AllDigits(s[..k])
    && (if |s| <= MAX_DIGITS then sum == Number(s[..k]) * TenTo(|s| - k)
        else |s| - k > MAX_DIGITS)
  }

  // The loop of `parse_int` from its k-th byte on; `(end - i) as u32` may truncate.
  function ReadDigits(s: seq<Byte>, k: nat, sum: U256): Option<U256>
    requires k <= |s|
    decreases |s| - k
  {
    if k == |s| then Some(sum)
    else
      var weight := TenTo(AsU32(|s| - (k + 1)));
      if !IsDigit(s[k]) || weight >= W256 then None
      else
        MulLe2(0, 0, s[k] - ZERO, weight);
        var sum' := sum + (s[k] - ZERO) * weight;
        if sum' >= W256 then None else ReadDigits(s, k + 1, sum')
  }

  lemma {:induction false} ReadDigitsMeaning(s: seq<Byte>, k: nat, sum: U256)
    requires PartialSum(s, k, sum)
    ensures ReadDigits(s, k, sum) == ParseIntSpec(s)
    decreases |s| - k
  {
    if k == |s| {
      assert s[..k] == s;
    } else if IsDigit(s[k]) {
      var weight := TenTo(AsU32(|s| - (k + 1)));
      MulLe2(0, 0, s[k] - ZERO, weight);
      var sum' := sum + (s[k] - ZERO) * weight;
      ReadOne(s, k, sum, weight, sum');
      if weight < W256 && sum' < W256 {
        ReadDigitsMeaning(s, k + 1, sum');
        assert ReadDigits(s, k, sum) == ReadDigits(s, k + 1, sum');
      }
    }
  }

  lemma ReadOne(s: seq<Byte>, k: nat, sum: nat, weight: nat, sum': nat)
    requires PartialSum(s, k, sum) && k < |s| && IsDigit(s[k])
    requires weight == TenTo(AsU32(|s| - (k + 1)))
    requires sum' == sum + (s[k] - ZERO) * weight
    ensures weight < W256 && sum' < W256 ==> PartialSum(s, k + 1, sum')
    ensures weight >= W256 || sum' >= W256 ==> ParseIntSpec(s) == None
  {
    var rest := |s| - (k + 1);
    DigitIsDigit(s, k);
    if |s| <= MAX_DIGITS {
      ShortStep(s, k, rest);
      assert sum' == Number(s[..k + 1]) * TenTo(rest);
    } else {
      LongStep(rest);
    }
  }

  lemma ShortStep(s: seq<Byte>, k: nat, rest: nat)
    requires k < |s| <= MAX_DIGITS && rest == |s| - (k + 1)
    requires AllDigits(s[..k]) && AllDigits(s[..k + 1]) && IsDigit(s[k])
    ensures AsU32(rest) == rest && TenTo(rest) < W256
    ensures Number(s[..k + 1]) * TenTo(rest)
         == Number(s[..k]) * TenTo(rest + 1) + (s[k] - ZERO) * TenTo(rest)
    ensures AllDigits(s) ==> Number(s[..k + 1]) * TenTo(rest) <= Number(s)
  {
    hide TwoTo, TenTo, Number;
    assert TenTo(rest) < W256 by {
      TenToBounds();
      TenToMono(rest, MAX_DIGITS - 1);
    }
    assert s[..k + 1][..k] == s[..k];
    AppendDigit(s[..k], s[..k + 1], rest);
    if AllDigits(s) {
      assert s == s[..k + 1] + s[k + 1..];
      NumberOfSplit(s[..k + 1], s[k + 1..], s);
    }
  }

  // Every byte of an overlong run asks for 10^78 or more before the last 78 are reached.
  lemma LongStep(rest: nat)
    requires MAX_DIGITS <= rest
    ensures TenTo(AsU32(rest)) < W256 ==> MAX_DIGITS < rest
  {
    TenToBounds();
  }

  lemma DigitIsDigit(s: seq<Byte>, k: nat)
    requires k < |s| && AllDigits(s[..k]) && IsDigit(s[k])
    ensures AllDigits(s[..k + 1])
  {
  }

  lemma ReadsAll(s: seq<Byte>)
    ensures ReadDigits(s, 0, 0) == ParseIntSpec(s)
  {
    ReadDigitsMeaning(s, 0, 0);
  }

  method ParseInt(bytes: seq<Byte>, start: nat, end: nat) returns (r: Option<U256>)
    requires start <= end <= |bytes|
    ensures r == ParseIntSpec(bytes[start..end])
  {
    hide ParseIntSpec, TenTo, TwoTo;
    ghost var s := bytes[start..end];
    ReadsAll(s);
    var result: U256 := 0;
    var i := start;
    while i < end
      invariant start <= i <= end
      invariant ReadDigits(s, i - start, result) == ReadDigits(s, 0, 0)
    {
      var digit := ParseDigit(bytes[i]);
      i := i + 1;
      if digit == None {
        return None;
      }
      var pow := Pow10(AsU32(end - i));
      if pow == None {
        return None;
      }
      var sum := result + digit.value * pow.value;
      if sum >= W256 {
        return None;
      }
      MulLe2(0, 0, digit.value, pow.value);
      result := sum;
    }
    return Some(result);
  }

  lemma RejectIntegral(s: seq<Byte>)
    requires ParseIntSpec(Integral(s)) == None
    ensures ParseFixedSpec(s) == None
  {
    if IsLiteral(s) {
      ValueOfParts(s);
      AtLeastIntegral(Number(Integral(s)), DIV, Number(Fractional(s)), TenTo(DECIMALS - |Fractional(s)|));
    }
  }

  lemma AtLeastIntegral(a: nat, d: nat, b: nat, y: nat)
    requires 1 <= d
    ensures a <= a * d + b * y
  {
  }

  lemma RejectExponent(s: seq<Byte>, power: nat)
    requires power == AsU32(|Fractional(s)|) && (TenTo(power) > DIV || TenTo(power) >= W256)
    ensures ParseFixedSpec(s) == None
  {
    if |Fractional(s)| <= DECIMALS {
      DivIsWord();
      TenToMono(|Fractional(s)|, DECIMALS);
      assert false;
    }
  }

  lemma RejectFraction(s: seq<Byte>)
    requires ParseIntSpec(Fractional(s)) == None
    ensures ParseFixedSpec(s) == None
  {
    var frac := Fractional(s);
    if AllDigits(frac) && |frac| <= DECIMALS {
      DivIsWord();
      NumberBelow(frac);
      TenToMono(|frac|, DECIMALS);
      assert false;
    }
  }

  // With both parts read, the sum the code forms is the literal's value.
  lemma Assemble(s: seq<Byte>, integral: nat, exp: nat, fractional: nat)
    requires ParseIntSpec(Integral(s)) == Some(integral)
    requires ParseIntSpec(Fractional(s)) == Some(fractional)
    requires exp == TenTo(AsU32(|Fractional(s)|)) <= DIV
    ensures 0 <= integral * DIV && 0 <= DIV / exp && 0 <= DIV / exp * fractional < W256
    ensures IsLiteral(s) && |Integral(s)| <= MAX_DIGITS
    ensures LiteralValue(s) == integral * DIV + DIV / exp * fractional
  {
    DivIsWord();
    FractionFits(Fractional(s));
    ValueOfParts(s);
    AtLeastIntegral(integral, DIV, 0, 0);
    DivLe(DIV, exp);
  }

  lemma AssembledSum(s: seq<Byte>, integral: nat, exp: nat, fractional: nat, r: Option<U256>)
    requires ParseIntSpec(Integral(s)) == Some(integral)
    requires ParseIntSpec(Fractional(s)) == Some(fractional)
    requires exp == TenTo(AsU32(|Fractional(s)|)) <= DIV
    requires var v := integral * DIV + DIV / exp * fractional;
             if v < W256 then r == Some(v) else r == None
    ensures r == ParseFixedSpec(s)
  {
    Assemble(s, integral, exp, fractional);
  }

  lemma WithoutPoint(s: seq<Byte>)
    requires IndexOf(s, DOT) == |s|
    ensures Integral(s) == s
    ensures ParseIntSpec(s).Some? ==>
      && IsLiteral(s) && |Integral(s)| <= MAX_DIGITS
      && LiteralValue(s) == ParseIntSpec(s).value * DIV
  {
    assert s + [] == s;
  }

  method ParseFixed(str: seq<Byte>) returns (r: Option<U256>)
    ensures r == ParseFixedSpec(str)
  {
    DivIsWord();
    var pow := Pow10(DECIMALS);
    var coef: U256 := pow.value;
    var point := Find(str, DOT);
    if point == None {
      WithoutPoint(str);
      assert str[0..|str|] == str;
      var integral := ParseInt(str, 0, |str|);
      if integral == None {
        RejectIntegral(str);
        return None;
      }
      var scaled := integral.value * coef;
      return if scaled < W256 then Some(scaled) else None;
    }
    r := ParseWithPoint(str, point.value, coef);
  }

  // The part of `parse_fixed` after the point has been found.
  method ParseWithPoint(str: seq<Byte>, k: nat, coef: U256) returns (r: Option<U256>)
    requires k == IndexOf(str, DOT) < |str| && coef == DIV
    ensures r == ParseFixedSpec(str)
  {
    hide TwoTo, TenTo, ParseFixedSpec, ParseIntSpec;
    assert str[0..k] == Integral(str);
    var integral := ParseInt(str, 0, k);
    if integral == None {
      RejectIntegral(str);
      return None;
    }
    ghost var frac := Fractional(str);
    assert frac == str[k + 1..|str|];
    var power := AsU32(|str| - k - 1);
    var exp := Pow10(power);
    if exp == None || exp.value > coef {
      RejectExponent(str, power);
      return None;
    }
    var fractional := ParseInt(str, k + 1, |str|);
    if fractional == None {
      RejectFraction(str);
      return None;
    }
    Assemble(str, integral.value, exp.value, fractional.value);
    r := SumParts(integral.value, coef, exp.value, fractional.value);
    AssembledSum(str, integral.value, exp.value, fractional.value, r);
  }

  // The final checked arithmetic: integral * coef + coef / exp * fractional.
  method SumParts(integral: U256, coef: U256, exp: U256, fractional: U256) returns (r: Option<U256>)
    requires 0 < exp && 0 <= coef / exp && 0 <= coef / exp * fractional < W256
    requires 0 <= integral * coef
    ensures var v := integral * coef + coef / exp * fractional;
            r == if v < W256 then Some(v) else None
  {
    var finalIntegral := integral * coef;
    var finalFractional := coef / exp * fractional;
    if finalIntegral >= W256 || finalIntegral + finalFractional >= W256 {
      return None;
    }
    return Some(finalIntegral + finalFractional);
  }

  // ------------------------------------------------------------------------- digit strings

  lemma TenToThirteen()
    ensures TenTo(13) == 10_000_000_000_000
  {
  }

  lemma TenToBounds()
    ensures TenTo(MAX_DIGITS - 1) < W256 < TenTo(MAX_DIGITS)
    ensures TenTo(MAX_DIGITS) == 10 * TenTo(MAX_DIGITS - 1)
  {
    var n := HALF_DIGITS / 3;
    assert TenTo(MAX_DIGITS) == 10 * TenTo(MAX_DIGITS - 1);
    hide TwoTo, TenTo;
    WordNumerals();
    TenToThirteen();
    TenToSum(n, n, 10_000_000_000_000, 10_000_000_000_000);
    TenToSum(2 * n, n, 100_000_000_000_000_000_000_000_000, 10_000_000_000_000);
    TenToSum(3 * n, 3 * n, 1_000_000_000_000_000_000_000_000_000_000_000_000_000,
             1_000_000_000_000_000_000_000_000_000_000_000_000_000);
  }

  lemma TenToSum(m: nat, n: nat, u: nat, v: nat)
    requires TenTo(m) == u && TenTo(n) == v
    ensures TenTo(m + n) == u * v
  {
    TenToAdd(m, n);
  }

  lemma {:induction false} NumberOfSplit(a: seq<Byte>, b: seq<Byte>, s: seq<Byte>)
    requires s == a + b && AllDigits(a) && AllDigits(b)
    ensures AllDigits(s)
    ensures Number(s) == Number(a) * TenTo(|b|) + Number(b)
    decreases |b|
  {
    if b == [] {
      assert s == a;
    } else {
      var b', s' := b[..|b| - 1], s[..|s| - 1];
      assert s' == a + b';
      NumberOfSplit(a, b', s');
      ShiftSum(Number(a), TenTo(|b'|), Number(b'));
    }
  }

  lemma ShiftSum(x: int, t: int, n: int)
    ensures 10 * (x * t + n) == x * (10 * t) + 10 * n
  {
  }

  lemma AppendDigit(before: seq<Byte>, after: seq<Byte>, rest: nat)
    requires AllDigits(before) && |after| == |before| + 1 && after[..|before|] == before
    requires IsDigit(after[|before|])
    ensures AllDigits(after)
    ensures Number(after) * TenTo(rest)
         == Number(before) * TenTo(rest + 1) + (after[|before|] - ZERO) * TenTo(rest)
  {
    assert forall i | 0 <= i < |before| :: after[i] == before[i];
    var x, d, t := Number(before), after[|before|] - ZERO, TenTo(rest);
    assert Number(after) == 10 * x + d;
    assert (10 * x + d) * t == 10 * (x * t) + d * t;
    assert x * (10 * t) == 10 * (x * t);
  }

  lemma {:induction false} NumberBelow(s: seq<Byte>)
    requires AllDigits(s)
    ensures Number(s) < TenTo(|s|)
  {
    if s != [] {
      NumberBelow(s[..|s| - 1]);
    }
  }

  // A fraction of at most 18 digits scales to less than one.
  lemma FractionFits(frac: seq<Byte>)
    requires AllDigits(frac) && TenTo(|frac|) <= DIV
    ensures |frac| <= DECIMALS
    ensures 0 <= DIV / TenTo(|frac|) * Number(frac) < DIV
    ensures DIV / TenTo(|frac|) * Number(frac) == Number(frac) * TenTo(DECIMALS - |frac|)
  {
    assert |frac| <= DECIMALS by {
      if DECIMALS < |frac| {
        TenToMono(DECIMALS + 1, |frac|);
        assert false;
      }
    }
    hide TenTo;
    NumberBelow(frac);
    TenToAdd(DECIMALS - |frac|, |frac|);
    ScaledFraction(Number(frac), TenTo(|frac|), TenTo(DECIMALS - |frac|));
  }

  lemma ScaledFraction(n: nat, exp: nat, rest: nat)
    requires n < exp && 1 <= rest
    ensures (rest * exp) / exp == rest
    ensures 0 <= rest * n == n * rest < rest * exp
  {
    DivExact(rest, exp);
    MulLe(n + 1, exp, rest);
    assert (n + 1) * rest == n * rest + rest;
    MulLe2(0, 0, n, rest);
  }

  function Repeat(b: Byte, n: nat): (s: seq<Byte>)
    ensures |s| == n && forall i | 0 <= i < n :: s[i] == b
  {
    seq(n, i => b)
  }

  lemma {:induction false} NumberOfZeros(n: nat)
    ensures AllDigits(Repeat(ZERO, n)) && Number(Repeat(ZERO, n)) == 0
  {
    if n > 0 {
      NumberOfZeros(n - 1);
      assert Repeat(ZERO, n)[..n - 1] == Repeat(ZERO, n - 1);
    }
  }

  // ------------------------------------------------------------------- writing and reading

  // Decimal digits without leading zeros, as integers are displayed.
  function Digits(n: nat): (s: seq<Byte>)
    ensures AllDigits(s) && s != []
  {
    if n < 10 then [ZERO + n] else Digits(n / 10) + [ZERO + n % 10]
  }

  // Filled with zeros on the left up to a width.
  function Padded(n: nat, width: nat): seq<Byte> {
    var d := Digits(n);
    if |d| < width then Repeat(ZERO, width - |d|) + d else d
  }

  // The text `Debug` writes between the parentheses: integer part, point, 18 digits.
  function DebugText(x: U256): seq<Byte> {
    DivIsWord();
    DivBounds(x, DIV);
    Digits(x / DIV) + [DOT] + Padded(x % DIV, DECIMALS)
  }

  lemma {:induction false} DigitsDenote(n: nat)
    ensures Number(Digits(n)) == n
  {
    var s := Digits(n);
    if n < 10 {
      assert s[..0] == [];
    } else {
      DigitsDenote(n / 10);
      assert s[..|s| - 1] == Digits(n / 10);
    }
  }

  lemma {:induction false} DigitsLength(n: nat, k: nat)
    requires 1 <= k && n < TenTo(k)
    ensures |Digits(n)| <= k
    decreases k
  {
    if n >= 10 {
      assert k > 1 by {
        assert TenTo(1) == 10 * TenTo(0);
      }
      DigitsLength(n / 10, k - 1);
    }
  }

  lemma PaddedDenotes(n: nat, width: nat)
    requires 1 <= width && n < TenTo(width)
    ensures |Padded(n, width)| == width
    ensures AllDigits(Padded(n, width)) && Number(Padded(n, width)) == n
  {
    DigitsLength(n, width);
    DigitsDenote(n);
    var d := Digits(n);
    if |d| < width {
      NumberOfZeros(width - |d|);
      NumberOfSplit(Repeat(ZERO, width - |d|), d, Padded(n, width));
    }
  }

  lemma IndexAfterDigits(a: seq<Byte>, b: seq<Byte>)
    requires AllDigits(a)
    ensures IndexOf(a + [DOT] + b, DOT) == |a|
    ensures Integral(a + [DOT] + b) == a && Fractional(a + [DOT] + b) == b
  {
    var s := a + [DOT] + b;
    var k := IndexOf(s, DOT);
    assert s[|a|] == DOT;
    assert forall j | 0 <= j < |a| :: s[j] == a[j] && IsDigit(a[j]);
  }

  // Every FixedU256 is read back from the text it is written as.
  lemma DebugReadsBack(x: U256)
    ensures ParseFixedSpec(DebugText(x)) == Some(x)
  {
    assert TenTo(DECIMALS - DECIMALS) == 1;
    hide TwoTo, TenTo, Digits, Padded;
    DivIsWord();
    DivBounds(x, DIV);
    var q, f := x / DIV, x % DIV;
    var a, b := Digits(q), Padded(f, DECIMALS);
    IndexAfterDigits(a, b);
    PaddedDenotes(f, DECIMALS);
    DigitsDenote(q);
    IntegralIsShort(q);
    ValueOfParts(DebugText(x));
  }

  // The text is the shortest with 18 decimals: no leading zero but a single one.
  lemma DebugIsCanonical(x: U256)
    ensures var s := DebugText(x);
            && |Fractional(s)| == DECIMALS
            && Integral(s) != []
            && (|Integral(s)| > 1 ==> Integral(s)[0] != ZERO)
  {
    hide TwoTo, TenTo;
    DivIsWord();
    DivBounds(x, DIV);
    IndexAfterDigits(Digits(x / DIV), Padded(x % DIV, DECIMALS));
    PaddedDenotes(x % DIV, DECIMALS);
    NoLeadingZero(x / DIV);
  }

  lemma {:induction false} NoLeadingZero(n: nat)
    ensures n > 0 ==> Digits(n)[0] != ZERO
    ensures |Digits(n)| > 1 ==> n > 0
  {
    if n >= 10 {
      NoLeadingZero(n / 10);
    }
  }

  // "1.5" is one and a half.
  lemma ReadsOneAndAHalf()
    ensures ParseFixedSpec(['1' as int, '.' as int, '5' as int]) == Some(1_500_000_000_000_000_000)
  {
    var a, b := ['1' as int], ['5' as int];
    var s: seq<Byte> := a + ['.' as int] + b;
    assert s == ['1' as int, '.' as int, '5' as int];
    IndexAfterDigits(a, b);
    ValueOfParts(s);
    assert a[..0] == [] && b[..0] == [];
    assert Number(a) == 1 && Number(b) == 5;
    TenToAdd(1, DECIMALS - 1);
    DivNumeral();
    hide TwoTo, TenTo;
    WordNumerals();
  }

  lemma IntegralIsShort(q: U256)
    ensures |Digits(q)| <= MAX_DIGITS
  {
    TenToBounds();
    DigitsLength(q, MAX_DIGITS);
  }
}
