// Aggregated liquidity: splitting a swap chunk under the limits of a liquidity source
// (common/src/alt.rs).
module Alt {
  import opened Arith
  import opened Words
  import opened FixedPoint
  import opened FixedWrappers
  import opened OutcomeFees
  import opened Shares

  datatype SideAmount = Input(amount: Balance) | Output(amount: Balance)

  datatype SwapChunk<A> = SwapChunk(input: Balance, output: Balance, fee: Fee<A>) {

    predicate IsZero() {
      input == 0 && output == 0 && IsZeroFee(fee)
    }

    // `get_same_type_amount`.
    function Side(reference: SideAmount): Balance {
      if reference.Input? then input else output
    }

    function Price(): Wrapper {
      Div(FromBalance(output), FromBalance(input))
    }

    // The preferred computation of `proportional_input`, which may overflow.
    function DirectInput(o: Balance): Wrapper {
      Div(Mul(FromBalance(o), FromBalance(input)), FromBalance(output))
    }

    function ProportionalInput(o: Balance): Option<Balance> {
      if o == 0 then Some(0)
      else
        match DirectInput(o)
        case Ok(v) => ToBalance(Ok(v))
        case Err(Overflow) =>
          (match Price()
           case Ok(price) => ToBalance(DivFixed(FromBalance(o), price))
           case Err(_) => None)
        case Err(_) => None
    }

    function DirectOutput(i: Balance): Wrapper {
      Div(Mul(FromBalance(i), FromBalance(output)), FromBalance(input))
    }

    function ProportionalOutput(i: Balance): Option<Balance> {
      if i == 0 then Some(0)
      else
        match DirectOutput(i)
        case Ok(v) => ToBalance(Ok(v))
        case Err(Overflow) =>
          (match Price()
           case Ok(price) => ToBalance(MulFixed(FromBalance(i), price))
           case Err(_) => None)
        case Err(_) => None
    }

    function RescaleByInput(i: Balance): Option<SwapChunk<A>> {
      match (ProportionalOutput(i), RescaleFee(fee, Div(FromBalance(i), FromBalance(input))))
      case (Some(o), Some(f)) => Some(SwapChunk(i, o, f))
      case _ => None
    }

    function RescaleByOutput(o: Balance): Option<SwapChunk<A>> {
      match (ProportionalInput(o), RescaleFee(fee, Div(FromBalance(o), FromBalance(output))))
      case (Some(i), Some(f)) => Some(SwapChunk(i, o, f))
      case _ => None
    }

    function RescaleBySideAmount(amount: SideAmount): Option<SwapChunk<A>> {
      match amount
      case Input(i) => RescaleByInput(i)
      case Output(o) => RescaleByOutput(o)
    }

    function SaturatingPlus(rhs: SwapChunk<A>): SwapChunk<A> {
      SwapChunk(SaturatingAdd(input, rhs.input), SaturatingAdd(output, rhs.output),
                MergeFee(fee, rhs.fee))
    }

    function SaturatingMinus(rhs: SwapChunk<A>): SwapChunk<A> {
      SwapChunk(SaturatingSub(input, rhs.input), SaturatingSub(output, rhs.output),
                SubtractFee(fee, rhs.fee))
    }
  }

  function ZeroChunk<A>(): SwapChunk<A> { SwapChunk(0, 0, map[]) }

  // ---------------------------------------------------- which way proportional amounts round

  // `proportional_output` never exceeds the exact share i * output / input, on either path.
  // It is short of it by less than (10^18 + input) / input on the direct path, and by less
  // than 1 + i / 10^18 over the rounded price.
  lemma ProportionalOutputRounds<A>(c: SwapChunk<A>, i: Balance)
    requires c.ProportionalOutput(i).Some?
    ensures var p := c.ProportionalOutput(i).value;
            && p * c.input <= i * c.output
            && (i == 0 ==> p == 0)
            && (i > 0 ==>
                  if c.DirectOutput(i).Ok? then i * c.output < p * c.input + c.input + DIV
                  else (i * c.output) * DIV < ((p + 1) * c.input) * DIV + i * c.input)
  {
    hide TwoTo, TenTo;
    FixedFitsBalance();
    if i > 0 {
      var p := c.ProportionalOutput(i).value;
      MulLe2(0, 0, c.output, DIV);
      MulLe2(0, 0, i, c.output);
      if c.DirectOutput(i).Ok? {
        var m := FloorMul(i, c.output);
        MulLe2(0, 0, m, DIV);
        FloorTwice(i, c.output, c.input, DIV, m, p);
      } else {
        var price := c.Price().raw;
        MulLe2(0, 0, i, price);
        PriceThenMul(i, c.output, c.input, DIV, price, p);
        PriceThenMulLow(i, c.output, c.input, DIV, price, p);
      }
    }
  }

  // `proportional_input` is at most the exact share o * input / output on the direct path,
  // short of it by less than (10^18 + output) / output. Over the rounded price it is at least
  // the floor of the exact share, and may exceed it, by p * input / (10^18 * output) at most.
  lemma ProportionalInputRounds<A>(c: SwapChunk<A>, o: Balance)
    requires c.ProportionalInput(o).Some?
    ensures var p := c.ProportionalInput(o).value;
            if o == 0 then p == 0
            else if c.DirectInput(o).Ok? then
              p * c.output <= o * c.input < p * c.output + c.output + DIV
            else
              && o * c.input < (p + 1) * c.output
              && (p * c.output) * DIV <= (o * c.input) * DIV + p * c.input
  {
    hide TwoTo, TenTo;
    FixedFitsBalance();
    var p := c.ProportionalInput(o).value;
    if o == 0 {
    } else if c.DirectInput(o).Ok? {
      var m := FloorMul(o, c.input);
      MulLe2(0, 0, o, c.input);
      MulLe2(0, 0, m, DIV);
      FloorTwice(o, c.input, c.output, DIV, m, p);
    } else {
      var price := c.Price().raw;
      MulLe2(0, 0, c.output, DIV);
      MulLe2(0, 0, o, DIV);
      PriceThenDiv(o, c.output, c.input, DIV, price, p);
      PriceThenDivHigh(o, c.output, c.input, DIV, price, p);
    }
  }

  // -------------------------------------------------- when proportional amounts are computed

  // For a part of the input, the detour over the price catches every overflow of the direct
  // path: the output is computed exactly when the chunk's own amounts are in range.
  lemma ProportionalOutputComputes<A>(c: SwapChunk<A>, i: Balance)
    requires 0 < i <= c.input
    ensures c.ProportionalOutput(i).Some? <==> c.input <= I128_MAX && c.output <= I128_MAX
  {
    hide TwoTo, TenTo;
    FixedFitsBalance();
    if c.input <= I128_MAX && c.output <= I128_MAX {
      DirectOutputOutcome(c, i);
      if !c.DirectOutput(i).Ok? {
        PricePathOutput(c, i);
      }
    }
  }

  // In range, the direct path gives a result or reports an overflow of the product.
  lemma DirectOutputOutcome<A>(c: SwapChunk<A>, i: Balance)
    requires 0 < i <= c.input <= I128_MAX && c.output <= I128_MAX && 0 < DIV
    ensures if FloorMul(i, c.output) <= I128_MAX then c.DirectOutput(i).Ok?
            else c.DirectOutput(i) == Err(Overflow)
  {
    hide TwoTo, TenTo;
    DirectFits(i, c.output, c.input);
    hide FloorMul, FloorDiv;
  }

  // Dividing by the whole what a part of it was multiplied by stays in range.
  lemma DirectFits(part: nat, other: nat, whole: nat)
    requires part <= whole && 0 < whole && 0 < DIV
    ensures FloorDiv(FloorMul(part, other), whole) <= other
  {
    hide TwoTo, TenTo;
    var m := FloorMul(part, other);
    MulLe2(0, 0, part, other);
    DivBounds(part * other, DIV);
    MulLe2(part, other, whole, other);
    MulLe2(0, 0, m, DIV);
    FloorBelow(m * DIV, whole, other);
  }

  lemma PricePathOutput<A>(c: SwapChunk<A>, i: Balance)
    requires 0 < i <= c.input <= I128_MAX && c.output <= I128_MAX && 0 < DIV
    requires FloorMul(i, c.output) > I128_MAX
    ensures c.Price().Ok? && FloorMul(i, c.Price().raw) <= I128_MAX
  {
    hide TwoTo, TenTo;
    MulLe2(0, 0, i, c.output);
    MulLe2(0, 0, c.output, DIV);
    OnePathFits(i, c.output, c.input, DIV, I128_MAX);
    var price := c.Price().raw;
    DivBounds(c.output * DIV, c.input);
    MulLe2(i, price, c.input, price);
    FloorBelow(i * price, DIV, c.output);
  }

  // The input of a part of the output is computed when, besides, the product fits, or the
  // price does not round to zero and the quotient by it fits.
  predicate InputComputable<A>(c: SwapChunk<A>, o: Balance) {
    && c.input <= I128_MAX && c.output <= I128_MAX
    && (|| o * c.input < (I128_MAX + 1) * DIV
        || (c.input <= c.output * DIV && o * DIV < (I128_MAX + 1) * (c.output * DIV / c.input)))
  }

  lemma ProportionalInputComputes<A>(c: SwapChunk<A>, o: Balance)
    requires 0 < o <= c.output
    ensures c.ProportionalInput(o).Some? <==> InputComputable(c, o)
  {
    hide TwoTo, TenTo;
    FixedFitsBalance();
    if c.input <= I128_MAX && c.output <= I128_MAX {
      MulLe2(0, 0, o, c.input);
      MulLe2(0, 0, c.output, DIV);
      DivGreatest(o * c.input, DIV, I128_MAX + 1);
      DirectFits(o, c.input, c.output);
      if FloorMul(o, c.input) > I128_MAX {
        PriceFits(o, c.output, c.input, DIV, I128_MAX);
        DivLe(c.output * DIV, c.input);
        var price := c.output * DIV / c.input;
        DivGreatest(c.output * DIV, c.input, 1);
        if price > 0 {
          MulLe2(0, 0, o, DIV);
          DivGreatest(o * DIV, price, I128_MAX + 1);
        }
      }
    }
  }

  // ------------------------------------------------------------- splitting off a part

  // Nothing is created or lost: input, output and the fee in every asset add up.
  ghost predicate Conserved<A(!new)>(part: SwapChunk<A>, rest: SwapChunk<A>, whole: SwapChunk<A>) {
    && part.input + rest.input == whole.input
    && part.output + rest.output == whole.output
    && forall k :: ByAsset(part.fee, k) + ByAsset(rest.fee, k) == ByAsset(whole.fee, k)
  }

  // When a cut on the output side keeps the input within the chunk: the product with the
  // input fits, or the detour over the rounded price does not overshoot.
  predicate InputStaysWithin<A>(c: SwapChunk<A>, o: Balance) {
    || o * c.input < (I128_MAX + 1) * DIV
    || o * DIV < (c.input + 1) * (c.output * DIV / c.input)
  }

  predicate Splits<A>(c: SwapChunk<A>, amount: SideAmount) {
    amount.Input? || InputStaysWithin(c, amount.amount)
  }

  lemma InputWithinChunk<A>(c: SwapChunk<A>, o: Balance)
    requires o <= c.output && c.ProportionalInput(o).Some?
    ensures c.ProportionalInput(o).value <= c.input <==> InputStaysWithin(c, o)
  {
    hide TwoTo, TenTo;
    FixedFitsBalance();
    if o > 0 {
      ProportionalInputComputes(c, o);
      DirectInputOutcome(c, o);
      var p := c.ProportionalInput(o).value;
      if c.DirectInput(o).Ok? {
        ProportionalInputRounds(c, o);
        ShareAtMostWhole(p, c.output, o, c.input);
      } else {
        var price := c.Price().raw;
        MulLe2(0, 0, o, DIV);
        DivGreatest(o * DIV, price, c.input + 1);
      }
    }
  }

  // In range, the direct path is taken exactly when the product fits.
  lemma DirectInputOutcome<A>(c: SwapChunk<A>, o: Balance)
    requires 0 < o <= c.output <= I128_MAX && c.input <= I128_MAX && 0 < DIV
    ensures c.DirectInput(o).Ok? <==> o * c.input < (I128_MAX + 1) * DIV
  {
    hide TwoTo, TenTo;
    MulLe2(0, 0, o, c.input);
    DivGreatest(o * c.input, DIV, I128_MAX + 1);
    DirectFits(o, c.input, c.output);
    hide FloorDiv;
  }

  // Cutting a chunk down to part of one side and subtracting what was cut: conserved
  // exactly when the cut is on the input side or keeps the input within the chunk.
  lemma SplitConserves<A(!new)>(c: SwapChunk<A>, amount: SideAmount)
    requires amount.amount <= c.Side(amount)
    requires c.RescaleBySideAmount(amount).Some?
    ensures var part := c.RescaleBySideAmount(amount).value;
            && part.Side(amount) == amount.amount
            && c.SaturatingMinus(part).Side(amount) == c.Side(amount) - amount.amount
            && (Conserved(part, c.SaturatingMinus(part), c) <==> Splits(c, amount))
  {
    var part := c.RescaleBySideAmount(amount).value;
    FeeSplits(c, amount);
    match amount {
      case Input(i) =>
        OutputWithinChunk(c, i);
      case Output(o) =>
        InputWithinChunk(c, o);
    }
  }

  lemma OutputWithinChunk<A>(c: SwapChunk<A>, i: Balance)
    requires i <= c.input && c.ProportionalOutput(i).Some?
    ensures c.ProportionalOutput(i).value <= c.output
  {
    if i > 0 {
      ProportionalOutputRounds(c, i);
      ShareAtMostWhole(c.ProportionalOutput(i).value, c.input, i, c.output);
    }
  }

  lemma FeeSplits<A(!new)>(c: SwapChunk<A>, amount: SideAmount)
    requires amount.amount <= c.Side(amount)
    requires c.RescaleBySideAmount(amount).Some?
    ensures var part := c.RescaleBySideAmount(amount).value;
            forall k :: ByAsset(part.fee, k) + ByAsset(SubtractFee(c.fee, part.fee), k) == ByAsset(c.fee, k)
  {
    var part := c.RescaleBySideAmount(amount).value;
    var ratio := Div(FromBalance(amount.amount), FromBalance(c.Side(amount)));
    assert ratio.Ok? ==> ratio.raw <= DIV by {
      if ratio.Ok? {
        MulLe2(0, 0, amount.amount, DIV);
        RatioAtMostOne(amount.amount, c.Side(amount), DIV);
      }
    }
    forall k
      ensures ByAsset(part.fee, k) + ByAsset(SubtractFee(c.fee, part.fee), k) == ByAsset(c.fee, k)
    {
      RescaledPartSplits(c.fee, ratio, part.fee, k);
    }
  }

  // p is the output that goes with input i of the chunk: at most the exact share
  // i * output / input, and short of it by less than (10^18 + input) / input, or by less than
  // 1 + i / 10^18 if the product is too large and the rounded price is used.
  predicate IsOutputShare<A>(c: SwapChunk<A>, i: Balance, p: Balance) {
    if i == 0 then p == 0
    else
      && p * c.input <= i * c.output
      && if i * c.output < (I128_MAX + 1) * DIV
         then i * c.output < p * c.input + c.input + DIV
         else (i * c.output) * DIV < ((p + 1) * c.input) * DIV + i * c.input
  }

  // p is the input that goes with output o: likewise, except that over the rounded price it
  // is at least the floor of the exact share, and above it by p * input / (10^18 * output)
  // at most.
  predicate IsInputShare<A>(c: SwapChunk<A>, o: Balance, p: Balance) {
    if o == 0 then p == 0
    else if o * c.input < (I128_MAX + 1) * DIV
    then p * c.output <= o * c.input < p * c.output + c.output + DIV
    else
      && o * c.input < (p + 1) * c.output
      && (p * c.output) * DIV <= (o * c.input) * DIV + p * c.input
  }

  // f is the share of a fee for a part of a whole: at most the exact share, and short of it
  // by less than 1 + fee / 10^18.
  predicate IsFeeShare(fee: Balance, part: Balance, whole: Balance, f: Balance) {
    && 0 < whole
    && f * whole <= fee * part
    && (fee > 0 ==> (fee * part) * DIV < ((f + 1) * whole) * DIV + fee * whole)
  }

  // What is cut off a chunk: the amount asked for on its side, its share of the other side
  // and its share of the fee in every asset.
  ghost predicate IsPart<A(!new)>(part: SwapChunk<A>, c: SwapChunk<A>, amount: SideAmount) {
    && part.Side(amount) == amount.amount
    && (if amount.Input? then IsOutputShare(c, amount.amount, part.output)
        else IsInputShare(c, amount.amount, part.input))
    && part.fee.Keys == c.fee.Keys
    && forall k | k in c.fee :: IsFeeShare(c.fee[k], amount.amount, c.Side(amount), part.fee[k])
  }

  lemma CutIsPart<A(!new)>(c: SwapChunk<A>, amount: SideAmount)
    requires amount.amount <= c.Side(amount) && c.RescaleBySideAmount(amount).Some?
    ensures IsPart(c.RescaleBySideAmount(amount).value, c, amount)
  {
    hide TwoTo, TenTo;
    var part := c.RescaleBySideAmount(amount).value;
    match amount {
      case Input(i) => OutputIsShare(c, i);
      case Output(o) => InputIsShare(c, o);
    }
    hide IsOutputShare, IsInputShare, IsFeeShare;
    assert part.fee.Keys == c.fee.Keys;
    forall k | k in c.fee
      ensures IsFeeShare(c.fee[k], amount.amount, c.Side(amount), part.fee[k])
    {
      FeeIsShare(c, amount, k);
    }
  }

  lemma OutputIsShare<A>(c: SwapChunk<A>, i: Balance)
    requires i <= c.input && c.ProportionalOutput(i).Some?
    ensures IsOutputShare(c, i, c.ProportionalOutput(i).value)
  {
    hide TwoTo, TenTo;
    FixedFitsBalance();
    ProportionalOutputRounds(c, i);
    if i > 0 {
      ProportionalOutputComputes(c, i);
      DirectOutputOutcome(c, i);
      MulLe2(0, 0, i, c.output);
      DivGreatest(i * c.output, DIV, I128_MAX + 1);
    }
  }

  lemma InputIsShare<A>(c: SwapChunk<A>, o: Balance)
    requires o <= c.output && c.ProportionalInput(o).Some?
    ensures IsInputShare(c, o, c.ProportionalInput(o).value)
  {
    hide TwoTo, TenTo;
    FixedFitsBalance();
    ProportionalInputRounds(c, o);
    if o > 0 {
      ProportionalInputComputes(c, o);
      DirectInputOutcome(c, o);
    }
  }

  lemma FeeIsShare<A(!new)>(c: SwapChunk<A>, amount: SideAmount, k: A)
    requires c.RescaleBySideAmount(amount).Some? && k in c.fee
    ensures k in c.RescaleBySideAmount(amount).value.fee
    ensures IsFeeShare(c.fee[k], amount.amount, c.Side(amount), c.RescaleBySideAmount(amount).value.fee[k])
  {
    hide TwoTo, TenTo;
    FixedFitsBalance();
    var part := c.RescaleBySideAmount(amount).value;
    var whole := c.Side(amount);
    var ratio := Div(FromBalance(amount.amount), FromBalance(whole));
    assert RescaleFee(c.fee, ratio) == Some(part.fee);
    assert Some(part.fee[k]) == RescaledAmounts(c.fee, ratio)[k];
    MulLe2(0, 0, amount.amount, DIV);
    MulLe2(0, 0, c.fee[k], ratio.raw);
    PriceThenMul(c.fee[k], amount.amount, whole, DIV, ratio.raw, part.fee[k]);
    PriceThenMulLow(c.fee[k], amount.amount, whole, DIV, ratio.raw, part.fee[k]);
  }

  // What a cut needs: both amounts in range for `Fixed`, and on the output side an input that
  // can be computed; for every fee, a whole in range to take the ratio to, and the fee in range.
  ghost predicate CutComputable<A(!new)>(c: SwapChunk<A>, amount: SideAmount) {
    && (amount.amount > 0 ==>
          if amount.Input? then c.input <= I128_MAX && c.output <= I128_MAX
          else InputComputable(c, amount.amount))
    && forall k | k in c.fee :: 0 < c.Side(amount) <= I128_MAX && c.fee[k] <= I128_MAX
  }

  // A cut to part of either side is computed exactly then.
  lemma CutComputes<A(!new)>(c: SwapChunk<A>, amount: SideAmount)
    requires amount.amount <= c.Side(amount)
    ensures c.RescaleBySideAmount(amount).Some? <==> CutComputable(c, amount)
  {
    hide TwoTo, TenTo, InputComputable;
    if amount.amount > 0 {
      match amount {
        case Input(i) => ProportionalOutputComputes(c, i);
        case Output(o) => ProportionalInputComputes(c, o);
      }
    }
    hide FloorMul, FloorDiv;
    FeeCutComputes(c.fee, amount.amount, c.Side(amount));
  }

  lemma FeeCutComputes<A(!new)>(fee: Fee<A>, i: Balance, whole: Balance)
    requires i <= whole
    ensures RescaleFee(fee, Div(FromBalance(i), FromBalance(whole))).Some? <==>
      forall k | k in fee :: 0 < whole <= I128_MAX && fee[k] <= I128_MAX
  {
    hide TwoTo, TenTo;
    var ratio := Div(FromBalance(i), FromBalance(whole));
    var amounts := RescaledAmounts(fee, ratio);
    forall k | k in fee
      ensures k in amounts && (amounts[k].Some? <==> 0 < whole <= I128_MAX && fee[k] <= I128_MAX)
    {
      AmountCutComputes(fee[k], i, whole);
    }
  }

  lemma AmountCutComputes(fee: Balance, i: Balance, whole: Balance)
    requires i <= whole
    ensures RescaledAmount(fee, Div(FromBalance(i), FromBalance(whole))).Some? <==>
      0 < whole <= I128_MAX && fee <= I128_MAX
  {
    hide TwoTo, TenTo;
    FixedFitsBalance();
    if 0 < whole <= I128_MAX {
      MulLe2(0, 0, i, DIV);
      RatioAtMostOne(i, whole, DIV);
      FloorMulBelow(fee, FloorDiv(i, whole));
    }
  }

  // ---------------------------------------------------------------------- the limits

  datatype SwapLimits = SwapLimits(
    min: Option<SideAmount>, max: Option<SideAmount>, precision: Option<SideAmount>)

  // The aligned chunk and the remainder; nothing if an amount cannot be computed; a panic
  // when the precision to divide by is zero.
  datatype Alignment<A> =
    | Aligned(chunk: SwapChunk<A>, rest: SwapChunk<A>)
    | Uncomputable
    | Panics

  // Rescale to `amount` and subtract: the shape shared by all the cuts below.
  function Cut<A>(c: SwapChunk<A>, amount: SideAmount): Alignment<A> {
    match c.RescaleBySideAmount(amount)
    case Some(part) => Aligned(part, c.SaturatingMinus(part))
    case None => Uncomputable
  }

  function WithAmount(side: SideAmount, amount: Balance): SideAmount {
    if side.Input? then Input(amount) else Output(amount)
  }

  function AlignChunkMin<A>(l: SwapLimits, c: SwapChunk<A>): (SwapChunk<A>, SwapChunk<A>) {
    if l.min.Some? && c.Side(l.min.value) < l.min.value.amount then (ZeroChunk(), c)
    else (c, ZeroChunk())
  }

  function AlignChunkMax<A>(l: SwapLimits, c: SwapChunk<A>): Alignment<A> {
    if l.max.Some? && c.Side(l.max.value) > l.max.value.amount then Cut(c, l.max.value)
    else Aligned(c, ZeroChunk())
  }

  function SaturatingTimes(a: Balance, b: Balance): Balance {
    MulLe2(0, 0, a, b);
    Min(a * b, BALANCE_MAX)
  }

  // The largest multiple of the precision, as the code computes it.
  function RoundedDown(amount: Balance, precision: Balance): Balance
    requires 0 < precision
  {
    DivLe(amount, precision);
    SaturatingTimes(amount / precision, precision)
  }

  function AlignChunkPrecision<A>(l: SwapLimits, c: SwapChunk<A>): Alignment<A> {
    if l.precision.None? then Aligned(c, ZeroChunk())
    else
      var step := l.precision.value;
      if step.amount == 0 then Panics
      else if c.Side(step) % step.amount != 0 then
        Cut(c, WithAmount(step, RoundedDown(c.Side(step), step.amount)))
      else Aligned(c, ZeroChunk())
  }

  function AlignChunk<A>(l: SwapLimits, c: SwapChunk<A>): Alignment<A> {
    var (c1, r1) := AlignChunkMin(l, c);
    if !r1.IsZero() then Aligned(c1, r1)
    else
      match AlignChunkMax(l, c1)
      case Aligned(c2, r2) =>
        if !r2.IsZero() then Aligned(c2, r2)
        else
          (match AlignChunkPrecision(l, c2)
           case Aligned(c3, r3) => if !r3.IsZero() then Aligned(c3, r3) else Aligned(c3, ZeroChunk())
           case failure => failure)
      case failure => failure
  }

  // --------------------------------------------------- what alignment does to a chunk

  lemma RoundedDownIsMultiple(amount: Balance, precision: Balance)
    requires 0 < precision
    ensures RoundedDown(amount, precision) <= amount
    ensures RoundedDown(amount, precision) % precision == 0
    ensures amount % precision != 0 ==> RoundedDown(amount, precision) < amount
    ensures forall m: nat :: m % precision == 0 && m <= amount ==> m <= RoundedDown(amount, precision)
  {
    hide TwoTo;
    DivBounds(amount, precision);
    var q := amount / precision;
    MulLe2(0, 0, q, precision);
    DivUnique(q * precision, precision, q);
    forall m: nat | m % precision == 0 && m <= amount
      ensures m <= q * precision
    {
      DivBounds(m, precision);
      DivMono(m, amount, precision);
      MulLe(m / precision, q, precision);
    }
  }

  // The amount a chunk is cut to, read off the limits: the maximum if it is exceeded,
  // otherwise the rounded-down amount if the precision is not met.
  function CutAmount<A>(l: SwapLimits, c: SwapChunk<A>): Option<SideAmount> {
    if BelowMin(l, c) then None
    else if l.max.Some? && c.Side(l.max.value) > l.max.value.amount then l.max
    else if l.precision.Some? && l.precision.value.amount != 0
         && c.Side(l.precision.value) % l.precision.value.amount != 0 then
      Some(WithAmount(l.precision.value, RoundedDown(c.Side(l.precision.value), l.precision.value.amount)))
    else None
  }

  // A cut leaves a remainder on the side it was made.
  lemma CutLeavesRest<A(!new)>(c: SwapChunk<A>, amount: SideAmount)
    requires amount.amount < c.Side(amount) && Cut(c, amount).Aligned?
    ensures !Cut(c, amount).rest.IsZero()
    ensures Cut(c, amount).chunk.Side(amount) == amount.amount
    ensures Conserved(Cut(c, amount).chunk, Cut(c, amount).rest, c) <==> Splits(c, amount)
  {
    SplitConserves(c, amount);
  }

  predicate BelowMin<A>(l: SwapLimits, c: SwapChunk<A>) {
    l.min.Some? && c.Side(l.min.value) < l.min.value.amount
  }

  // Every outcome, read off the limits: at most one cut is ever made, and it is the one
  // `CutAmount` names. A zero precision panics unless the chunk was refused or cut before.
  lemma AlignChunkShape<A(!new)>(l: SwapLimits, c: SwapChunk<A>)
    ensures match CutAmount(l, c)
            case Some(amount) => amount.amount < c.Side(amount) && AlignChunk(l, c) == Cut(c, amount)
            case None =>
              AlignChunk(l, c) ==
                if BelowMin(l, c) && !c.IsZero() then Aligned(ZeroChunk(), c)
                else if l.precision.Some? && l.precision.value.amount == 0 then Panics
                else Aligned(if BelowMin(l, c) then ZeroChunk() else c, ZeroChunk())
  {
    if BelowMin(l, c) {
      ZeroChunkPasses<A>(l);
    } else if l.max.Some? && c.Side(l.max.value) > l.max.value.amount {
      CutIsFinal(c, l.max.value);
    } else if l.precision.Some? && l.precision.value.amount != 0
           && c.Side(l.precision.value) % l.precision.value.amount != 0 {
      var step := l.precision.value;
      RoundedDownIsMultiple(c.Side(step), step.amount);
      CutIsFinal(c, WithAmount(step, RoundedDown(c.Side(step), step.amount)));
    }
  }

  lemma CutIsFinal<A(!new)>(c: SwapChunk<A>, amount: SideAmount)
    requires amount.amount < c.Side(amount)
    ensures Cut(c, amount).Aligned? ==> !Cut(c, amount).rest.IsZero()
  {
    if Cut(c, amount).Aligned? {
      CutLeavesRest(c, amount);
    }
  }

  lemma ZeroChunkPasses<A>(l: SwapLimits)
    ensures AlignChunkMax(l, ZeroChunk<A>()) == Aligned(ZeroChunk<A>(), ZeroChunk<A>())
    ensures AlignChunkPrecision(l, ZeroChunk<A>()) ==
      if l.precision.Some? && l.precision.value.amount == 0 then Panics
      else Aligned(ZeroChunk<A>(), ZeroChunk<A>())
  {
  }

  // So whatever is aligned by a cut is a part of the chunk: its other side and its fees are
  // the shares that go with the amount the limits ask for.
  lemma AlignedIsPart<A(!new)>(l: SwapLimits, c: SwapChunk<A>)
    requires AlignChunk(l, c).Aligned? && CutAmount(l, c).Some?
    ensures IsPart(AlignChunk(l, c).chunk, c, CutAmount(l, c).value)
  {
    hide CutAmount, IsPart;
    AlignChunkShape(l, c);
    CutIsPart(c, CutAmount(l, c).value);
  }

  // The aligned part and the remainder add up to the chunk, in input, output and every
  // asset's fee, exactly when the cut is on the input side, or on the output side with the
  // input staying within the chunk, or there is no cut.
  lemma AlignChunkConserves<A(!new)>(l: SwapLimits, c: SwapChunk<A>)
    requires AlignChunk(l, c).Aligned?
    ensures Conserved(AlignChunk(l, c).chunk, AlignChunk(l, c).rest, c)
       <==> (CutAmount(l, c).Some? ==> Splits(c, CutAmount(l, c).value))
  {
    AlignChunkShape(l, c);
    if CutAmount(l, c).Some? {
      CutLeavesRest(c, CutAmount(l, c).value);
    }
  }

  // In range for `Fixed`: both amounts and every fee.
  ghost predicate InRange<A(!new)>(c: SwapChunk<A>) {
    && c.input <= I128_MAX && c.output <= I128_MAX
    && forall k | k in c.fee :: c.fee[k] <= I128_MAX
  }

  // Alignment is given up exactly when there is a cut to make and it cannot be computed.
  lemma AlignChunkGivesUp<A(!new)>(l: SwapLimits, c: SwapChunk<A>)
    ensures AlignChunk(l, c).Uncomputable? <==>
      CutAmount(l, c).Some? && !CutComputable(c, CutAmount(l, c).value)
  {
    hide CutAmount, CutComputable;
    AlignChunkShape(l, c);
    if CutAmount(l, c).Some? {
      CutComputes(c, CutAmount(l, c).value);
    }
  }

  // With maximum and precision on the input side, every chunk in range is aligned: none of
  // the overflows on the way is final.
  lemma InputLimitsAlign<A(!new)>(l: SwapLimits, c: SwapChunk<A>)
    requires l.max.Some? ==> l.max.value.Input?
    requires l.precision.Some? ==> l.precision.value.Input? && l.precision.value.amount > 0
    requires InRange(c)
    ensures AlignChunk(l, c).Aligned?
  {
    AlignChunkGivesUp(l, c);
    AlignChunkShape(l, c);
  }

  // Limits on the input side only: always conserved.
  lemma InputLimitsConserve<A(!new)>(l: SwapLimits, c: SwapChunk<A>)
    requires l.max.Some? ==> l.max.value.Input?
    requires l.precision.Some? ==> l.precision.value.Input?
    requires AlignChunk(l, c).Aligned?
    ensures Conserved(AlignChunk(l, c).chunk, AlignChunk(l, c).rest, c)
  {
    AlignChunkConserves(l, c);
  }

  // A chunk of 10^38 in and 1.9 * 10^20 out, cut to 1.5 * 10^20 out: the price rounds to 1,
  // and the aligned part claims half as much input again as the whole chunk has.
  lemma OutputLimitCreatesInput(c: SwapChunk<int>, o: Balance)
    requires c.input == 100_000_000_000_000_000_000_000_000_000_000_000_000
    requires c.output == 190_000_000_000_000_000_000 && c.fee == map[]
    requires o == 150_000_000_000_000_000_000
    ensures var a := AlignChunk(SwapLimits(None, Some(Output(o)), None), c);
            && a.Aligned?
            && a.chunk.input == 150_000_000_000_000_000_000_000_000_000_000_000_000
            && a.rest.input == 0
            && !Conserved(a.chunk, a.rest, c)
  {
    Numerals();
    hide TwoTo, TenTo;
    assert c.Price() == Ok(1);
    assert c.DirectInput(o) == Err(Overflow);
    assert c.ProportionalInput(o) == Some(150_000_000_000_000_000_000_000_000_000_000_000_000);
  }

  lemma Numerals()
    ensures DIV == 1_000_000_000_000_000_000
    ensures I128_MAX == 0x7FFF_FFFF_FFFF_FFFF_FFFF_FFFF_FFFF_FFFF
    ensures BALANCE_MAX == 0xFFFF_FFFF_FFFF_FFFF_FFFF_FFFF_FFFF_FFFF
  {
    WordIsSquare();
    hide TwoTo, TenTo;
    DivNumeral();
    WordNumerals();
  }

  // All limits present are on the side of `side`, min and max are multiples of the
  // precision, and min <= max.
  predicate OneSided(l: SwapLimits, side: SideAmount) {
    && (l.min.Some? ==> l.min.value.Input? == side.Input?)
    && (l.max.Some? ==> l.max.value.Input? == side.Input?)
    && (l.precision.Some? ==> l.precision.value.Input? == side.Input? && l.precision.value.amount > 0)
    && (l.min.Some? && l.max.Some? ==> l.min.value.amount <= l.max.value.amount)
    && (l.precision.Some? && l.min.Some? ==> l.min.value.amount % l.precision.value.amount == 0)
    && (l.precision.Some? && l.max.Some? ==> l.max.value.amount % l.precision.value.amount == 0)
  }

  predicate WithinLimits(l: SwapLimits, amount: Balance) {
    && (l.min.Some? ==> l.min.value.amount <= amount)
    && (l.max.Some? ==> amount <= l.max.value.amount)
    && (l.precision.Some? && l.precision.value.amount > 0 ==> amount % l.precision.value.amount == 0)
  }

  // For consistent limits on one side, whatever `align_chunk` returns is on that side either
  // zero or within the minimum and the maximum and a multiple of the precision.
  lemma AlignedIsWithinLimits<A(!new)>(l: SwapLimits, c: SwapChunk<A>, side: SideAmount)
    requires OneSided(l, side) && AlignChunk(l, c).Aligned?
    ensures AlignChunk(l, c).chunk == ZeroChunk() || WithinLimits(l, AlignChunk(l, c).chunk.Side(side))
  {
    AlignChunkShape(l, c);
    match CutAmount(l, c) {
      case Some(amount) =>
        CutLeavesRest(c, amount);
        if l.precision.Some? {
          RoundedDownIsMultiple(c.Side(side), l.precision.value.amount);
        }
      case None =>
    }
  }

  // Aligning what was aligned changes nothing and leaves no remainder.
  lemma AlignChunkIdempotent<A(!new)>(l: SwapLimits, c: SwapChunk<A>, side: SideAmount)
    requires OneSided(l, side) && AlignChunk(l, c).Aligned?
    ensures AlignChunk(l, AlignChunk(l, c).chunk) == Aligned(AlignChunk(l, c).chunk, ZeroChunk())
  {
    AlignedIsWithinLimits(l, c, side);
    ZeroChunkPasses<A>(l);
  }

  // --------------------------------------------------------- filling up to the maximum

  // `align_extra_chunk_max`: how much of an extra chunk still fits beside `acc`.
  function AlignExtraChunkMax<A>(l: SwapLimits, acc: SwapChunk<A>, c: SwapChunk<A>): Alignment<A> {
    if l.max.Some? && SaturatingAdd(acc.Side(l.max.value), c.Side(l.max.value)) > l.max.value.amount then
      Cut(c, WithAmount(l.max.value, SaturatingSub(l.max.value.amount, acc.Side(l.max.value))))
    else Aligned(c, ZeroChunk())
  }

  // The amount an extra chunk is cut to: what the maximum leaves beside `acc`. A maximum of
  // Balance::MAX is never exceeded, because the sum compared with it saturates.
  function ExtraCut<A>(l: SwapLimits, acc: SwapChunk<A>, c: SwapChunk<A>): Option<SideAmount> {
    if l.max.Some? && l.max.value.amount < BALANCE_MAX
       && acc.Side(l.max.value) + c.Side(l.max.value) > l.max.value.amount
    then Some(WithAmount(l.max.value, SaturatingSub(l.max.value.amount, acc.Side(l.max.value))))
    else None
  }

  // Every outcome for an extra chunk: cut at what is left, as a part, or taken whole.
  lemma ExtraChunkShape<A(!new)>(l: SwapLimits, acc: SwapChunk<A>, c: SwapChunk<A>)
    ensures match ExtraCut(l, acc, c)
            case Some(amount) =>
              && amount.amount <= c.Side(amount)
              && AlignExtraChunkMax(l, acc, c) == Cut(c, amount)
              && (Cut(c, amount).Aligned? ==> IsPart(Cut(c, amount).chunk, c, amount))
            case None => AlignExtraChunkMax(l, acc, c) == Aligned(c, ZeroChunk())
  {
    hide IsPart;
    if ExtraCut(l, acc, c).Some? {
      var amount := ExtraCut(l, acc, c).value;
      if Cut(c, amount).Aligned? {
        CutIsPart(c, amount);
      }
    }
  }

  predicate BelowMax<A>(l: SwapLimits, acc: SwapChunk<A>) {
    l.max.Some? ==> acc.Side(l.max.value) <= l.max.value.amount
  }

  // An extra chunk is conserved under the same condition as an aligned one.
  lemma ExtraChunkConserves<A(!new)>(l: SwapLimits, acc: SwapChunk<A>, c: SwapChunk<A>)
    requires BelowMax(l, acc) && AlignExtraChunkMax(l, acc, c).Aligned?
    ensures Conserved(AlignExtraChunkMax(l, acc, c).chunk, AlignExtraChunkMax(l, acc, c).rest, c)
       <==> (ExtraCut(l, acc, c).Some? ==> Splits(c, ExtraCut(l, acc, c).value))
  {
    if ExtraCut(l, acc, c).Some? {
      SplitConserves(c, ExtraCut(l, acc, c).value);
    }
  }

  datatype Filled<A> = Filled(acc: SwapChunk<A>, rests: seq<SwapChunk<A>>) | Stuck

  // Chunks offered one after the other; the fitting parts are accumulated.
  function Fill<A>(l: SwapLimits, acc: SwapChunk<A>, chunks: seq<SwapChunk<A>>): Filled<A>
    decreases |chunks|
  {
    if chunks == [] then Filled(acc, [])
    else
      match AlignExtraChunkMax(l, acc, chunks[0])
      case Aligned(part, rest) =>
        (match Fill(l, acc.SaturatingPlus(part), chunks[1..])
         case Filled(total, rests) => Filled(total, [rest] + rests)
         case Stuck => Stuck)
      case _ => Stuck
  }

  // What is counted: one side, or the fee in one asset.
  datatype Measure<A> = OnSide(side: SideAmount) | OfFee(asset: A)

  function Measured<A>(c: SwapChunk<A>, m: Measure<A>): Balance {
    if m.OnSide? then c.Side(m.side) else ByAsset(c.fee, m.asset)
  }

  // `is_zero` sees nothing of any kind.
  lemma IsZeroMeans<A(!new)>(c: SwapChunk<A>)
    ensures c.IsZero() <==> forall m :: Measured(c, m) == 0
  {
    if forall m :: Measured(c, m) == 0 {
      assert Measured(c, OnSide(Input(0))) == 0 && Measured(c, OnSide(Output(0))) == 0;
      forall k | k in c.fee
        ensures c.fee[k] == 0
      {
        assert Measured(c, OfFee(k)) == 0;
      }
    }
  }

  function Total<A>(chunks: seq<SwapChunk<A>>, m: Measure<A>): nat {
    if chunks == [] then 0 else Measured(chunks[0], m) + Total(chunks[1..], m)
  }

  lemma FillStep<A(!new)>(l: SwapLimits, acc: SwapChunk<A>, c: SwapChunk<A>)
    requires l.max.Some? && l.max.value.amount < BALANCE_MAX
    requires acc.Side(l.max.value) <= l.max.value.amount
    requires AlignExtraChunkMax(l, acc, c).Aligned?
    ensures var max := l.max.value;
            var a := AlignExtraChunkMax(l, acc, c);
            && acc.SaturatingPlus(a.chunk).Side(max) == Min(max.amount, acc.Side(max) + c.Side(max))
            && a.chunk.Side(max) + a.rest.Side(max) == c.Side(max)
  {
    var max := l.max.value;
    if SaturatingAdd(acc.Side(max), c.Side(max)) > max.amount {
      var amount := WithAmount(max, SaturatingSub(max.amount, acc.Side(max)));
      SplitConserves(c, amount);
    }
  }

  // Whatever the sequence of chunks, the accumulated total on the limited side ends at
  // exactly the limit or at everything offered, whichever is less, and the remainders
  // account for the rest.
  lemma {:induction false} FillReachesLimit<A(!new)>(
    l: SwapLimits, acc: SwapChunk<A>, chunks: seq<SwapChunk<A>>)
    requires l.max.Some? && l.max.value.amount < BALANCE_MAX
    requires acc.Side(l.max.value) <= l.max.value.amount
    requires Fill(l, acc, chunks).Filled?
    ensures var max := l.max.value;
            var f := Fill(l, acc, chunks);
            && f.acc.Side(max) == Min(max.amount, acc.Side(max) + Total(chunks, OnSide(max)))
            && f.acc.Side(max) + Total(f.rests, OnSide(max)) == acc.Side(max) + Total(chunks, OnSide(max))
    decreases |chunks|
  {
    hide TwoTo, AlignExtraChunkMax;
    if chunks != [] {
      var a := AlignExtraChunkMax(l, acc, chunks[0]);
      FillStep(l, acc, chunks[0]);
      FillReachesLimit(l, acc.SaturatingPlus(a.chunk), chunks[1..]);
      var rest := Fill(l, acc.SaturatingPlus(a.chunk), chunks[1..]);
      assert ([a.rest] + rest.rests)[1..] == rest.rests;
    }
  }

  // A limit of exactly Balance::MAX is never seen as exceeded, because the sum that is
  // compared with it saturates: nothing is cut, and everything is conserved if and only if
  // the total offered fits a Balance.
  lemma {:induction false} FillWithoutLimit<A(!new)>(
    l: SwapLimits, acc: SwapChunk<A>, chunks: seq<SwapChunk<A>>)
    requires l.max.Some? && l.max.value.amount == BALANCE_MAX
    ensures var max := l.max.value;
            var f := Fill(l, acc, chunks);
            && f.Filled?
            && f.acc.Side(max) == Min(BALANCE_MAX, acc.Side(max) + Total(chunks, OnSide(max)))
            && Total(f.rests, OnSide(max)) == 0
            && (f.acc.Side(max) + Total(f.rests, OnSide(max)) == acc.Side(max) + Total(chunks, OnSide(max))
                <==> acc.Side(max) + Total(chunks, OnSide(max)) <= BALANCE_MAX)
    decreases |chunks|
  {
    if chunks != [] {
      FillWithoutLimit(l, acc.SaturatingPlus(chunks[0]), chunks[1..]);
      var rest := Fill(l, acc.SaturatingPlus(chunks[0]), chunks[1..]);
      assert ([ZeroChunk<A>()] + rest.rests)[1..] == rest.rests;
    }
  }

  // Every chunk on the way can be aligned, and every cut made splits its chunk.
  predicate AllSplit<A>(l: SwapLimits, acc: SwapChunk<A>, chunks: seq<SwapChunk<A>>)
    decreases |chunks|
  {
    chunks == [] ||
    (var a := AlignExtraChunkMax(l, acc, chunks[0]);
     && a.Aligned?
     && (ExtraCut(l, acc, chunks[0]).Some? ==> Splits(chunks[0], ExtraCut(l, acc, chunks[0]).value))
     && AllSplit(l, acc.SaturatingPlus(a.chunk), chunks[1..]))
  }

  // Then both sides and the fee in every asset are accounted for over the whole run: the
  // accumulated amount is everything offered less the remainders, capped at Balance::MAX. So
  // it is conserved whenever the total offered fits.
  lemma {:induction false} FillConserves<A(!new)>(
    l: SwapLimits, acc: SwapChunk<A>, chunks: seq<SwapChunk<A>>, m: Measure<A>)
    requires BelowMax(l, acc) && AllSplit(l, acc, chunks)
    ensures var f := Fill(l, acc, chunks);
            && f.Filled?
            && Total(f.rests, m) <= Total(chunks, m)
            && Measured(f.acc, m) == Min(Measured(acc, m) + Total(chunks, m) - Total(f.rests, m), BALANCE_MAX)
            && (Measured(acc, m) + Total(chunks, m) <= BALANCE_MAX ==>
                  Measured(f.acc, m) + Total(f.rests, m) == Measured(acc, m) + Total(chunks, m))
    decreases |chunks|
  {
    hide TwoTo, AlignExtraChunkMax, ExtraCut, Splits, Measured, BelowMax;
    if chunks != [] {
      var a := AlignExtraChunkMax(l, acc, chunks[0]);
      ExtraChunkCounts(l, acc, chunks[0], m);
      FillConserves(l, acc.SaturatingPlus(a.chunk), chunks[1..], m);
      var rest := Fill(l, acc.SaturatingPlus(a.chunk), chunks[1..]);
      assert ([a.rest] + rest.rests)[1..] == rest.rests;
    }
  }

  lemma ExtraChunkCounts<A(!new)>(l: SwapLimits, acc: SwapChunk<A>, c: SwapChunk<A>, m: Measure<A>)
    requires BelowMax(l, acc) && AlignExtraChunkMax(l, acc, c).Aligned?
    requires ExtraCut(l, acc, c).Some? ==> Splits(c, ExtraCut(l, acc, c).value)
    ensures var a := AlignExtraChunkMax(l, acc, c);
            && Measured(a.chunk, m) + Measured(a.rest, m) == Measured(c, m)
            && Measured(acc.SaturatingPlus(a.chunk), m) == Min(Measured(acc, m) + Measured(a.chunk, m), BALANCE_MAX)
            && BelowMax(l, acc.SaturatingPlus(a.chunk))
  {
    hide TwoTo, Splits;
    ExtraStaysBelow(l, acc, c);
    hide BelowMax;
    ExtraChunkConserves(l, acc, c);
    hide AlignExtraChunkMax, ExtraCut;
    var a := AlignExtraChunkMax(l, acc, c);
    PartsMeasured(a.chunk, a.rest, c, m);
    PlusMeasured(acc, a.chunk, m);
  }

  lemma ExtraStaysBelow<A(!new)>(l: SwapLimits, acc: SwapChunk<A>, c: SwapChunk<A>)
    requires BelowMax(l, acc) && AlignExtraChunkMax(l, acc, c).Aligned?
    ensures BelowMax(l, acc.SaturatingPlus(AlignExtraChunkMax(l, acc, c).chunk))
  {
    hide TwoTo;
    if l.max.Some? && l.max.value.amount < BALANCE_MAX {
      FillStep(l, acc, c);
      hide AlignExtraChunkMax;
    }
  }

  lemma PartsMeasured<A(!new)>(part: SwapChunk<A>, rest: SwapChunk<A>, whole: SwapChunk<A>, m: Measure<A>)
    requires Conserved(part, rest, whole)
    ensures Measured(part, m) + Measured(rest, m) == Measured(whole, m)
  {
  }

  lemma PlusMeasured<A>(a: SwapChunk<A>, b: SwapChunk<A>, m: Measure<A>)
    ensures Measured(a.SaturatingPlus(b), m) == Min(Measured(a, m) + Measured(b, m), BALANCE_MAX)
  {
  }

  // With an input-side maximum, or none, chunks in range can always be offered, and every cut
  // splits its chunk.
  lemma {:induction false} InputFillSplits<A(!new)>(
    l: SwapLimits, acc: SwapChunk<A>, chunks: seq<SwapChunk<A>>)
    requires l.max.Some? ==> l.max.value.Input?
    requires BelowMax(l, acc) && forall i | 0 <= i < |chunks| :: InRange(chunks[i])
    ensures AllSplit(l, acc, chunks)
    decreases |chunks|
  {
    hide TwoTo, InRange, BelowMax;
    if chunks != [] {
      assert InRange(chunks[0]);
      InputExtraSplits(l, acc, chunks[0]);
      hide AlignExtraChunkMax, ExtraCut, Splits;
      InputFillSplits(l, acc.SaturatingPlus(AlignExtraChunkMax(l, acc, chunks[0]).chunk), chunks[1..]);
    }
  }

  lemma InputExtraSplits<A(!new)>(l: SwapLimits, acc: SwapChunk<A>, c: SwapChunk<A>)
    requires l.max.Some? ==> l.max.value.Input?
    requires BelowMax(l, acc) && InRange(c)
    ensures AlignExtraChunkMax(l, acc, c).Aligned?
    ensures ExtraCut(l, acc, c).Some? ==> Splits(c, ExtraCut(l, acc, c).value)
    ensures BelowMax(l, acc.SaturatingPlus(AlignExtraChunkMax(l, acc, c).chunk))
  {
    if ExtraCut(l, acc, c).Some? {
      CutComputes(c, ExtraCut(l, acc, c).value);
    }
    ExtraChunkCounts(l, acc, c, OnSide(Input(0)));
  }

  // So with such a maximum every run of chunks in range succeeds, and conserves every amount
  // whose total fits.
  lemma InputFillConserves<A(!new)>(
    l: SwapLimits, acc: SwapChunk<A>, chunks: seq<SwapChunk<A>>, m: Measure<A>)
    requires l.max.Some? ==> l.max.value.Input?
    requires BelowMax(l, acc) && forall i | 0 <= i < |chunks| :: InRange(chunks[i])
    ensures var f := Fill(l, acc, chunks);
            && f.Filled?
            && (Measured(acc, m) + Total(chunks, m) <= BALANCE_MAX ==>
                  Measured(f.acc, m) + Total(f.rests, m) == Measured(acc, m) + Total(chunks, m))
  {
    InputFillSplits(l, acc, chunks);
    FillConserves(l, acc, chunks, m);
  }
}
