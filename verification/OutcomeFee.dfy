// Fees per asset (common/src/outcome_fee.rs).
module OutcomeFees {
  import opened Arith
  import opened FixedPoint
  import opened FixedWrappers

  type Fee<A> = map<A, Balance>

  function ByAsset<A>(fee: Fee<A>, asset: A): Balance {
    if asset in fee then fee[asset] else 0
  }

  predicate IsZeroFee<A>(fee: Fee<A>) {
    forall asset | asset in fee :: fee[asset] == 0
  }

  function SaturatingAdd(a: Balance, b: Balance): (r: Balance)
    ensures r <= a + b && (r == a + b || r == BALANCE_MAX)
  {
    Min(a + b, BALANCE_MAX)
  }

  function SaturatingSub(a: Balance, b: Balance): (r: Balance)
    ensures a <= b + r && (b + r == a || r == 0)
  {
    if b <= a then a - b else 0
  }

  // --------------------------------------------------------------------- specifications

  function MergedAt<A>(a: Fee<A>, b: Fee<A>, k: A): Balance {
    if k !in b then ByAsset(a, k) else if k in a then SaturatingAdd(a[k], b[k]) else b[k]
  }

  function MergeFee<A>(a: Fee<A>, b: Fee<A>): Fee<A> {
    map k | k in a.Keys + b.Keys :: MergedAt(a, b, k)
  }

  // An asset missing on the left takes the amount on the right, as the code does.
  function SubtractedAt<A>(a: Fee<A>, b: Fee<A>, k: A): Balance {
    if k !in b then ByAsset(a, k) else if k in a then SaturatingSub(a[k], b[k]) else b[k]
  }

  function SubtractFee<A>(a: Fee<A>, b: Fee<A>): Fee<A> {
    map k | k in a.Keys + b.Keys && SubtractedAt(a, b, k) != 0 :: SubtractedAt(a, b, k)
  }

  function RescaledAmount(amount: Balance, ratio: Wrapper): Option<Balance> {
    ToBalance(Mul(FromBalance(amount), ratio))
  }

  function RescaledAmounts<A>(fee: Fee<A>, ratio: Wrapper): map<A, Option<Balance>> {
    map k | k in fee :: RescaledAmount(fee[k], ratio)
  }

  // All amounts, or nothing if one of them is missing.
  function Collected<A>(amounts: map<A, Option<Balance>>): Option<Fee<A>> {
    if forall k | k in amounts :: amounts[k].Some? then Some(map k | k in amounts :: amounts[k].value)
    else None
  }

  function RescaleFee<A>(fee: Fee<A>, ratio: Wrapper): Option<Fee<A>> {
    Collected(RescaledAmounts(fee, ratio))
  }

  // ------------------------------------------------------- the loops over the inner map

  method Merge<A(==)>(self: Fee<A>, other: Fee<A>) returns (r: Fee<A>)
    ensures r == MergeFee(self, other)
  {
    hide SaturatingAdd;
    r := self;
    var todo := other.Keys;
    while todo != {}
      invariant todo <= other.Keys && r.Keys == self.Keys + (other.Keys - todo)
      invariant forall k | k in r :: r[k] == if k in todo then self[k] else MergedAt(self, other, k)
      decreases todo
    {
      var k :| k in todo;
      r := r[k := if k in r then SaturatingAdd(r[k], other[k]) else other[k]];
      todo := todo - {k};
    }
  }

  method Subtract<A(==)>(self: Fee<A>, other: Fee<A>) returns (r: Fee<A>)
    ensures r == SubtractFee(self, other)
  {
    hide SaturatingSub;
    r := self;
    var todo := other.Keys;
    while todo != {}
      invariant todo <= other.Keys && r.Keys == self.Keys + (other.Keys - todo)
      invariant forall k | k in r :: r[k] == if k in todo then self[k] else SubtractedAt(self, other, k)
      decreases todo
    {
      var k :| k in todo;
      r := r[k := if k in r then SaturatingSub(r[k], other[k]) else other[k]];
      todo := todo - {k};
    }
    r := map k | k in r && r[k] != 0 :: r[k];
  }

  method RescaleByRatio<A(==)>(self: Fee<A>, ratio: Wrapper) returns (r: Option<Fee<A>>)
    ensures r == RescaleFee(self, ratio)
  {
    ghost var goal := RescaledAmounts(self, ratio);
    var fee := self;
    var todo := self.Keys;
    while todo != {}
      invariant todo <= self.Keys == fee.Keys == goal.Keys
      invariant forall k | k in self.Keys - todo :: goal[k] == Some(fee[k])
      invariant forall k | k in todo :: fee[k] == self[k]
      decreases todo
    {
      var k :| k in todo;
      var rescaled := RescaledAmount(fee[k], ratio);
      assert rescaled == goal[k];
      if rescaled == None {
        assert k in goal && goal[k].None?;
        return None;
      }
      fee := fee[k := rescaled.value];
      todo := todo - {k};
    }
    assert forall k | k in goal :: goal[k] == Some(fee[k]);
    assert fee == map k | k in goal :: goal[k].value;
    return Some(fee);
  }

  // -------------------------------------------------------------------------- properties

  // Which assets are listed: a merged fee lists those of both, zero or not; a difference
  // lists exactly those with something left.
  lemma ListedAssets<A>(a: Fee<A>, b: Fee<A>, k: A)
    ensures k in MergeFee(a, b) <==> k in a || k in b
    ensures k in SubtractFee(a, b) <==> ByAsset(SubtractFee(a, b), k) != 0
  {
  }

  lemma SubtractedByAsset<A>(a: Fee<A>, b: Fee<A>, k: A)
    ensures ByAsset(SubtractFee(a, b), k) == SubtractedAt(a, b, k)
  {
  }

  // Subtraction is the saturating difference for every asset exactly when no asset missing
  // on the left carries an amount on the right; otherwise that amount turns up in the result.
  lemma SubtractIsDifference<A(!new)>(a: Fee<A>, b: Fee<A>)
    ensures (forall k :: ByAsset(SubtractFee(a, b), k) == SaturatingSub(ByAsset(a, k), ByAsset(b, k)))
       <==> (forall k | k in b && k !in a :: b[k] == 0)
  {
    if forall k :: ByAsset(SubtractFee(a, b), k) == SaturatingSub(ByAsset(a, k), ByAsset(b, k)) {
      forall k | k in b && k !in a
        ensures b[k] == 0
      {
        assert ByAsset(SubtractFee(a, b), k) == SaturatingSub(ByAsset(a, k), ByAsset(b, k));
        SubtractedByAsset(a, b, k);
      }
    }
  }

  // Taking a fee of one unit from nothing leaves that unit.
  lemma SubtractCreatesFee<A>(k: A)
    ensures ByAsset(SubtractFee(map[], map[k := 1]), k) == 1
    ensures SaturatingSub(ByAsset(map[], k), ByAsset(map[k := 1], k)) == 0
  {
    SubtractedByAsset(map[], map[k := 1], k);
  }

  // Merging and taking back gives the first fee again, unless a sum was capped.
  lemma MergeThenSubtract<A>(a: Fee<A>, b: Fee<A>, k: A)
    requires ByAsset(a, k) + ByAsset(b, k) <= BALANCE_MAX
    ensures ByAsset(MergeFee(a, b), k) == ByAsset(a, k) + ByAsset(b, k)
    ensures ByAsset(SubtractFee(MergeFee(a, b), b), k) == ByAsset(a, k)
  {
  }

  // With a ratio of at most one, the rescaled part and what is left add up for every asset.
  lemma RescaledPartSplits<A>(fee: Fee<A>, ratio: Wrapper, part: Fee<A>, k: A)
    requires RescaleFee(fee, ratio) == Some(part)
    requires ratio.Ok? ==> ratio.raw <= DIV
    ensures ByAsset(part, k) + ByAsset(SubtractFee(fee, part), k) == ByAsset(fee, k)
    ensures part.Keys == fee.Keys
  {
    SubtractedByAsset(fee, part, k);
    if k in fee {
      FractionOf(fee[k], ratio);
    }
  }

  lemma FractionOf(amount: Balance, ratio: Wrapper)
    requires RescaledAmount(amount, ratio).Some?
    requires ratio.Ok? ==> ratio.raw <= DIV
    ensures RescaledAmount(amount, ratio).value <= amount
  {
    FloorMulBelow(amount, ratio.raw);
  }

  lemma FloorMulBelow(a: nat, r: nat)
    requires r <= DIV
    ensures FloorMul(a, r) <= a
  {
  }
}
