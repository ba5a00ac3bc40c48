// `RuntimeCall::swap_count_and_depth` (runtime/src/xor_fee_impls.rs) over call trees.
module CallDepths {
  import opened Arith
  import Words

  const U32_MAX: nat := Words.U32 - 1

  type U32 = x: nat | x <= U32_MAX

  // Wrapped: as_multi, as_multi_threshold_1 and as_derivative; Batch: the three batch calls;
  // Swap: the three swap calls of the liquidity proxy.
  datatype Call =
    | Wrapped(call: Call)
    | Batch(calls: seq<Call>)
    | Swap
    | XorlessCall(call: Call)
    | VestedTransfer
    | Other

  datatype CallDepth = CallDepth(swapCount: U32, depth: U32)

  function SaturatingAdd(a: U32, b: nat): U32 { Min(a + b, U32_MAX) }

  function SwapCountAndDepth(call: Call, depth: U32): CallDepth
    decreases call
  {
    match call
    case Wrapped(inner) => SwapCountAndDepth(inner, SaturatingAdd(depth, 2))
    case Batch(calls) => BatchFold(calls, SaturatingAdd(depth, 2), CallDepth(0, 0))
    case Swap => CallDepth(1, 0)
    case XorlessCall(inner) => SwapCountAndDepth(inner, SaturatingAdd(depth, 1))
    case VestedTransfer => CallDepth(0, depth)
    case Other => CallDepth(0, 0)
  }

  // The fold over a batch, from left to right.
  function BatchFold(calls: seq<Call>, depth: U32, acc: CallDepth): CallDepth
    decreases calls
  {
    if calls == [] then acc
    else
      var d := SwapCountAndDepth(calls[0], depth);
      BatchFold(calls[1..], depth,
                CallDepth(SaturatingAdd(acc.swapCount, d.swapCount), Max(acc.depth, d.depth)))
  }

  // ------------------------------------------------------------------ what it measures

  // Leaves of the tree, each with the number of levels above it: two for a wrapper or a
  // batch, one for a xorless call.
  datatype Leaf = Leaf(call: Call, level: nat)

  function Leaves(call: Call, level: nat): seq<Leaf>
    decreases call
  {
    match call
    case Wrapped(inner) => Leaves(inner, level + 2)
    case Batch(calls) => BatchLeaves(calls, level + 2)
    case XorlessCall(inner) => Leaves(inner, level + 1)
    case leaf => [Leaf(leaf, level)]
  }

  function BatchLeaves(calls: seq<Call>, level: nat): seq<Leaf>
    decreases calls
  {
    if calls == [] then [] else Leaves(calls[0], level) + BatchLeaves(calls[1..], level)
  }

  function Swaps(leaves: seq<Leaf>): nat {
    if leaves == [] then 0 else (if leaves[0].call.Swap? then 1 else 0) + Swaps(leaves[1..])
  }

  // The deepest vested transfer, zero if there is none.
  function Deepest(leaves: seq<Leaf>): nat {
    if leaves == [] then 0
    else Max(if leaves[0].call.VestedTransfer? then leaves[0].level else 0, Deepest(leaves[1..]))
  }

  lemma {:induction false} LeavesConcat(a: seq<Leaf>, b: seq<Leaf>)
    ensures Swaps(a + b) == Swaps(a) + Swaps(b)
    ensures Deepest(a + b) == Max(Deepest(a), Deepest(b))
  {
    if a == [] {
      assert a + b == b;
    } else {
      assert (a + b)[1..] == a[1..] + b;
      LeavesConcat(a[1..], b);
    }
  }

  // The measure, from any starting depth: the number of swap leaves and the level of the
  // deepest vested transfer, both saturating.
  lemma {:induction false} MeasuresLeaves(call: Call, level: nat)
    ensures SwapCountAndDepth(call, Min(level, 0xFFFF_FFFF)) ==
      CallDepth(Min(Swaps(Leaves(call, level)), 0xFFFF_FFFF), Min(Deepest(Leaves(call, level)), 0xFFFF_FFFF))
    decreases call
  {
    match call
    case Wrapped(inner) => MeasuresLeaves(inner, level + 2);
    case Batch(calls) =>
      FoldMeasuresLeaves(calls, level + 2, []);
      assert [] + BatchLeaves(calls, level + 2) == BatchLeaves(calls, level + 2);
    case XorlessCall(inner) => MeasuresLeaves(inner, level + 1);
    case _ =>
  }

  lemma {:induction false} FoldMeasuresLeaves(calls: seq<Call>, level: nat, before: seq<Leaf>)
    ensures var all := before + BatchLeaves(calls, level);
      BatchFold(calls, Min(level, U32_MAX),
                CallDepth(Min(Swaps(before), U32_MAX), Min(Deepest(before), U32_MAX)))
      == CallDepth(Min(Swaps(all), U32_MAX), Min(Deepest(all), U32_MAX))
    decreases calls
  {
    if calls == [] {
      assert before + [] == before;
    } else {
      var first := Leaves(calls[0], level);
      MeasuresLeaves(calls[0], level);
      LeavesConcat(before, first);
      FoldMeasuresLeaves(calls[1..], level, before + first);
      assert (before + first) + BatchLeaves(calls[1..], level)
          == before + (first + BatchLeaves(calls[1..], level));
    }
  }

  lemma {:induction false} DeepestBound(leaves: seq<Leaf>, n: nat)
    ensures Deepest(leaves) <= n <==>
      forall i | 0 <= i < |leaves| && leaves[i].call.VestedTransfer? :: leaves[i].level <= n
  {
    if leaves != [] {
      DeepestBound(leaves[1..], n);
      if Deepest(leaves) <= n {
        forall i | 0 <= i < |leaves| && leaves[i].call.VestedTransfer?
          ensures leaves[i].level <= n
        {
          if i > 0 {
            assert leaves[i] == leaves[1..][i - 1];
          }
        }
      } else if Deepest(leaves[1..]) > n {
        var i :| 0 <= i < |leaves[1..]| && leaves[1..][i].call.VestedTransfer? && leaves[1..][i].level > n;
        assert leaves[i + 1] == leaves[1..][i];
      }
    }
  }

  // No vested transfer anywhere below.
  predicate NoVested(call: Call)
    decreases call
  {
    match call
    case Wrapped(inner) => NoVested(inner)
    case Batch(calls) => forall c | c in calls :: NoVested(c)
    case XorlessCall(inner) => NoVested(inner)
    case leaf => !leaf.VestedTransfer?
  }

  lemma {:induction false} VestedLevels(call: Call, level: nat)
    ensures forall leaf | leaf in Leaves(call, level) :: leaf.level >= level
    ensures NoVested(call) <==> forall leaf | leaf in Leaves(call, level) :: !leaf.call.VestedTransfer?
    decreases call
  {
    match call
    case Wrapped(inner) => VestedLevels(inner, level + 2);
    case Batch(calls) => BatchVestedLevels(calls, level + 2);
    case XorlessCall(inner) => VestedLevels(inner, level + 1);
    case leaf => assert Leaves(leaf, level) == [Leaf(leaf, level)];
  }

  lemma {:induction false} BatchVestedLevels(calls: seq<Call>, level: nat)
    ensures forall leaf | leaf in BatchLeaves(calls, level) :: leaf.level >= level
    ensures (forall c | c in calls :: NoVested(c))
       <==> forall leaf | leaf in BatchLeaves(calls, level) :: !leaf.call.VestedTransfer?
    decreases calls
  {
    if calls != [] {
      VestedLevels(calls[0], level);
      BatchVestedLevels(calls[1..], level);
      assert calls == [calls[0]] + calls[1..];
    }
  }

  // Allowed shapes: a vested transfer on its own or directly inside one xorless call;
  // anywhere else there must be none.
  predicate VestedOnlyAtTop(call: Call) {
    call.VestedTransfer? || NoVested(call) || (call.XorlessCall? && call.call.VestedTransfer?)
  }

  // The reported depth, counted from the top, is at most one exactly for those shapes.
  lemma ShallowIffVestedAtTop(call: Call)
    ensures SwapCountAndDepth(call, 0).depth <= 1 <==> VestedOnlyAtTop(call)
  {
    MeasuresLeaves(call, 0);
    var leaves := Leaves(call, 0);
    DeepestBound(leaves, 1);
    assert Deepest(leaves) <= 1 <==>
      forall leaf | leaf in leaves && leaf.call.VestedTransfer? :: leaf.level <= 1;
    VestedLevels(call, 0);
    match call
    case Wrapped(inner) => VestedLevels(inner, 2);
    case Batch(calls) => BatchVestedLevels(calls, 2);
    case XorlessCall(inner) =>
      VestedLevels(inner, 1);
      XorlessShallow(inner);
    case _ =>
  }

  lemma XorlessShallow(inner: Call)
    ensures (forall leaf | leaf in Leaves(inner, 1) && leaf.call.VestedTransfer? :: leaf.level <= 1)
       <==> inner.VestedTransfer? || NoVested(inner)
  {
    VestedLevels(inner, 1);
    match inner
    case Wrapped(c) => VestedLevels(c, 3);
    case Batch(calls) => BatchVestedLevels(calls, 3);
    case XorlessCall(c) => VestedLevels(c, 2);
    case _ =>
  }
}
