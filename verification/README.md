# Arithmetic and accounting kernel of the SORA network, verified

This Dafny project models the parts of the SORA 2 node on which amounts depend, and proves
what they compute.

- **512-bit arithmetic** (`Words`, `Double256`, `MulDiv`, `IntSqrt`): products of 256-bit
  words, long division by folding 2^256 modulo the divisor, rounded `a * b / c`, and the
  bit-by-bit square root. The loops are methods; each is proved exact, free of overflow and
  terminating.
- **FixedU256** (`FixedU256`, `FixedPow`, `DecimalText`): decimal fixed point with 18 digits.
  Multiplication, division, square root, saturating powers, and the decimal text it is
  written to and read from. `CheckedPow` is the generic exponentiation for primitive types.
- **Write-back caches** (`CacheModel`, `CacheMap`, `CacheDoubleMap`): caches with negative
  entries and tombstones over a storage map. The classes update their maps in place; every
  method is proved to make one step of a model, and every run of the model is proved to agree
  with two plain maps.
- **Swap chunks** (`FixedWrapper`, `OutcomeFee`, `Shares`, `Alt`): splitting a chunk of
  liquidity under minimum, maximum and precision limits. What is conserved, which way each
  rounding goes, and where the code creates value.
- **Balances across precisions** (`BalanceUnit`, `Bridge`) and the **nesting measure** of
  runtime calls (`CallDepth`).

Powers of two and ten are written `TwoTo` and `TenTo`; `DIV` is 10^18, `W256` is 2^256. A
Rust panic that the code can reach is an answer: `None` in `DecimalText`, `Panics` in `Alt`.
Elsewhere it is ruled out by proof: in 512-bit arithmetic, square root, powers and fixed point
no plain operator on `U256` overflows. Integer widths are explicit: `U256`,
`Balance` (u128), `Fixed` (non-negative i128), `u32` where the code truncates to it.

Two foreign types are taken at their documented behaviour. `sp_core::U256` is a 256-bit
integer whose plain operators panic on overflow. On non-negative operands, `rmul` and `rdiv`
of the `fixnum` crate with `Floor` are floor(a * b / 10^18) and floor(a * 10^18 / b), failing
with Overflow above i128::MAX and DivisionByZero on zero.

## Where the code departs from what one would expect

- `div256` is 2^256 / a only for a >= 2: at 1 its addition wraps (`WordSplitFailsAtOne`), and
  `div` is right because it answers that divisor separately.
- `parse_fixed` refuses a literal whose value fits when more than 78 digits precede the point,
  for example 79 zeros (`LeadingZerosAreRejected`); `ParseFixed` states the exact condition.
- Cutting a chunk on the output side can assign the part more input than the whole chunk has
  (`OutputLimitCreatesInput`); `AlignChunkConserves` states exactly when nothing is created.
- The comments in `proportional_input` and `proportional_output` call the detour over the price
  an approach with the same result. For an input it need not be (`OutputLimitCreatesInput`);
  `ProportionalInputRounds` and `ProportionalOutputRounds` bound how far each is off.
- A maximum of Balance::MAX is never seen as exceeded (`FillWithoutLimit`).
- `OutcomeFee::subtract` inserts the other fee for an asset missing on the left
  (`SubtractCreatesFee`); `SubtractIsDifference` states exactly when it is a difference.
- `BalanceUnit::checked_sub` can fail although the difference is representable
  (`CheckedSubGivesUp`); `CheckedSubExact` states exactly when it fails.
- `FixedU256::saturating_pow` cuts the exponent to 32 bits; `SaturatingPow` says so.
- The comment on `checked_div` in `common/src/fixed.rs` speaks of nearest rounding. The code
  passes `Minor`, which rounds down, and so does the model.

## Model

| member | source | states |
|---|---|---|
| `Words.OverflowingAdd` | common/src/arithmetic/helpers_256bit.rs:170-177 | The wrapped sum and the flag together give the exact sum |
| `Doubles.WordSplit` | common/src/arithmetic/helpers_256bit.rs:75-88 | For a >= 2, div256 and mod256 split 2^256 exactly by a, and the remainder is below 2^255 |
| `Doubles.WordSplitFailsAtOne` | common/src/arithmetic/helpers_256bit.rs:80-83 | At a = 1 the split fails because the final addition wraps |
| `Doubles.Double256.LeftShift128` | common/src/arithmetic/helpers_256bit.rs:124-129 | The two words hold the value times 2^128, nothing shifted out |
| `Doubles.Double256.Add` | common/src/arithmetic/helpers_256bit.rs:170-177 | The sum modulo 2^512: exact below 2^512, short by 2^512 otherwise |
| `Doubles.Double256.ProductOf` | common/src/arithmetic/helpers_256bit.rs:148-168 | The full 512-bit product; no partial product overflows a word and no addition wraps |
| `Doubles.Double256.Div` | common/src/arithmetic/helpers_256bit.rs:179-203 | For every 512-bit value and every divisor but zero, the exact quotient and remainder, in the passes counted by `Passes`, at most 258; every addition meets the condition under which it does not wrap |
| `Doubles.FoldStep` | common/src/arithmetic/helpers_256bit.rs:192-197 | One pass, at any word size, keeps quotient * divisor + rest, strictly shrinks the rest and stays below the bound |
| `Doubles.FoldHalves` | common/src/arithmetic/helpers_256bit.rs:192-197 | The high word is at most 2^(256-n) after n passes, and zero after 258 |
| `Doubles.Double256.Folded` | common/src/arithmetic/helpers_256bit.rs:192-197 | The value one pass leaves: high word times 2^256 mod the divisor, plus the low word; strictly less than before |
| `Doubles.PassesAreFew` | common/src/arithmetic/helpers_256bit.rs:192-197 | From any state within the bound after n passes, n and the passes still needed are at most 258 |
| `Doubles.HighWordMayNotShrink` | common/src/arithmetic/helpers_256bit.rs:192-197 | A pass that leaves the high word unchanged, so only the whole value measures progress |
| `MulDiv.RoundedQuotientIsUnique` | common/src/arithmetic/helpers_256bit.rs:219-230 | The rounded quotient is the one value whose signed error lies in the half-open interval of its mode, ties included |
| `MulDiv.MulDivRoundedMeaning` | common/src/arithmetic/helpers_256bit.rs:209-232 | A value is given if and only if c is not zero and the value is a * b / c rounded in the mode, stated without division |
| `MulDiv.MultiplyByRationalWithRounding` | common/src/arithmetic/helpers_256bit.rs:209-232 | Some exactly when c is not zero and the rounded a * b / c fits a word, and then that value, in all four modes |
| `IntSqrt.Root` | common/src/arithmetic/helpers_256bit.rs:234-259 | The reference: r * r <= n < (r + 1) * (r + 1) |
| `IntSqrt.DigitsFindRoot` | common/src/arithmetic/helpers_256bit.rs:248-258 | From any state of the bit-by-bit loop it ends at the root, and no sum on the way reaches 2^256 |
| `IntSqrt.Sqrt` | common/src/arithmetic/helpers_256bit.rs:234-259 | The loop returns the integer square root of every word |
| `FixedPoint.I257RoundTrip` | common/src/fixed.rs:84-129 | Sign and magnitude and back is the identity for every value of every primitive type, the most negative one included |
| `FixedPoint.FromI257Exact` | common/src/fixed.rs:113-129 | Converting back succeeds exactly for the values the type has |
| `FixedPoint.CheckedMulIntTruncates` | common/src/fixed.rs:244-256 | Times an integer of any type and sign: the product rounded toward zero, absent exactly when it does not fit |
| `FixedPoint.CheckedMulIsFloor` | common/src/fixed.rs:880-893 | The floor of x * y / 10^18, absent exactly when it does not fit |
| `FixedPoint.CheckedDivIsFloor` | common/src/fixed.rs:829-850 | The floor of x * 10^18 / y, absent exactly for y = 0 or when it does not fit |
| `FixedPoint.DivThenMul` | common/src/fixed.rs:829-893 | Dividing and multiplying back succeeds, never gains, and bounds what is lost |
| `FixedPoint.TrySqrtAccuracy` | common/src/fixed.rs:562-585 | Exact integer root of n * 10^18 when that fits; otherwise below it by less than 10^9 raw units |
| `FixedPoint.SquareOfSqrt` | common/src/fixed.rs:562-585 | The root's square is computable and at most the argument, on both paths |
| `FixedPoint.SqrtOfSquare` | common/src/fixed.rs:562-585 | For raw x divisible by 10^9 whose square fits, the root of the square is x, on both paths |
| `FixedPow.SaturatingPow` | common/src/fixed.rs:737-754 | For every exponent the power for it modulo 2^32; below 2^32 never above the exact power, and for an integer base the exact power, capped |
| `FixedPow.PowerNeverExceeds` | common/src/fixed.rs:732-754 | Despite rounding at every step, r * DIV^(e-1) <= x^e |
| `FixedPow.PowerOfInteger` | common/src/fixed.rs:732-754 | For an integer k the result is k^e, capped at the largest value |
| `FixedPow.PowerAccuracy` | common/src/fixed.rs:732-754 | Whenever the exact power fits, or x is at most one, the result is short of it by at most e - 1 roundings, each carried through the remaining factors: x^e <= r * DIV^(e-1) + (e-1) * max(x, DIV)^(e-1) |
| `FixedPow.PowerOfMonotone` | common/src/fixed.rs:732-754 | A larger base never gives a smaller power |
| `DecimalText.Find` | common/src/fixed.rs:1010-1021 | The first position of the byte, or nothing if it does not occur |
| `DecimalText.Pow10` | common/src/fixed.rs:1023-1059 | 10^power from table and loop, absent exactly when it overflows a word |
| `DecimalText.ParseDigit` | common/src/fixed.rs:1061-1065 | Wrapping subtraction accepts exactly the ten digits |
| `DecimalText.ParseInt` | common/src/fixed.rs:1067-1078 | The number of a digit run, read exactly when all bytes are digits, there are at most 78 of them and the number fits |
| `DecimalText.ParseFixed` | common/src/fixed.rs:1081-1103 | The literal's value times 10^18, read exactly for literals with at most 78 digits before and 18 after the point whose value fits |
| `DecimalText.ValueOfParts` | common/src/fixed.rs:1098-1102 | Integral and scaled fractional part add up to the digits read without the point |
| `DecimalText.LeadingZerosAreRejected` | common/src/fixed.rs:1067-1078 | A literal of value zero that is refused |
| `DecimalText.DebugReadsBack` | common/src/fixed.rs:938-957 | Every FixedU256 is read back from the integer and 18 digits that Debug writes |
| `DecimalText.DebugIsCanonical` | common/src/fixed.rs:938-957 | The text has exactly 18 decimals and no leading zero but a single one |
| `DecimalText.ReadsOneAndAHalf` | common/src/fixed.rs:1081-1103 | The text 1.5 is read as one and a half |
| `CheckedPower.CheckedPow` | common/src/arithmetic/checked.rs:386-408 | For every signed or unsigned type, the power, absent exactly when it is out of range |
| `CheckedPower.SaturatingPow` | common/src/arithmetic/sp_saturating.rs:118-127 | The exact power clamped into the type |
| `CacheModel.StepRefines` | common/src/cache_storage/cache_map.rs:66-176 | Each operation answers and changes what a working map over a committed map would, and keeps clean entries in step with storage |
| `CacheModel.RunRefines` | common/src/cache_storage/cache_map.rs:66-176 | Every run gives the same answers, the same visible map and the same committed storage as the plain maps |
| `CacheModel.OneReadPerKey` | common/src/cache_storage/cache_map.rs:85-126 | Between commits and resets get, get_mut and remove together read a key from storage at most once, however mixed with contains_key; a cached key is not read at all |
| `CacheModel.CleanStaysClean` | common/src/cache_storage/cache_map.rs:128-150 | A key no operation modifies is neither made dirty nor written |
| `CacheModel.StepTracks` | common/src/cache_storage/cache_map.rs:66-176 | Exactly which keys each operation leaves cached and which to be written: a commit keeps every visible value cached, and an absent key that is removed or modified is not written |
| `CacheModel.CommitWritesOnce` | common/src/cache_storage/cache_map.rs:128-150 | A commit writes each pending key once and no other; a second commit changes nothing |
| `CacheMap.CacheStorageMap.constructor` | common/src/cache_storage/cache_map.rs:66-71 | A new cache shows the storage as it is |
| `CacheMap.CacheStorageMap.ContainsKey` | common/src/cache_storage/cache_map.rs:73-83 | Makes the model's step and returns its answer |
| `CacheMap.CacheStorageMap.Get` | common/src/cache_storage/cache_map.rs:92-102 | Makes the model's step and returns its answer |
| `CacheMap.CacheStorageMap.GetMut` | common/src/cache_storage/cache_map.rs:166-176 | Makes the model's step, with what the caller assigns through the reference |
| `CacheMap.CacheStorageMap.Set` | common/src/cache_storage/cache_map.rs:105-107 | Makes the model's step |
| `CacheMap.CacheStorageMap.Remove` | common/src/cache_storage/cache_map.rs:111-126 | Makes the model's step |
| `CacheMap.CacheStorageMap.Commit` | common/src/cache_storage/cache_map.rs:133-150 | The loop over entries and the final retain make the model's commit, storage and write tally included |
| `CacheMap.CacheStorageMap.Reset` | common/src/cache_storage/cache_map.rs:153-155 | Makes the model's step |
| `CacheMap.Replay` | common/src/cache_storage/cache_map.rs:66-176 | Any sequence of calls on an object answers and stores what the plain maps do |
| `CacheDoubleMap.OneSingleReadPerKey` | common/src/cache_storage/cache_double_map.rs:69-230 | The same over runs that also read whole rows; a stored key is not read singly after its row was |
| `CacheDoubleMap.ReadsOfRow` | common/src/cache_storage/cache_double_map.rs:195-203 | A row read consults exactly the stored keys of the row, once each, and leaves them cached |
| `CacheDoubleMap.IterPrefix` | common/src/cache_storage/cache_double_map.rs:198-202 | The row's stored values, each key tallied as read once |
| `CacheDoubleMap.LoadRowRefines` | common/src/cache_storage/cache_double_map.rs:195-203 | Loading a row is invisible and leaves the whole visible row in the cache |
| `CacheDoubleMap.DoubleRunRefines` | common/src/cache_storage/cache_double_map.rs:69-230 | Every run, reads of whole rows included, agrees with the plain maps |
| `CacheDoubleMap.CacheStorageDoubleMap.GetByPrefix` | common/src/cache_storage/cache_double_map.rs:116-132 | Makes the model's step: loads the row, its reads tallied, and returns its live values |
| `CacheDoubleMap.CacheStorageDoubleMap.Commit` | common/src/cache_storage/cache_double_map.rs:168-187 | The nested loops make the model's commit over pairs of keys |
| `CacheDoubleMap.CacheStorageDoubleMap.Remove` | common/src/cache_storage/cache_double_map.rs:144-161 | Makes the model's step over pairs of keys |
| `OutcomeFees.Merge` | common/src/outcome_fee.rs:113-121 | Per asset the saturating sum, over the assets of both |
| `OutcomeFees.Subtract` | common/src/outcome_fee.rs:123-135 | Per asset the saturating difference, or the other amount where the left has none; zeros dropped |
| `OutcomeFees.RescaleByRatio` | common/src/outcome_fee.rs:139-146 | All amounts times the ratio, rounded down, or nothing if one cannot be computed |
| `OutcomeFees.ListedAssets` | common/src/outcome_fee.rs:113-135 | A merged fee lists the assets of both; a difference lists exactly the assets with something left |
| `OutcomeFees.SubtractIsDifference` | common/src/outcome_fee.rs:123-135 | It is the saturating difference for every asset if and only if nothing is owed in an asset the left does not have |
| `OutcomeFees.SubtractCreatesFee` | common/src/outcome_fee.rs:123-135 | Subtracting one unit from no fee leaves one unit, where the saturating difference is zero |
| `OutcomeFees.MergeThenSubtract` | common/src/outcome_fee.rs:113-135 | Merging and subtracting again gives back the fee, unless a sum was capped |
| `OutcomeFees.RescaledPartSplits` | common/src/outcome_fee.rs:123-146 | At a ratio of at most one the rescaled fee and the remainder add up in every asset |
| `Alt.ProportionalOutputRounds` | common/src/alt.rs:207-227 | Zero for zero; never above the exact share, and the shortfall bounded, on either path |
| `Alt.ProportionalOutputComputes` | common/src/alt.rs:207-227 | For a part of the input, an output is computed if and only if both amounts of the chunk are in range: the two paths never overflow together |
| `Alt.ProportionalInputRounds` | common/src/alt.rs:183-203 | Zero for zero; at most the exact share on the direct path, with the shortfall bounded; at least its floor on the overflow path, with the excess bounded |
| `Alt.ProportionalInputComputes` | common/src/alt.rs:183-203 | For a part of the output, an input is computed if and only if the amounts are in range and the product fits, or the price is not zero and the quotient by it fits |
| `Alt.InputWithinChunk` | common/src/alt.rs:183-203 | The input of a part stays within the chunk if and only if the product of the amounts fits or the rounded price does not overshoot |
| `Alt.SplitConserves` | common/src/alt.rs:229-275 | A cut and its remainder add up in input, output and every fee if and only if it is on the input side or the input stays within the chunk |
| `Alt.CutIsPart` | common/src/alt.rs:229-259 | What is cut off has the amount asked for, the share of the other side that goes with it, and the share of the fee in every asset, each with its rounding direction and error bound in terms of the amounts; nothing on the other side for a cut to zero |
| `Alt.CutComputes` | common/src/alt.rs:229-259 | A cut to part of either side is computed if and only if the amounts and fees it touches are in range and, on the output side, the input can be computed |
| `Alt.RoundedDownIsMultiple` | common/src/alt.rs:417-419 | The greatest multiple of the precision not above the amount |
| `Alt.AlignChunkShape` | common/src/alt.rs:330-461 | Every outcome, read off the limits: at most one cut, at the maximum if exceeded, else at the precision; otherwise the chunk is kept or refused whole, or a zero precision panics |
| `Alt.AlignedIsPart` | common/src/alt.rs:330-461 | Whatever is aligned by a cut is such a part of the chunk, for the amount the limits ask for |
| `Alt.AlignChunkConserves` | common/src/alt.rs:330-461 | Aligned part and remainder add up if and only if the cut made, if any, splits the chunk |
| `Alt.InputLimitsConserve` | common/src/alt.rs:330-461 | With maximum and precision on the input side, always conserved |
| `Alt.AlignChunkGivesUp` | common/src/alt.rs:330-461 | No result if and only if there is a cut to make, on either side, and its amounts cannot be computed |
| `Alt.InputLimitsAlign` | common/src/alt.rs:330-461 | With those limits every chunk in range is aligned; no overflow on the way is final |
| `Alt.OutputLimitCreatesInput` | common/src/alt.rs:366-372 | A chunk and an output limit for which the part has more input than the whole |
| `Alt.AlignedIsWithinLimits` | common/src/alt.rs:330-461 | For consistent limits on one side the result is zero, or between minimum and maximum and a multiple of the precision |
| `Alt.AlignChunkIdempotent` | common/src/alt.rs:441-461 | Aligning an aligned chunk changes nothing and leaves no remainder |
| `Alt.IsZeroMeans` | common/src/alt.rs:142-144 | A chunk is zero if and only if both sides and the fee in every asset are |
| `Alt.ExtraChunkShape` | common/src/alt.rs:380-406 | Every outcome for an extra chunk: a part of it for what the maximum leaves, or all of it |
| `Alt.ExtraChunkConserves` | common/src/alt.rs:380-406 | What fits of an extra chunk and its remainder add up if and only if the cut made, if any, splits the chunk |
| `Alt.FillReachesLimit` | common/src/alt.rs:261-406 | Over any sequence of extra chunks the total is exactly the limit or everything offered, and the remainders account for the rest |
| `Alt.FillConserves` | common/src/alt.rs:261-406 | If every cut splits its chunk, the run succeeds and both sides and every fee end at everything offered less the remainders, capped; conserved whenever the total fits |
| `Alt.InputFillConserves` | common/src/alt.rs:261-406 | With an input-side maximum, or none, every run of chunks in range succeeds and conserves every amount whose total fits |
| `Alt.FillWithoutLimit` | common/src/alt.rs:380-406 | With a limit of Balance::MAX nothing is cut, and the total is conserved if and only if it fits |
| `BalanceUnits.CmpIsByValue` | common/src/balance_unit.rs:99-108 | The comparison of integer and fractional parts is comparison by value |
| `BalanceUnits.CmpIsTotalPreorder` | common/src/balance_unit.rs:99-108 | Antisymmetric, transitive, and equal only for equal units or the two precisions of one value |
| `BalanceUnits.CheckedAddExact` | common/src/balance_unit.rs:282-292 | Exact on values; fails if and only if the sum does not fit the result's precision |
| `BalanceUnits.CheckedSubExact` | common/src/balance_unit.rs:314-324 | Exact on values; fails if and only if negative or the left side cannot be scaled up |
| `BalanceUnits.CheckedSubGivesUp` | common/src/balance_unit.rs:314-324 | Two units whose difference is representable and is not computed |
| `BalanceUnits.CheckedMulFloor` | common/src/balance_unit.rs:347-358 | The floor of the exact product at every mix of precisions; fails if and only if it, or a divisible pair's operand, is out of range |
| `BalanceUnits.CheckedDivFloor` | common/src/balance_unit.rs:384-400 | The floor of the exact quotient, cut to a whole number between indivisible units; fails if and only if the divisor is zero or, for a divisible one, an operand or the quotient is out of range |
| `BalanceUnits.PrecisionRoundTrip` | common/src/balance_unit.rs:231-250 | Each conversion gives the precision its name says; scaling up is exact and comes back under either rounding; scaling down brackets the value |
| `Bridge.ConvertedIsOneQuantity` | runtime/src/impls.rs:408-431 | Both answers are one quantity at two precisions, the largest both can hold up to the amount; absent if and only if something does not fit |
| `Bridge.FromSidechainIsOneQuantity` | runtime/src/impls.rs:434-444 | Both answers are one quantity at two precisions; times the factor it is at most the amount and short of it by less than the least credit; absent if and only if the factor is zero or something does not fit |
| `Bridge.ToSidechainIsOneQuantity` | runtime/src/impls.rs:446-456 | Both answers are one quantity at two precisions, the scaled amount up to what the coarser precision can hold; absent if and only if something does not fit |
| `Bridge.OutAndBack` | runtime/src/impls.rs:408-456 | What can be sent out can be sent back, and is the amount less what the coarser precision cannot hold |
| `Bridge.InAndBack` | runtime/src/impls.rs:408-456 | The return leg fails if and only if this chain counts more finely and the credited amount times the factor does not fit; what is returned is what came in, rounded down to what can be credited here |
| `CallDepths.MeasuresLeaves` | runtime/src/xor_fee_impls.rs:109-151 | The saturating number of swap leaves and level of the deepest vested transfer, for every call tree and starting depth |
| `CallDepths.ShallowIffVestedAtTop` | runtime/src/xor_fee_impls.rs:109-151 | Depth at most one if and only if every vested transfer is bare or directly inside one xorless call |

## Left out

- The internals of `sp_core::U256`, `fixnum` and `Permill`, and with `Permill` the quotation check `DiscreteQuotation::verify`.
- The order in which a commit writes: keys are distinct, and the model keeps a tally per key, not a sequence.
- `rescale_by_ratio` of a chunk, `get_precision_step`, `saturating_mul_usize`, and the constructors for named fee assets.
- The liquidity aggregator and selector of the liquidity proxy, which call the alignment functions.
- Other operations of `FixedU256`: the nearest-rounding variants, rational constructors, `trunc`, `round`, floating point, serialisation.
- The logarithm that `Debug` uses for its width; it is taken as 18.
- `saturating_add`, `saturating_sub`, `saturating_mul` and powers of `BalanceUnit`.
- The `U256` instance of the bridge converter; the modelled one is Balance to Balance.
- Fee withdrawal, `CustomFees` and the other runtime glue around the nesting measure.
- The rest of the node, its pallets and its tools.
