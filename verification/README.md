# Lending back end: a Dafny model

The repository is the off-chain half of a lending protocol. It indexes several EVM chains into one store, replicates the
interest accrual of the on-chain pools, watches the health factors of leveraged positions, and submits liquidations.
This project models the parts that compute or keep state, and proves what they keep, over all inputs, all runs and all
interleavings. `dafny verify dfyconfig.toml` checks all of it.

## What is modelled

| Part | Source | Files |
|---|---|---|
| Fixed-point arithmetic, interest multipliers | internal/common/math/wadray.go | WadRay, RayRounding, Interest, Compounding |
| Rate curve, index accrual, pools updated by events | internal/liquidation/ratecomputer/model.go | RateModel, RateComputer |
| Health factors, indexed heap of positions, scanner | internal/liquidation/scanner/scanner.go, Go's container/heap | HealthFactor, HealthFactorError, HeapOrder, PositionHeap, Scanner |
| Calldata, nonces, pending transactions | internal/liquidation/executor/executor.go | Calldata, Executor |
| Scans: who is liquidated, for how much, and again | internal/liquidation/service.go | LiquidationService, LiquidationRounds |
| Reorganisation detector | internal/indexer/reorg/detector.go | Detector |
| Event store and consumer | internal/indexer/consumer/event_consumer.go, event_consumer_test.go | Store, ChainIndexer |
| Listener and per-chain loop, all chains at once | internal/indexer/listener/block_listener.go, internal/indexer/service.go | Listener, ChainIndexer, ChainSteps, ChainRefinement, ChainTheorems, ChainRestarts |

Pure formulas are functions under the source's own names. Objects that the source updates in place are classes (`Pool`,
`RateComputer`, `UserPosition`, `PositionHeap`, `Scanner`, `Detector`, `EventStore`, `EventConsumer`, `LiquidationTx`,
`Executor`), whose methods follow the source statement by statement and are proved equal to specification functions on
values; the lemmas are about those functions. Iteration over a Go map takes the keys in an arbitrary order.

The indexer is described twice. `ChainIndexers` has the methods, and `HeaderHandled` as the meaning of one pass of the
loop. `ChainSteps` has the same thing cut into single store operations, each of which may fail, and interleaved in any way
with those of other chains. `HeaderHandledIsSteps` and `LoopIsRun` connect the two, so that what is proved about whole
passes holds in every interleaving. What a run leaves in the store is stated twice: row by row for every pattern of
failing calls (`StoredWhateverFails`, `StoredIff`), and then for a store that does not fail (`StoredExactly`). The
executor too is described by whole calls and by steps (`Executed`, `Next`, `ExecuteIsSteps`).

Everything is integer arithmetic. A bound such as "within 1/2" is stated with its denominators multiplied out.
`big.Int.Div` is Euclidean, as Dafny's `/` is, so the formulas also agree for negative operands.

## Where the code and its comments part

The model follows the code.

- `FindLiquidatable` is documented as sorted (scanner.go:192); it lists the map in any order.
- Rates are documented as per second (model.go:28-29); they are divided by the seconds of a year (wadray.go:82).
- `RayToWad` is documented as truncating (wadray.go:66); it rounds half up.
- "Infinite" health (scanner.go:172) is a sentinel of 1000 RAY that other positions exceed:
  `FullRepaymentLowersFactorIff`, `RepaymentWitness`.
- An event older than the pool's clock rewinds the clock (model.go:204), and the same seconds are charged again:
  `ChargedTimeIsElapsedIffOrdered` says when, `ChargedTimeIsPaidFor` that every second charged is paid for, and
  `RewindOverchargesIff` exactly when an index ends up too high.
- A failed read of the sync mark is logged as "starting from 0" (internal/indexer/service.go:101); it starts from block
  1, over everything still stored: `StartingOver`. A failed update of the mark leaves it behind what is stored, and the
  next run begins at a stored block: `ClearAfterIff` says when, with `LaggingMark`. Either way blocks can be stored
  twice: `StoredOnceIff`, `StoredTwice`.
- The detector does not look at the parent of a block it already has (`AlarmIff`), and does not look again after a
  rollback (`RollbackSettlesIff`). On a contiguous stream a reorganisation deletes the parent, which is never fetched
  again: `NoHolesIff`. A new run begins with an empty window and does not compare its first header with what is stored:
  `RestartLinkedIff`, `RestartBreaksLink`.
- The detector's window keeps to its size, and keeps the newest block, only under conditions that streams which jump
  back can break: `NewestKeptIff` and `SizeKeptIff` for one block, `WindowBoundedIff` for a stream, with examples in
  `JumpingBack`. With confirmations unset its size is zero, and no reorganisation is ever noticed:
  `NothingDetectedWithoutRoom`.
- A subscription can skip headers or repeat them, when its backfill is cut short or when polling takes over after heads
  have been pushed: `StreamContiguousIff` and `FallbackContiguousIff`, with `SkippingSubscription` and
  `RepeatingSubscription`.
- "The largest debt and largest collateral" (internal/liquidation/service.go:92) are the first ones listed, and "50% of
  debt" is half of the principal, without interest. A position without collateral is never acted on: `BareDebtIsSkipped`.
- A mark that arrives between sending a transaction and recording it is lost: the transaction stays pending until it is
  marked again (`EarlyMarkIsLost`), and the pending count is off by just those and the ones not recorded yet
  (`PendingIsConserved`). `EarlyMarkWitness` is such a run.
- A scan does not ask whether a user's last transaction is still pending; it liquidates every target again:
  `DoubleLiquidationIff`.
- The calldata loses the sign of a negative amount, and an amount of 2^256 or more overwrites the borrower:
  `CalldataRoundTrip`.

## Model

| member | source | states |
|---|---|---|
| `WadRay.RoundedDivIsNearest` | internal/common/math/wadray.go:40-73 | (n + d/2)/d is the integer nearest to n/d with ties up, for odd and even d, and no other integer is |
| `WadRay.RoundedDivMono` | internal/common/math/wadray.go:40-73 | a smaller fraction never rounds to a larger integer, whatever the two denominators |
| `RayRounding.RayMulIsNearest` | internal/common/math/wadray.go:41-46 | RayMul is the nearest integer to a*b/RAY, for every sign (if and only if) |
| `RayRounding.RayDivIsNearest` | internal/common/math/wadray.go:49-58 | RayDiv is the nearest integer to a*RAY/b, for every b > 0 (if and only if) |
| `RayRounding.RayMulMono` | internal/common/math/wadray.go:41-46 | monotone in both factors, and non-negative |
| `RayRounding.RayDivMono` | internal/common/math/wadray.go:49-58 | rises with the numerator and falls with the divisor |
| `RayRounding.RayIsUnit` | internal/common/math/wadray.go:41-58 | RAY is the unit of RayMul and RayDiv; a/a is RAY |
| `RayRounding.WadToRayThenRayToWad` | internal/common/math/wadray.go:61-73 | converting to Ray and back returns every x; one WAD is one RAY |
| `RayRounding.RayToWadIsNearest` | internal/common/math/wadray.go:67-73 | RayToWad is the nearest integer to x*WAD/RAY, for every sign (if and only if) |
| `RayRounding.RayToWadMono` | internal/common/math/wadray.go:67-73 | the conversion keeps order |
| `RayRounding.RayMulAfterRayDivError` | internal/common/math/wadray.go:41-58 | dividing by b and multiplying back is within b/(2*RAY) + 1/2 of a |
| `RayRounding.RayMulAfterRayDiv` | internal/common/math/wadray.go:41-58 | and returns exactly a for every 0 < b <= RAY |
| `RayRounding.RoundTripExactlyUpToRay` | internal/common/math/wadray.go:41-58 | b round-trips every a if and only if b <= RAY |
| `RayRounding.RayMulByQuotientError` | internal/common/math/wadray.go:41-58 | c*(a/b) through both roundings is within c/(2*RAY) + 1/2 of the exact fraction |
| `Interest.LinearInterestIsProRata` | internal/common/math/wadray.go:77-85 | the accrued part is the time share of the yearly rate, rounded down |
| `Interest.LinearInterestOverYears` | internal/common/math/wadray.go:77-85 | k years at a rate give exactly RAY + k*rate, so rates are yearly |
| `Interest.LinearInterestMono` | internal/common/math/wadray.go:77-85 | at least RAY, and rising with rate and time |
| `Interest.LinearInterestSplit` | internal/common/math/wadray.go:77-85 | splitting an interval loses at most one unit and gains none |
| `Interest.CompoundedInterestOrder` | internal/common/math/wadray.go:89-121 | compounding is never below linear interest and never shrinks with time |
| `Compounding.CompoundedInterestByCoefficients` | internal/common/math/wadray.go:94-120 | the doubly truncated terms are single floors of binomial coefficients times the rounded powers of the rate |
| `Compounding.CompoundedInterestNearBinomial` | internal/common/math/wadray.go:89-121 | for every rate >= 0 and time, two-sided distance to the exact three-term binomial |
| `Compounding.TermsClosedForm` | internal/common/math/wadray.go:87-88 | the terms of (d + r)^n by Pascal's rule are choose(n,k) * r^k * d^(n-k) for k = 1, 2, 3 |
| `Compounding.TruncatedBelowPower` | internal/common/math/wadray.go:87-88 | cutting the expansion after any term never exceeds the power |
| `Compounding.CompoundedInterestAgainstPower` | internal/common/math/wadray.go:89-121 | for every rate >= 0 and every time: at most RAY*(1 + rate/(RAY*YEAR))^t plus the slack of rounding rate^2 and rate^3, and above its three-term truncation minus that slack and three units |
| `Compounding.CompoundedInterestSandwich` | internal/common/math/wadray.go:89-121 | up to 800% and one year that slack is at most one unit: at most the power plus 1, and above its truncation minus 4 |
| `RateModel.UtilizationIsNearestShare` | internal/liquidation/ratecomputer/model.go:68-78 | within [0, RAY], and the nearest RAY fraction of borrow/(supply + borrow) |
| `RateModel.UtilizationMono` | internal/liquidation/ratecomputer/model.go:68-78 | more borrowed or less supplied never lowers it, rounding included |
| `RateModel.UtilizationEnds` | internal/liquidation/ratecomputer/model.go:68-78 | 0 without borrowing, the empty pool included; 100% without supply; 50% when both are equal |
| `RateModel.BorrowRateMono` | internal/liquidation/ratecomputer/model.go:83-106 | utilization never lowers the rate, on either side of the kink and across it |
| `RateModel.BorrowRateRange` | internal/liquidation/ratecomputer/model.go:83-106 | within [base, base + slope1 + slope2]; base + slope1 at a positive optimum, the upper end at 100% |
| `RateModel.BorrowRateOnTheLine` | internal/liquidation/ratecomputer/model.go:83-106 | each segment is a straight line between those points up to two roundings, and the upper one goes on beyond 100% |
| `RateModel.BorrowRateFollowsDemand` | internal/liquidation/ratecomputer/model.go:68-106 | more borrow never lowers and more supply never raises the rate, through every rounding |
| `RateModel.SupplyRateIsNearest` | internal/liquidation/ratecomputer/model.go:110-112 | the supply rate is the integer nearest to borrow rate times utilization over RAY (if and only if) |
| `RateModel.SupplyRateAtMostBorrowRate` | internal/liquidation/ratecomputer/model.go:110-112 | suppliers never earn more than borrowers pay |
| `RateModel.ExtrapolateIndexMono` | internal/liquidation/ratecomputer/model.go:116-124 | an index never falls, and rises with its start, the rate and the clock |
| `RateModel.SplitAccrual` | internal/liquidation/ratecomputer/model.go:116-124 | accruing in two steps loses at most I/RAY + m2/(2*RAY) + 1 against one step, and gains at most interest on interest and m2/(2*RAY) + 1 |
| `RateModel.ExtrapolateOneYear` | internal/liquidation/ratecomputer/model.go:114-124 | a year multiplies the index by exactly RAY + rate |
| `RateComputers.RateComputer.constructor` | internal/liquidation/ratecomputer/model.go:40-44 | starts without pools |
| `RateComputers.RateComputer.SetPool` | internal/liquidation/ratecomputer/model.go:47-51 | stores the pool itself under its market, changes no other |
| `RateComputers.RateComputer.HandleEvent` | internal/liquidation/ratecomputer/model.go:191-224 | accrue at the old rates, apply and clamp the deltas, reprice; one market only, unknown markets ignored |
| `RateComputers.RateComputer.CalibratePool` | internal/liquidation/ratecomputer/model.go:154-188 | the chain's indices and clock replace the pool's and the rates follow; at the chain's time the scanner then reads exactly the chain's indices; one market only |
| `RateComputers.RateComputer.CurrentBorrowIndex` | internal/liquidation/ratecomputer/model.go:127-137 | the pool's borrow index extrapolated at its borrow rate since its last update; nothing for an unknown market |
| `RateComputers.RateComputer.CurrentLiquidityIndex` | internal/liquidation/ratecomputer/model.go:140-150 | the same for the liquidity index at the supply rate |
| `RateComputers.RateComputer.IndicesAt` | internal/liquidation/ratecomputer/model.go:127-150 | the indices the scanner reads are CurrentBorrowIndex and CurrentLiquidityIndex, absent for unknown markets |
| `RateComputers.Pool.AccrueTo` | internal/liquidation/ratecomputer/model.go:200-204 | both indices extrapolated at the rates in force, clock set |
| `RateComputers.Pool.ApplyDeltas` | internal/liquidation/ratecomputer/model.go:206-218 | each total takes its delta, if any, and is clamped at zero |
| `RateComputers.Pool.Recalculate` | internal/liquidation/ratecomputer/model.go:220-223 | both rates follow from the totals |
| `RateComputers.EventFollowsCurve` | internal/liquidation/ratecomputer/model.go:191-224 | after every event of every pool: the borrow rate is that of the curve at the new totals, the supply rate the integer nearest to its utilized share, each total moved by its delta down to zero at most, clock at the event, curve unchanged |
| `RateComputers.CalibrationTakesChain` | internal/liquidation/ratecomputer/model.go:177-185 | for every pool: exactly the indices and the clock given, totals and curve unchanged, rates on the curve |
| `RateComputers.CalibratedYear` | internal/liquidation/ratecomputer/model.go:116-124 | what calibration leads to: the given indices until the chain's time, and a year later those times RAY plus the rates of the curve |
| `RateComputers.CurveEnds` | internal/liquidation/ratecomputer/model.go:220-223 | on the curve: base rate and nothing for suppliers without borrowing; base + slope1 at a positive optimum; the top for both sides when all is borrowed |
| `RateComputers.SteepWitness` | internal/liquidation/ratecomputer/model.go:191-224 | supply 100 and borrow 900 on a steep curve: any event without deltas sets 34% and 30.6% |
| `RateComputers.RepriceKeeps` | internal/liquidation/ratecomputer/model.go:220-223 | utilization within 100%, 0 <= supply rate <= borrow rate <= top of the curve |
| `RateComputers.RatesFollowDemand` | internal/liquidation/ratecomputer/model.go:220-223 | on one curve, more borrowed or less supplied never lowers either rate |
| `RateComputers.EventKeeps` | internal/liquidation/ratecomputer/model.go:191-224 | one event, at any time with any deltas: well-formedness kept, indices not lowered, liquidity index not above the borrow index |
| `RateComputers.RunInvariant` | internal/liquidation/ratecomputer/model.go:191-224 | the same between any two points of any run of events, with utilization within 100%, the clock at the last event and the rates on the curve |
| `RateComputers.SameBlockEventsAdd` | internal/liquidation/ratecomputer/model.go:191-224 | two events of one block are one with summed deltas, if the first is not clamped |
| `RateComputers.ClampedTotals` | internal/liquidation/ratecomputer/model.go:207-218 | after any run a total is s0 + all deltas - min(0, lowest prefix) |
| `RateComputers.NothingClampedIff` | internal/liquidation/ratecomputer/model.go:207-218 | that correction is zero exactly when no prefix is negative |
| `RateComputers.TotalsConservedIff` | internal/liquidation/ratecomputer/model.go:207-218 | so a total is conserved over a run if and only if its unclamped path never goes below zero |
| `RateComputers.EventChargesFor` | internal/liquidation/ratecomputer/model.go:200-204 | each event multiplies both indices by the linear interest of exactly the seconds counted as charged, at the rates in force before it |
| `RateComputers.ChargedTimeIsElapsedIffOrdered` | internal/liquidation/ratecomputer/model.go:200-204 | by the pool's own clock, a run charges for at least the elapsed time, and for exactly it if and only if no event is older than the clock it meets |
| `RateComputers.ChargedTimeIsPaidFor` | internal/liquidation/ratecomputer/model.go:191-224 | over any run the borrow index grows by at least the base rate's share of all seconds charged, short of one rounding of multiplier and index for each event |
| `RateComputers.OverchargedIff` | internal/liquidation/ratecomputer/model.go:116-124 | an index accrued from an earlier time than it was current at is never lower, and is higher if and only if half a unit or more has accrued beyond |
| `RateComputers.RewindOverchargesIff` | internal/liquidation/ratecomputer/model.go:191-224 | an older event and then a later one, with any deltas: both indices against the run without the rewind, with the exact condition for each to be higher, and nothing else differing |
| `RateComputers.OverchargesAtOnceIff` | internal/liquidation/ratecomputer/model.go:116-124 | without time passing that condition is half a unit of interest on the seconds charged twice |
| `RateComputers.RewindWitness` | internal/liquidation/ratecomputer/model.go:191-224 | a pool at 10% that is charged 21% for one year |
| `RateComputers.CalibrationAgreesWithEvent` | internal/liquidation/ratecomputer/model.go:154-224 | calibrating with what was extrapolated is an event that moves nothing |
| `HealthFactors.CalculateHealthFactor` | internal/liquidation/scanner/scanner.go:120-177 | the two loops compute HealthFactor, and no input divides by zero |
| `HealthFactors.AccruedBalanceError` | internal/liquidation/scanner/scanner.go:130-138 | within B/(2*RAY) + 1/2 + 1/(2*10^9) units of principal*current/user |
| `HealthFactors.AccruedBalanceUnmoved` | internal/liquidation/scanner/scanner.go:130-138 | exactly the principal when the index has not moved, for every sign |
| `HealthFactors.AccruedBalanceGrown` | internal/liquidation/scanner/scanner.go:130-138 | an index at k times its value at entry multiplies the principal by exactly k, for every sign |
| `HealthFactors.AccruedAtLeastPrincipal` | internal/liquidation/scanner/scanner.go:155-162 | a grown index never shrinks what is owed |
| `HealthFactors.AccruedBalanceMono` | internal/liquidation/scanner/scanner.go:130-138 | rises with principal and current index |
| `HealthFactors.CollateralTermError` | internal/liquidation/scanner/scanner.go:140-147 | two-sided distance of a collateral's weight to balance*price*threshold/10^decimals |
| `HealthFactors.DebtTermError` | internal/liquidation/scanner/scanner.go:164-168 | two-sided distance of a debt's weight to balance*price/10^decimals |
| `HealthFactors.WholeDollarHealthFactor` | internal/liquidation/scanner/scanner.go:120-177 | whole tokens at one dollar, collateral index grown m times and debt index k times as the provider's maps have them, RAY for an unknown market: the factor is collateral*m*percent/(100*debt*k), nearest, whatever the decimals |
| `HealthFactors.GrownDebtWitness` | internal/liquidation/scanner/scanner.go:120-177 | 150 dollars against 100: 3/2 RAY, 3/4 once the debt's index has doubled, 3/2 again once the collateral's has |
| `HealthFactors.PowerOfTenAdds` | internal/liquidation/scanner/scanner.go:142-142 | the decimals factor turns sums into products, is 10 at 1, and 1 at zero and below |
| `HealthFactorErrors.WeightedCollateralError` | internal/liquidation/scanner/scanner.go:124-148 | two-sided distance of the summed weights to the exact sum over all entries, with accrual by the index in the provider's map, or RAY if it has none |
| `HealthFactorErrors.TotalDebtError` | internal/liquidation/scanner/scanner.go:150-169 | two-sided distance of the summed debt to the exact sum over all entries, with accrual by the index in the provider's map, or RAY if it has none |
| `HealthFactorErrors.HealthFactorError` | internal/liquidation/scanner/scanner.go:120-177 | the whole factor lies between RAY times the least and the greatest quotient that those distances allow, give or take a half |
| `HealthFactors.HealthFactorMono` | internal/liquidation/scanner/scanner.go:120-177 | while debt remains, a position safer entry by entry never has a lower factor, through all nested roundings |
| `HealthFactors.HealthFactorFallsWithTime` | internal/liquidation/scanner/scanner.go:120-177 | with collateral indices fixed and any well-formed pools, the factor never rises with time |
| `HealthFactors.FullRepaymentLowersFactorIff` | internal/liquidation/scanner/scanner.go:171-176 | repaying all debt lowers the reported factor if and only if collateral covered it at least 1000 + 1/(2*RAY) times |
| `HealthFactors.RepaymentWitness` | internal/liquidation/scanner/scanner.go:171-176 | a position of 2000 dollars against one, whose factor repayment halves |
| `HealthFactors.BelowOneRayIff` | internal/liquidation/scanner/scanner.go:176-199 | the rounded factor is below one RAY if and only if the shortfall exceeds debt/(2*RAY) |
| `HealthFactors.LiquidatableMeansUnderwater` | internal/liquidation/scanner/scanner.go:171-199 | below one RAY there is debt and it exceeds the weighted collateral; conversely too while debt < 2*RAY |
| `HealthFactors.TinyShortfallRoundedAway` | internal/liquidation/scanner/scanner.go:176-199 | from 2*RAY of debt on the converse fails, for every debt |
| `HealthFactors.UnknownMarketAccruesNothing` | internal/liquidation/scanner/scanner.go:126-138 | in an unknown market an entry made at one RAY, or at no index, keeps its principal |
| `HeapOrder.OrderIsByValue` | internal/liquidation/scanner/scanner.go:230-238 | of two known factors the lower or equal one may stand above; an unknown one never above a known one |
| `HeapOrder.RootIsMinimum` | internal/liquidation/scanner/scanner.go:211-238 | the root of a heap is no higher than any known factor, and unknown only if all are |
| `HeapOrder.ChangingOneKey` | internal/liquidation/scanner/scanner.go:185-188 | overwriting a key spoils only the links of that key |
| `HeapOrder.SwapUp` | internal/liquidation/scanner/scanner.go:230-244 | one step of sifting up moves the only open link up |
| `HeapOrder.SiftStep` | internal/liquidation/scanner/scanner.go:230-244 | one step of sifting down moves the open links down |
| `PositionHeaps.PositionHeap.Swap` | internal/liquidation/scanner/scanner.go:240-244 | exchanges two elements and keeps every heapIndex true |
| `PositionHeaps.PositionHeap.Append` | internal/liquidation/scanner/scanner.go:246-250 | appends the element with its index |
| `PositionHeaps.PositionHeap.Pop` | internal/liquidation/scanner/scanner.go:252-260 | takes the last element off and unsets its index |
| `PositionHeaps.PositionHeap.Up` | internal/liquidation/scanner/scanner.go:228-244 | restores heap order over the link above one element; same elements, indices true |
| `PositionHeaps.PositionHeap.Down` | internal/liquidation/scanner/scanner.go:228-244 | sinks one element; a heap if it moved, else only the link above it is open |
| `PositionHeaps.PositionHeap.Push` | internal/liquidation/scanner/scanner.go:100-100 | a valid heap of the old elements and the new one |
| `PositionHeaps.PositionHeap.Fix` | internal/liquidation/scanner/scanner.go:94-96 | after any change of one key: a valid heap of the same elements |
| `PositionHeaps.PositionHeap.Remove` | internal/liquidation/scanner/scanner.go:110-112 | a valid heap of the other elements; the one at i is returned, unindexed |
| `Scanners.Scanner.constructor` | internal/liquidation/scanner/scanner.go:76-80 | starts without positions |
| `Scanners.Scanner.SetPosition` | internal/liquidation/scanner/scanner.go:83-102 | map and heap stay in agreement; only the user's entry changes; an existing object keeps its identity, also when it is passed in itself |
| `Scanners.Scanner.RemovePosition` | internal/liquidation/scanner/scanner.go:105-115 | removes exactly that user from map and heap |
| `Scanners.Scanner.RefreshAll` | internal/liquidation/scanner/scanner.go:180-190 | every position gets the health factor of its own collaterals and debts, at indices of its own, and nothing else of it changes; in any map order, the heap repaired after each |
| `Scanners.Scanner.FindLiquidatable` | internal/liquidation/scanner/scanner.go:193-204 | exactly the positions with a known factor below one RAY, each once |
| `Scanners.Scanner.MostDangerous` | internal/liquidation/scanner/scanner.go:207-215 | the factor returned is known and at most every known factor of the map, or no factor is known; null exactly when the map is empty |
| `Scanners.Perform` | internal/liquidation/scanner/scanner.go:83-190 | one operation does to the positions what it does to a plain map |
| `Scanners.Replay` | internal/liquidation/scanner/scanner.go:83-190 | after any run of operations the invariant holds and the positions are those of the same run on a plain map |
| `Detectors.Detector.constructor` | internal/indexer/reorg/detector.go:18-23 | starts with an empty window |
| `Detectors.Detector.RecordBlock` | internal/indexer/reorg/detector.go:26-40 | adds the hash and, over the limit, drops everything at or below number - maxBlocks in uint64 |
| `Detectors.Detector.DetectReorg` | internal/indexer/reorg/detector.go:44-65 | returns what Detect says of the window |
| `Detectors.Detector.Rollback` | internal/indexer/reorg/detector.go:68-77 | keeps exactly the entries below the given number |
| `Detectors.NoFalseAlarm` | internal/indexer/reorg/detector.go:26-65 | headers of one chain, in any order and with repeats, raise no reorganisation, with one exact exception: block 0 meeting block 2^64 - 1 in the window |
| `Detectors.RollbackSettlesIff` | internal/indexer/reorg/detector.go:48-77 | after the rollback the header raises no further alarm if and only if it did not contradict both neighbours |
| `Detectors.NewestKeptIff` | internal/indexer/reorg/detector.go:26-40 | for every window, block and size of any sign: when the subtraction does not wrap, and when the block survives its own recording (both if and only if) |
| `Detectors.SizeKeptIff` | internal/indexer/reorg/detector.go:32-39 | for every window, block and size: the result is within the size if and only if nothing overflows or enough entries lie at or below the horizon; one is enough if the window was within it |
| `Detectors.WindowBoundedIff` | internal/indexer/reorg/detector.go:26-40 | on every stream, in any order: within the size throughout if and only if no block overflows a window that has nothing old enough |
| `Detectors.RecordNewest` | internal/indexer/reorg/detector.go:26-40 | for a block above the window and any size: the block is in if and only if the size has room for it; from size zero on the size is kept and nothing wraps |
| `Detectors.WindowBounded` | internal/indexer/reorg/detector.go:26-40 | on every increasing stream, for any size: the newest block is in if and only if the size has room for it, and a size from zero on is kept |
| `Detectors.NothingDetectedWithoutRoom` | internal/indexer/reorg/detector.go:26-65 | a size of zero, or a negative one that does not wrap: the window stays empty on every stream and nothing is ever detected |
| `Detectors.JumpingBack` | internal/indexer/reorg/detector.go:32-39 | two streams as witnesses: one on which pruning wraps and empties the window, one on which it outgrows its size |
| `Detectors.AlarmIff` | internal/indexer/reorg/detector.go:48-64 | which contradictions raise an alarm: all, unless the block itself is already recorded under its hash |
| `Stores.EventStore.constructor` | internal/indexer/consumer/event_consumer_test.go:20-24 | starts empty |
| `Stores.EventStore.SaveEvent` | internal/indexer/consumer/event_consumer_test.go:26-29 | appends, or fails without effect |
| `Stores.EventStore.SaveBlock` | internal/indexer/consumer/event_consumer_test.go:31-34 | appends, or fails without effect |
| `Stores.EventStore.UpdateSyncStatus` | internal/indexer/consumer/event_consumer_test.go:36-39 | sets the chain's mark, or fails without effect |
| `Stores.EventStore.DeleteEventsFromBlock` | internal/indexer/consumer/event_consumer_test.go:41-50 | filters the chain's events, or fails without effect |
| `Stores.EventStore.DeleteBlocksFromBlock` | internal/indexer/consumer/event_consumer_test.go:52-61 | filters the chain's blocks, or fails without effect |
| `Stores.EventStore.GetSyncStatus` | internal/indexer/consumer/event_consumer_test.go:63-65 | the chain's mark; 0 if there is none or the read fails |
| `Stores.Filtered` | internal/indexer/consumer/event_consumer_test.go:42-48 | the filtering loop computes Without |
| `Stores.WithoutKeeps` | internal/indexer/consumer/event_consumer_test.go:41-61 | deletion keeps exactly other chains and earlier blocks |
| `Stores.OfChainWithout` | internal/indexer/consumer/event_consumer_test.go:41-61 | deleting commutes with looking at one chain, and other chains see no deletion |
| `ChainSteps.EffectOnShares` | internal/indexer/consumer/event_consumer.go:29-53 | a store operation changes its own chain's share as a function of that share, and no other |
| `ChainSteps.EffectLeavesOthers` | internal/indexer/consumer/event_consumer.go:29-53 | a store operation of one chain leaves every other chain's share alone |
| `ChainSteps.EffectIsLocal` | internal/indexer/consumer/event_consumer.go:29-53 | what it does to its own share depends on that share only |
| `ChainSteps.ChainsDoNotInterfere` | internal/indexer/service.go:80-93 | for every interleaving a chain's blocks, events, sync mark and detector are those of running alone |
| `ChainSteps.StepRows` | internal/indexer/service.go:107-161 | which rows exist after one step |
| `ChainSteps.ActKeepsConsistent` | internal/indexer/service.go:107-161 | one operation of any chain, successful or not, keeps the orphan-free invariant |
| `ChainSteps.NoOrphansEver` | internal/indexer/service.go:80-161 | after every operation of every interleaving, with any failures, stopped anywhere, every stored event lies in a stored block |
| `ChainIndexers.EventConsumer.ProcessEvent` | internal/indexer/consumer/event_consumer.go:29-31 | one event saved, or nothing |
| `ChainIndexers.EventConsumer.ProcessBlock` | internal/indexer/consumer/event_consumer.go:34-39 | block first, mark second, stopping at the first failure |
| `ChainIndexers.EventConsumer.HandleReorg` | internal/indexer/consumer/event_consumer.go:42-53 | events, then blocks, then the mark unless the fork is 0, stopping at the first failure |
| `ChainIndexers.SaveLogs` | internal/indexer/service.go:151-161 | exactly the parsed logs whose save succeeds are appended, in order |
| `ChainIndexers.HandleHeader` | internal/indexer/service.go:107-170 | detector and store after one header, for every pattern of failures |
| `ChainIndexers.WindowAfterHeader` | internal/indexer/service.go:119-134 | what the detector knows after one header: unchanged if a reorganisation could not be handled; else nothing at or above the fork but the header itself, and without overflow all the rest |
| `ChainIndexers.HandleHeaders` | internal/indexer/service.go:107-170 | the loop over the channel is the fold of that, with outcomes of its own for each delivery |
| `Listeners.CatchUp` | internal/indexer/listener/block_listener.go:46-59 | contiguous, each header as fetched, up to exactly the first number that the reading does not send |
| `Listeners.TickEndIs` | internal/indexer/listener/block_listener.go:46-59 | that number is the least one that is above the head, cannot be fetched or meets a cancellation |
| `Listeners.Poll` | internal/indexer/listener/block_listener.go:27-64 | start, start + 1, ... without gap or repeat whatever fails; only headers fetched at or below a head read; exactly to where the ticks lead, and cancelled exactly if they say so |
| `Listeners.PolledIff` | internal/indexer/listener/block_listener.go:27-64 | anything is polled if and only if some tick sends the first number before one is cancelled at it |
| `Listeners.LevelWithHead` | internal/indexer/listener/block_listener.go:40-59 | a tick whose calls all succeed brings the poller past the head it reads |
| `Listeners.Subscribe` | internal/indexer/listener/block_listener.go:68-127 | backfill, then the heads that are not nil, then polling from after the head read at first, each part to its last header; only polling if refused |
| `Listeners.HeadsConcat` | internal/indexer/listener/block_listener.go:115-122 | the heads that are handed on are the non-nil ones in their order, each once |
| `Listeners.StreamContiguousIff` | internal/indexer/listener/block_listener.go:68-127 | over the inputs: the stream has no gap and no repeat if and only if the subscription is refused or cancelled in its backfill, or its heads continue where the backfill ends and any polling takes over just where they end |
| `Listeners.FallbackContiguousIff` | internal/indexer/listener/block_listener.go:100-114 | a fallback with heads above the one read at first keeps the stream whole if and only if the backfill was complete and nothing had been pushed |
| `Listeners.FallbackWithoutHeadIff` | internal/indexer/listener/block_listener.go:80-114 | when the head before the backfill could not be read, or was 0, polling takes over at the start: whole if and only if nothing had been pushed |
| `Listeners.SkippingSubscription` | internal/indexer/listener/block_listener.go:80-94 | a subscription that never sends blocks 1 and 2 |
| `Listeners.RepeatingSubscription` | internal/indexer/listener/block_listener.go:100-114 | a subscription that sends block 2 twice |
| `ChainIndexers.RunChain` | internal/indexer/service.go:95-172 | from the number after the stored mark, or from 1 if it cannot be read: a stream of that kind, without gap or repeat if and only if the subscription continues; and the store after all of it |
| `ChainRefinement.HeaderHandledIsSteps` | internal/indexer/service.go:107-170 | the loop body is the protocol's single steps in the protocol's order |
| `ChainTheorems.HeaderKeepsLinked` | internal/indexer/service.go:122-136 | one header with any failing calls keeps stored neighbours linked |
| `ChainTheorems.LinkedWhateverFails` | internal/indexer/service.go:107-136 | on every contiguous stream, with any failing store operations and any reorganisations, stored neighbours of the run are parent and child |
| `ChainTheorems.StoredWhateverFails` | internal/indexer/service.go:107-161 | on every contiguous stream, from any store and with any failing calls: exactly which blocks, events and mark are left, and what the detector knows |
| `ChainTheorems.StoredIff` | internal/indexer/service.go:122-136 | number by number, from any store: there afterwards if and only if an old row was not deleted, or the header got past the handling of any reorganisation, its save succeeded, and the next header did not delete it |
| `ChainRestarts.RowsAfterRun` | internal/indexer/service.go:122-136 | row by row: the chain's blocks are the old ones not deleted and those of the deliveries that stay |
| `ChainRestarts.RestartLinkedIff` | internal/indexer/service.go:95-136 | with any failing calls, wherever the run starts and whatever is stored: linked if and only if the old rows left are and each joins its neighbours among the deliveries that stay |
| `ChainRestarts.ContinuationLinkedIff` | internal/indexer/service.go:95-136 | with nothing stored at or above the start: if and only if the first header, should it stay, accepts what is just below it |
| `ChainRestarts.RestartBreaksLink` | internal/indexer/service.go:95-136 | a restart after which a stored block 2 has another parent than the stored block 1 |
| `ChainRestarts.StoredOnceIff` | internal/indexer/service.go:95-136 | with any failing calls, wherever the run starts: no number is stored twice if and only if no delivery that stays has the number of an old row left |
| `ChainRestarts.ClearAfterIff` | internal/indexer/consumer/event_consumer.go:34-53 | when a run leaves nothing above its mark, so that the next begins clear: if and only if the mark has reached every block that stays, for a run that began clear itself |
| `ChainRestarts.MarkReachesIff` | internal/indexer/consumer/event_consumer.go:34-53 | the mark ends at or above a block that stays if and only if its own update or a later one, or a rewind two or more later, took it there |
| `ChainRestarts.LaggingMark` | internal/indexer/consumer/event_consumer.go:34-39 | a run that stores block 1 and leaves the mark at 0 |
| `ChainRestarts.StoredTwice` | internal/indexer/consumer/event_consumer.go:34-39 | and the next run, which stores block 1 again |
| `ChainRestarts.StartingOver` | internal/indexer/service.go:99-103 | a run from block 1 over everything still stored: what was there, cut at the first reorganisation, and then the surviving deliveries; without a reorganisation each number is stored once if and only if none of those delivered was stored before |
| `ChainRestarts.WithoutRoomNothingIsDeleted` | internal/indexer/service.go:122-136 | with a window of size zero no row is ever deleted, whether stored before the run or at any point of it, on any stream and with any failing calls |
| `ChainTheorems.StoredExactly` | internal/indexer/service.go:107-161 | with a store that does not fail: exactly the blocks whose successor accepted them and the last one, exactly their saved events, and the mark at the last number |
| `ChainTheorems.StoredNumbers` | internal/indexer/service.go:107-136 | the stored numbers are start..sync minus those whose successor names another parent (if and only if) |
| `ChainTheorems.NoHolesIff` | internal/indexer/reorg/detector.go:56-62 | no hole is left if and only if every delivered header accepts its predecessor |
| `ChainRestarts.RunStoresExactly` | internal/indexer/service.go:95-172 | a whole run over a contiguous stream from the stored mark, with a store that does not fail: exact contents, linked, and clear for the next run |
| `ChainRestarts.RunFromMark` | internal/indexer/service.go:95-172 | the same of runChain itself, from whatever mark it finds: numbers mark + 1, mark + 2, ..., those contents, and the mark at the last of them |
| `ChainRefinement.LoopIsRun` | internal/indexer/service.go:95-172 | a whole loop is a run of the multi-chain system |
| `ChainRefinement.LoopInAnyInterleaving` | internal/indexer/service.go:80-93 | in every interleaving with other chains the loop leaves detector and share as AllHandled says |
| `Calldata.BytesRoundTrip` | internal/liquidation/executor/executor.go:100-101 | big-endian bytes read back give the number |
| `Calldata.BytesFitIff` | internal/liquidation/executor/executor.go:100-101 | k bytes suffice if and only if n < 256^k |
| `Calldata.AddressBytes` | internal/liquidation/executor/executor.go:96-98 | 20 bytes that read back as the address |
| `Calldata.Copy` | internal/liquidation/executor/executor.go:95-101 | writes the bytes at their place and nothing else |
| `Calldata.CopyHead` | internal/liquidation/executor/executor.go:95-98 | selector and addresses at their places in the zeroed buffer |
| `Calldata.CopyTail` | internal/liquidation/executor/executor.go:100-105 | amount and boolean at theirs, whatever the buffer holds |
| `Calldata.BuildLiquidationCalldata` | internal/liquidation/executor/executor.go:90-108 | the filled buffer is Layout of the arguments |
| `Calldata.LayoutInWords` | internal/liquidation/executor/executor.go:94-105 | for a uint256 amount: selector, then each argument right-aligned in a 32-byte word |
| `Calldata.ArgumentsInPlace` | internal/liquidation/executor/executor.go:90-109 | bytes 0-3 are the selector, and 4-35, 36-67, 68-99, 100-131 and 132-163 read as collateral, debt, borrower, amount and boolean |
| `Calldata.CalldataRoundTrip` | internal/liquidation/executor/executor.go:90-108 | strict ABI decoding returns all five arguments if and only if 0 <= amount < 2^256 |
| `Calldata.CalldataInjective` | internal/liquidation/executor/executor.go:90-108 | different arguments give different calldata |
| `Executors.Executor.constructor` | internal/liquidation/executor/executor.go:79-87 | no nonce known, nothing pending |
| `Executors.Executor.NextNonce` | internal/liquidation/executor/executor.go:224-241 | the counter if known, else the chain's answer; an error changes nothing |
| `Executors.Executor.Execute` | internal/liquidation/executor/executor.go:136-185 | state and transaction sent for every pattern of failures; the record returned is the pending one |
| `Executors.Executor.MarkConfirmed` | internal/liquidation/executor/executor.go:188-198 | status, gas and profit of that transaction; no other changes |
| `Executors.Executor.MarkFailed` | internal/liquidation/executor/executor.go:201-208 | status of that transaction only; unknown hashes ignored |
| `Executors.MarkingSettles` | internal/liquidation/executor/executor.go:188-208 | a mark sets exactly that transaction, if it is recorded, to exactly that status |
| `Executors.Executor.PendingCount` | internal/liquidation/executor/executor.go:211-222 | the number of hashes whose status is pending |
| `Executors.SentAsRequested` | internal/liquidation/executor/executor.go:136-161 | what is sent decodes to the requested liquidation, carries the nonce just taken and the configured gas limit, and pays the lower of suggestion and cap; something is sent when every call succeeds, nothing otherwise |
| `Executors.NextKeepsOrder` | internal/liquidation/executor/executor.go:224-241 | any step of any call keeps the order of nonces |
| `Executors.NoncesEver` | internal/liquidation/executor/executor.go:136-241 | over every interleaving, with any failures, nonces are first, first + 1, ..., one to a call, none skipped |
| `Executors.UnusedNoncesAreFailedCalls` | internal/liquidation/executor/executor.go:147-161 | once calls have finished, a nonce went unused if and only if the call that took it failed afterwards |
| `Executors.NoncesMakeHashesDistinct` | internal/liquidation/executor/executor.go:147-164 | as a signed hash names its nonce and nonces differ, no two calls have the same hash |
| `Executors.NextKeepsMatched` | internal/liquidation/executor/executor.go:174-208 | any step keeps nonces in order, hashes naming them, and recorded calls and pending map in one-to-one agreement |
| `Executors.MatchedEver` | internal/liquidation/executor/executor.go:136-208 | all of that holds after every interleaving |
| `Executors.PendingIsConserved` | internal/liquidation/executor/executor.go:136-222 | over every interleaving: pending + in flight = submitted and unmarked + marks lost; and the pending transactions are exactly the submitted and unmarked ones if and only if none is in flight and no mark is lost |
| `Executors.ExecuteIsSteps` | internal/liquidation/executor/executor.go:136-185 | Execute run by itself is one such sequence of steps |
| `Executors.EarlyMarkIsLost` | internal/liquidation/executor/executor.go:159-208 | over every run, from its record on a transaction is pending if and only if no mark has arrived since, whatever marks came before |
| `Executors.EarlyMarkWitness` | internal/liquidation/executor/executor.go:159-208 | a run whose confirmation overtakes the record |
| `LiquidationServices.ExecuteOne` | internal/liquidation/service.go:92-111 | one call with first collateral, first debt and half of its principal |
| `LiquidationServices.ExecuteAll` | internal/liquidation/service.go:83-117 | one call for each actionable candidate before the first at which the context is cancelled; failures do not stop it |
| `LiquidationServices.PlannedExactly` | internal/liquidation/service.go:83-111 | exactly the candidates with a debt and a collateral are called for, none twice |
| `LiquidationServices.RefreshAndFind` | internal/liquidation/service.go:72-79 | the candidates are exactly the positions whose factor, at the indices each was refreshed at, is below one |
| `LiquidationServices.PlannedAreTargets` | internal/liquidation/service.go:72-117 | calls are made for targets only, each once, and for all if none is left unlooked at |
| `LiquidationServices.ScanAt` | internal/liquidation/service.go:72-117 | with indices that may move from one position's refresh to the next: Execute is called exactly for the users with debts, collaterals and recomputed factor below one, each once, unless cancelled |
| `LiquidationServices.Scan` | internal/liquidation/service.go:69-118 | the same when no event arrives during the refresh |
| `LiquidationServices.TargetIff` | internal/liquidation/service.go:72-90 | with non-negative inputs: collateral and a shortfall beyond debt/(2*RAY); exactly underwater while debt < 2*RAY |
| `LiquidationServices.BareDebtIsSkipped` | internal/liquidation/service.go:88-90 | debt without collateral has factor zero and is never acted on |
| `LiquidationServices.SentForTarget` | internal/liquidation/service.go:92-111 | what reaches the pool for a target decodes to its first collateral, first debt, the user, and half of the principal |
| `LiquidationServices.CloseFactorKept` | internal/liquidation/service.go:96-97 | twice the requested amount never exceeds what the user owes with interest |
| `LiquidationRounds.CallsPending` | internal/liquidation/service.go:83-117 | after a scan exactly those transactions are pending that were before or that it has submitted |
| `LiquidationRounds.MarkEach` | internal/liquidation/executor/executor.go:188-208 | a sequence of marks, one after the other |
| `LiquidationRounds.HashesDiffer` | internal/liquidation/executor/executor.go:147-175 | no transaction of a second scan has the hash of one of the first |
| `LiquidationRounds.DoubleLiquidationIff` | internal/liquidation/service.go:83-111 | over two scans of unchanged positions: a user is called for twice if and only if a target at both readings, and has two pending transactions if and only if both calls went out and the first was not marked in between |

## Left out

- ScanAt: entries of one market within one position see the same index, and positions do not change between listing and execution; the source locks for each read of an index and not at all while it executes.
- CalibratePool: the returned deviation is a float and is not modelled.
- CompoundedInterestSandwich: the bound by whole units is stated for rates up to 800% and times up to a year; CompoundedInterestAgainstPower has the bound for all.
- ChargedTimeIsPaidFor: stated for pools that do not charge less than the base rate at the start, as every repriced pool does not.
- UnusedNoncesAreFailedCalls: stated for up to 2^64 nonces; then the counter comes round. So are NextKeepsMatched, MatchedEver, PendingIsConserved, EarlyMarkIsLost and DoubleLiquidationIff.
- MatchedEver: signing and hashing are not modelled; a signed hash is taken to determine the nonce it was signed with, as for DoubleLiquidationIff.
- StoredWhateverFails: stated for contiguous streams and a window with room; WithoutRoomNothingIsDeleted has the other case, and NoOrphansEver holds for any stream.
- Poll: the node answers a request for block n with block n, and heads stay below 2^64 - 1; the 64-slot buffer and the ticker's timing play no part.
- Subscribe: as for Poll; which of a head, an error and a cancellation is served first shows only in how many heads there are before the end.
- NoOrphansEver: assumes that the node returns only logs of the requested block, as StoredWhateverFails does for events.
- Execute: amounts of more than 132 bytes, on which the source panics, are excluded; so are they from Scan.
- IndicesAt: `time.Time` becomes an integer of seconds, without the 64-bit overflow of a difference of timestamps.
- The EVM client, Kafka publishing, logging, Postgres and Redis: the store has the in-memory semantics of the consumer's tests, with each operation succeeding or failing without effect.
- nil balances, prices or thresholds: only the nil values the code checks for are modelled.
- Callers that mutate a pool or a position they share with the engine, and data races on them: each locked method is one step.
- `WadMul`, `WadDiv`: the formulas of `RayMul` and `RayDiv` with another constant.
- `EstimateProfit`, liquidation bonus, `TxDropped`, retries, submission times, `GetPool`, `PositionCount`, `ChainID` of a position: unused by what is modelled, or easy.
- Log parsing: a log is either rejected or an event; Keccak selectors are arbitrary four bytes.
- HTTP and WebSocket servers, authentication, price and market services, the risk engine, configuration: thin wrappers, floats or map bookkeeping.
