# Byreal CLMM Titan integration: a verified model

This project models, in Dafny, the parts of the Byreal/Titan integration whose
correctness is not visible in any one function, and proves what they promise.

* **Exact-in swap simulator.** `TickGrid`, `TickArrays`, `ArrayBitmaps` and
  `Navigator` model tick lookup: the scan inside one tick array, the alternating
  search of the default bitmap and its extension, and the cursor that walks from
  array to array. `SwapRun` gives the swap loop as a transition system over the
  plain nearest-tick search and proves what every run keeps. `SwapSimulator` is
  the loop as it runs, on top of the navigator, and refines that system.
  `SwapMonotone` compares two runs.
* **Quoting.** `CurvePrice` models core quoting and the dynamic-fee price over
  exact reals and `QuoteDecision` decides the public quote case by case; `Bounds`
  models the boundary search; `Venue` the adapter with its cached
  bounds; `TickArrayCollector` the choice of arrays a swap carries and
  `SnapshotHorizon` how far those arrays carry a run. `VenueBounds` joins swap
  loop, quote and search for pools with a constant fee, on any snapshot.
* **Route program.** `RouteLedger` holds token balances, `RouteSpec` the phases of
  `swap_route_v3`, `RouteExecutor` the instruction as it runs (loops, packed
  bitmap, dense balance vector), `ReserveBitmap` the bitmap, `WeightedSplit` the
  weight arithmetic, `RouteSafety` what a route guarantees, `RouteProgress` when one
  succeeds.
* **Wire format.** `Wire` is the Borsh encoding of the instruction, `RouteLegs` the
  assembly of legs off chain against the slicing of accounts on chain.
* **Account cache.** `AccountCache` for one caller, `CacheInterleaving` for many,
  `CacheAgreement` for the schedules under which their reads agree; `CacheSemantics`
  ties the interleaved cache to the sequential one.

`dafny verify dfyconfig.toml` checks everything.

## Conventions and trusted contracts

Machine integers are unbounded numbers with the width written out where the code
checks, saturates, wraps or casts. Function-valued record fields stand for code
outside the repository and for the outside world; a predicate next to each states
all that is trusted of it.

* `SwapRun.TickMathOk`, `SwapStepOk`, `TickAtOk`: tick prices are strictly
  increasing on the tick range; a step stays between price and target and misses
  the target only by using up its input; `get_tick_at_sqrt_price` rounds down;
  `add_delta` is exact when it succeeds. `SwapMonotone.StepMonotone`: with more
  input a step repeats a reached target or pays at least as much.
* `ArrayBitmaps.Sound`: a check of one array start that answers does so truthfully; a
  single-window search reports the nearest flag of its own window, or advances past
  it. `SearchesExist` shows the contract can be met for every placement of flags.
  `TickArrayCollector.WalkOk`: the pool state's own walk starts at the first flagged
  array from the current one on and goes on to the next.
* `TickArrays.Agrees`: a loaded array shows the ticks that are on chain. For the
  dynamic layout, whose header functions belong to the CLMM crate, this includes
  what those functions answer.
* `SwapSimulator.Consistent`: the pool's price lies between the prices of its tick
  and the next one, as the on-chain program leaves it.
* `VenueBounds.SnapshotPool`: quoting simulates at one fee rate on whatever arrays are
  loaded, and the arithmetic of runs over the loaded part of the pool does not fail
  on any `u64` amount. `ConstantFeePool` says the same of a pool given by its ticks.
* `RouteSpec.World`: whether token programs accept an operation, and the entire
  effect of a venue CPI, are arbitrary. `RouteSafety.HonestVenues` and
  `ExactOnInput` are extra hypotheses of the theorems that name them. A transfer
  must be signed by the source account's authority, and the user is not TitanPDA.

## Where code and documentation differ

* `src/trading_venue/bounds.rs:194-206` promises the maximal valid range. The binary
  searches stop on a grid of multiples of 64 (powers of two below that, multiples
  shifted by one or two atoms above 2^63), so the lower end may be up to 63 and the
  upper up to 65 atoms inside. The search reports the maximal range if and only if
  the valid amounts are an interval with both ends on the grid and a power of two
  up to 2^63 inside (`MaximalRangeIff`; `LowerEndCanOvershoot` is an instance off
  the grid).
* `src/trading_venue/bounds.rs:204-206` documents `NoQuotableValue` for pools that
  quote nowhere. It is returned exactly when no power of two is quotable
  (`FindBoundaries`), also where other amounts are (`QuotableValueCanBeMissed`). The
  documented `BoundarySearchFailed` outcome never occurs.
* `src/trading_venue/mod.rs:257-266` asks every price to lie between the chords
  around it. Given a positive constant-fee price and samples on both sides, the
  reported price does so if and only if output strictly grew into the amount and the
  samples are concave (`PriceBracketIff`; from the cached bound on there is only the
  sample below, `PriceBelowIff`). `PriceCanExceedBackward` is an instance with convex samples,
  `FlatPriceExceedsBackward` one with flat output. Prices that are not sampled, for
  want of a dynamic fee or of a tenth of a token, are the constant-fee price.
* `src/account_caching/rpc_cache.rs:39` says missing accounts are cached. That
  holds for batches only; a single lookup of a missing account fails and caches
  nothing (`GetAccount`).
* Reads of one key agree between resets for a single caller, but not for many. The
  schedules under which they are guaranteed to stay in agreement are exactly those in
  which no client misses a key while another client's miss of it is in flight
  (`GuardedIffAgreeing`; `RacingReadsDisagree` is an instance of a race).
* After the last, non-crossing step of a downward run the simulated liquidity can
  differ from the sum at the reported tick (`FinalStepLiquidity` and
  `ExecutionEndsOnSum` give the exact case, `FinalLiquidityCanBeOff` an instance).
  The loop never reads it again.

## Model

| member | source | states |
|---|---|---|
| TickGrid.ArrayStartBounds | src/byreal_clmm/core.rs:99 | array start indices are floor alignment to a whole tick array |
| TickGrid.NextTickCharacterized | src/byreal_clmm/core.rs:679-684 | the plain search has an answer exactly when an initialized tick lies ahead, and the nearest one is unique |
| TickArrays.NextInitializedTick | src/byreal_clmm/core.rs:106-137 | the scan returns the nearest initialized tick ahead within the array, and none only when the array has none ahead |
| TickArrays.FirstInitializedTick | src/byreal_clmm/core.rs:139-156 | the array's first initialized tick in swap direction, or none exactly for an empty array |
| TickArrays.LiquidityNetIsTruth | src/byreal_clmm/core.rs:158-160 | the net read from a loaded array for an initialized tick is the one on chain |
| TickArrays.AlignedIsOnGrid | src/byreal_clmm/core.rs:98-104 | every tick aligned to the spacing occupies a slot of its array |
| ArrayBitmaps.NextInitializedArrayStart | src/byreal_clmm/core.rs:502-542 | alternating the two bitmaps terminates and returns the nearest flagged array strictly beyond the start over all windows, or none only when none remains; without the extension it fails exactly when the default window has nothing to offer from there, with it only when an extension search fails |
| ArrayBitmaps.DefaultHit | src/byreal_clmm/core.rs:511-519 | a hit in the default window is nearer than every extension flag |
| ArrayBitmaps.DefaultMiss | src/byreal_clmm/core.rs:520-530 | a miss sweeps the window and leaves a start whose neighbour lies outside it, so the extension search applies |
| ArrayBitmaps.LeftTickRange | src/byreal_clmm/core.rs:536-540 | leaving the tick range means every flagged array has been passed |
| ArrayBitmaps.SearchesExist | src/byreal_clmm/core.rs:511-530 | for every placement of flags, window and tick range, some checks and single-window searches meet the trusted contract |
| Navigator.InitTickNav | src/byreal_clmm/core.rs:468-500 | the initial cursor is linked to the pool's tick; insufficient liquidity is reported only when no tick lies ahead; a bitmap error is reported exactly when the check of the current array or the search from it does not answer |
| Navigator.FindNextInitializedTick | src/byreal_clmm/core.rs:679-720 | given a linked cursor the answer is the pool's nearest initialized tick over all arrays; insufficient liquidity only when none is left; every flagged array from the cursor to where it ends up was loaded and searched past; a data error names the array or search it is stuck at, with every tick ahead past that point; none with complete data |
| Navigator.AdvanceKeepsLink | src/byreal_clmm/core.rs:704-718 | moving an exhausted cursor to the next flagged array keeps it linked, and that array's first tick is the pool's nearest |
| Navigator.CrossingKeepsLink | src/byreal_clmm/core.rs:1057 | after crossing a tick the cursor on its array is linked to the new current tick, also when that tick fell into the neighbouring array |
| Navigator.StuckMeansUnreachable | src/byreal_clmm/core.rs:686-718 | no tick ahead of a stuck navigator can be reached from where the swap started |
| Navigator.CompleteIsOpen | src/byreal_clmm/core.rs:679-720 | a snapshot with every flagged array and the extension obstructs no swap |
| SwapRun.IterationMoves | src/byreal_clmm/core.rs:1003-1061 | an iteration moves the price only in swap direction and not past the limit, and either crosses a tick or is the last |
| SwapRun.CrossingKeepsInvariant | src/byreal_clmm/core.rs:1048-1057 | a crossing restores price bracketing and the liquidity sum and uses up exactly the crossed tick |
| SwapRun.RunKeepsInvariant | src/byreal_clmm/core.rs:984-1065 | over every run: at each continuing loop head and after each crossing, liquidity is the net sum at the tick and the price is bracketed; all iterations but the last cross; iterations are at most one plus the ticks ahead; price never passes the limit |
| SwapRun.RunMovesOneWay | src/byreal_clmm/core.rs:1002-1062 | between any two moments of a run the price moved only in swap direction |
| SwapRun.IterationProgress | src/byreal_clmm/core.rs:1002-1062 | every iteration lowers the number of ticks ahead or ends the loop |
| SwapRun.IterationIff | src/byreal_clmm/core.rs:1003-1061 | an iteration succeeds into a state exactly when the step function, asked with the run's own price, liquidity, remaining input and fee rate and the nearest tick's price stopped at the limit, answers the move into that state, in checked `u64`, and tick and liquidity follow from whether the tick was reached |
| SwapRun.IterationShortIff | src/byreal_clmm/core.rs:1003 | want of ticks is reported exactly when no initialized tick lies ahead |
| SwapRun.TraceStep | src/byreal_clmm/core.rs:1015-1061 | what each step of a run asked, and that price, amounts, liquidity and tick of the next state come from the answer |
| SwapRun.FinalStepLiquidity | src/byreal_clmm/core.rs:1058-1061 | after a non-crossing step the price is bracketed, and the liquidity sum still matches if and only if the step, judged from the state before it, does not leave the price on an initialized tick just above |
| SwapRun.TraceEndsOnSum | src/byreal_clmm/core.rs:984-1065 | a run ends with liquidity equal to its net sum if and only if its last loop head does not take such a step |
| SwapRun.ExecutionEndsOnSum | src/byreal_clmm/core.rs:984-1065 | the same for the state the loop returns |
| SwapRun.FinalLiquidityCanBeOff | src/byreal_clmm/core.rs:1058-1061 | a concrete run whose final liquidity is off its sum |
| SwapRun.ExecutionTrace | src/byreal_clmm/core.rs:1002-1064 | a successful execution is a complete trace of loop heads ending where the guard fails |
| SwapRun.TraceConserves | src/byreal_clmm/core.rs:1027-1046 | with nothing assumed of the step function: spent plus remaining input is constant, fees and output are the sums over steps, fees are at most the input spent, totals stay in `u64` |
| SwapSimulator.LoadedNetIsTruth | src/byreal_clmm/core.rs:722-728 | the net looked up for a crossed tick is the one on chain |
| SwapSimulator.IterationRefines | src/byreal_clmm/core.rs:1003-1061 | one iteration with navigator and loaded arrays is one iteration of the plain run and keeps the cursor linked |
| SwapSimulator.CourseContinues | src/byreal_clmm/core.rs:1003-1061 | an iteration keeps the navigator linked, the passed arrays passed, and both the run over the pool and the run over its loaded part on course |
| SwapSimulator.CourseStuck | src/byreal_clmm/core.rs:1003-1010 | where the navigator is stuck the loaded part of the pool is used up |
| SwapSimulator.SimulateSwapSteps | src/byreal_clmm/core.rs:984-1065 | on any snapshot: the simulator returns what the plain run returns over the pool and over its loaded part; it reports missing data if and only if the loaded part runs out of ticks at an obstruction, and then names the obstruction; before a run with nothing to do it may report early; it never lacks the net of a crossed tick |
| SwapSimulator.SimulatedRun | src/byreal_clmm/core.rs:992-1002 | a successful simulation is a run from the pool's own price, tick and liquidity with the whole amount to spend, up to the first state with nothing left or at the limit |
| SwapSimulator.SwapAccounting | src/byreal_clmm/core.rs:861-869 | for any step function, over a complete run: consumed plus unspent is the request, fees are within the consumed amount, output is the sum over steps, input is left exactly when the run stopped at the limit |
| SwapSimulator.ComputeSwap | src/byreal_clmm/core.rs:839-870 | the summary is the accounting of the plain run at the rate resolved for the amount; every answer summarizes a run that refines the plain one on this snapshot; with complete data every failure is the plain run's |
| SwapMonotone.IterationsCompare | src/byreal_clmm/core.rs:1015-1057 | with more input an iteration crosses whenever the smaller one does, to the same state, and never yields less |
| SwapMonotone.MonotoneOutput | src/byreal_clmm/core.rs:1002-1064 | for a fixed fee rate the larger run repeats every crossing of the smaller one and yields at least as much |
| SwapMonotone.MonotoneSwap | src/byreal_clmm/core.rs:1002-1064 | the same for two amounts swapped out of one pool |
| SwapMonotone.LargerStopsShort | src/byreal_clmm/core.rs:1002-1064 | once an amount stops short, at the limit or for want of ticks, every larger amount does |
| VenueBounds.ValidMeansFullySpent | src/trading_venue/bounds.rs:31-38 | on a constant-fee pool, complete or not, an amount quotes validly exactly when its run spends it all and pays something |
| VenueBounds.QuotableIsConvex | src/trading_venue/bounds.rs:194-203 | on a constant-fee pool everything between two quotable amounts is quotable |
| VenueBounds.CachedBoundsAreAccurate | src/byreal_clmm/mod.rs:174-202 | after a successful update of a constant-fee pool the quotable amounts are an interval and its ends decide the cached bounds, at most 63 and 65 atoms inside |
| VenueBounds.PublicQuoteIsMonotone | src/trading_venue/mod.rs:250-251 | between the cached bounds of a constant-fee pool every public quote is valid and a larger amount never returns less |
| VenueBounds.PublicQuoteAsSearched | src/byreal_clmm/mod.rs:298-324 | on a constant-fee pool every valid amount quotes in public with the amounts the search saw |
| VenueBounds.SnapshotFillsAlike | src/byreal_clmm/core.rs:839-870 | on any snapshot the simulator fills exactly the amounts that the part of the pool before the first missing array fills |
| VenueBounds.SnapshotBoundsAreAccurate | src/byreal_clmm/mod.rs:174-202 | with whatever arrays are loaded: the quotable amounts are exactly those the loaded part of the pool fills, they form an interval, and its ends decide the cached bounds |
| VenueBounds.SnapshotQuoteIsMonotone | src/trading_venue/mod.rs:250-251 | the same monotone quotes with whatever arrays are loaded |
| TickArrayCollector.WalkIsConsecutive | src/byreal_clmm/core.rs:612-629 | the walk lists flagged arrays in swap order without a gap and stops early only at its end |
| TickArrayCollector.GetSwapTickArrays | src/byreal_clmm/core.rs:609-647 | one to six arrays: the consecutive flagged ones from the first the walk finds, otherwise the current one and five fixed offsets in swap direction, kept within 32 bits |
| TickArrayCollector.GetAllTickArrays | src/byreal_clmm/core.rs:560-593 | exactly the arrays of both walks, so every array a swap in either direction may list after a walk; exactly the current array and the five below it, kept within 32 bits, when no walk can start |
| TickArrayCollector.LiveDirectional | src/byreal_clmm/core.rs:649-670 | exactly the loaded arrays, in order; succeeds exactly when the first array is loaded |
| TickArrayCollector.LiveIsInOrder | src/byreal_clmm/core.rs:653-663 | what is kept is what stands at an increasing list of positions, those of the loaded arrays |
| TickArrayCollector.MissingOnlyPastHorizon | src/byreal_clmm/core.rs:609-631 | with the walked arrays loaded, a flagged array that is missing lies beyond all of them |
| SnapshotHorizon.MissingReportIsPastHorizon | src/byreal_clmm/core.rs:560-631 | with the walked arrays loaded, the simulator reports an array missing only beyond all of them, only when it is the first one missing, and only for amounts that use up every tick before it |
| SnapshotHorizon.ListedTicksAreNear | src/byreal_clmm/core.rs:609-631 | every tick of the walked and loaded arrays can be reached |
| SnapshotHorizon.UpdateLoadsAhead | src/byreal_clmm/core.rs:560-593 | the arrays an update walks form such a list once loaded |
| CurvePrice.PriceStep | src/byreal_clmm/core.rs:898-906 | the step is positive and at most the amount, so the neighbour below never underflows |
| QuoteDecision.PriceStepExact | src/byreal_clmm/core.rs:889-906 | a price is sampled from a tenth of an input token on, with at most 19 decimals, at the larger of that and a thousandth of the amount |
| QuoteDecision.PriceDecided | src/byreal_clmm/core.rs:908-961 | the price itself in every branch: the constant-fee price, capped at the backward chord, or clamped between the chords |
| CurvePrice.NeighboursInRange | src/byreal_clmm/core.rs:926-945 | both neighbour amounts stay in range and the upper one within the bound |
| CurvePrice.PriceIsPositive | src/byreal_clmm/core.rs:908-961 | a positive constant-fee price gives a positive reported price |
| CurvePrice.PriceBracket | src/byreal_clmm/core.rs:944-960 | with both chords used the price is at least the forward chord, and at most the backward one if and only if forward is at most backward |
| CurvePrice.PriceBelowIff | src/byreal_clmm/core.rs:921-960 | every sampled price is at most the chord from the sample below if and only if output grew from there and no steeper forward chord was used |
| CurvePrice.PriceAboveIff | src/byreal_clmm/core.rs:921-960 | every sampled price is at least the chord to the sample above if and only if output grew from the sample below or the constant-fee price is at least that chord |
| CurvePrice.PriceBracketIff | src/trading_venue/mod.rs:257-266 | a sampled price lies between the two chords around it if and only if output strictly grew into the amount and the three samples are concave |
| CurvePrice.PriceCanExceedBackward | src/byreal_clmm/core.rs:944-960 | a concrete pool and amount, quoting trusted runs, whose reported price exceeds the backward chord: the samples are convex |
| CurvePrice.FlatPriceExceedsBackward | src/byreal_clmm/core.rs:928-930 | another one where output is flat, so both chords are zero and the constant-fee price is reported |
| CurvePrice.CurveCoreRuns | src/byreal_clmm/core.rs:839-870 | what these pools quote is the summary of a run in a trusted context, for every amount |
| CurvePrice.QuoteReportsShortfall | src/byreal_clmm/core.rs:1384-1389 | for any step function: a quote over a complete run flags insufficient liquidity exactly when the run stopped at the limit with input left, and reports the consumed amount and the summed output |
| QuoteDecision.QuoteRefused | src/byreal_clmm/mod.rs:298-312 | when a public quote is refused and with which error, in the order of the checks |
| QuoteDecision.ZeroQuote | src/byreal_clmm/core.rs:1322-1339 | nothing in gives nothing out at the spot price |
| QuoteDecision.FailedQuote | src/byreal_clmm/core.rs:1341-1364 | what each failure of the swap is reported as |
| QuoteDecision.QuotedSwap | src/byreal_clmm/mod.rs:298-324 | a public quote is exactly the amounts of its swap, the shortfall, and the price decided from the sampled swaps under the cached upper end of its direction |
| CurvePrice.BoundKeepsAmounts | src/byreal_clmm/core.rs:1281-1390 | the price bound never changes quoted amounts |
| CurvePrice.BoundIsInert | src/byreal_clmm/core.rs:917-942 | the price bound has no effect at or above itself, nor without dynamic fees |
| Bounds.FindFirstValid | src/trading_venue/bounds.rs:69-89 | finds the first quotable power of two, or saturates exactly when there is none up to 2^63 |
| Bounds.FindFirstInvalid | src/trading_venue/bounds.rs:91-112 | brackets the upper end between neighbouring powers of two, or the last one and the saturated top; says which top was probed |
| Bounds.FindBoundariesCoarse | src/trading_venue/bounds.rs:66-115 | the four coarse bounds bracket both ends, within 65 probes |
| Bounds.RefineLower | src/trading_venue/bounds.rs:132-154 | a valid amount within 100 atoms of an invalid one or the start, no underflow, at most 57 probes; a dyadic bracket is narrowed to one cell of 64 |
| Bounds.RefineUpper | src/trading_venue/bounds.rs:170-192 | a valid amount within 100 atoms of an invalid one or the end, no underflow, at most 57 probes; a dyadic bracket is narrowed to one cell of 64, the saturated bracket to one drifted cell |
| Bounds.ProbeHalves | src/trading_venue/bounds.rs:138-151 | a probe strictly narrows a wide interval to half plus at most one atom |
| Bounds.CellHalves | src/trading_venue/bounds.rs:138-151 | the probed amount splits a dyadic cell into two |
| Bounds.DriftCellHalves | src/trading_venue/bounds.rs:176-189 | the probed amount splits a cell of the saturated bracket into two, with the drift of its middle |
| Bounds.FindBoundaries | src/trading_venue/bounds.rs:207-230 | for any oracle: fails exactly when no power of two is quotable, always as NoQuotableValue, otherwise returns quotable ends in order, within 179 probes, and a first valid power up to 128 as it is; for an interval oracle both ends are given outright as grid points; the range reported is the maximal one exactly under the condition of `MaximalRangeIff` |
| Bounds.LowerEndExact | src/trading_venue/bounds.rs:194-203 | the lower end is at most 63 atoms inside and exact if and only if the true end is a power of two up to 64 or a multiple of 64 |
| Bounds.UpperEndExact | src/trading_venue/bounds.rs:194-203 | the upper end is at most 65 atoms inside and exact if and only if the true end is a grid point |
| Bounds.MaximalRangeIff | src/trading_venue/bounds.rs:194-203 | the outcome of the search is the maximal valid range, as documented, if and only if the oracle accepts an interval with both ends on the grid and a power of two up to 2^63 inside |
| Bounds.EndsAreClose | src/trading_venue/bounds.rs:226-229 | for an interval oracle the lower end is at most 63 and the upper at most 65 atoms inside, also when saturated at `u64::MAX` without being probed |
| Bounds.ConvexIsInterval | src/trading_venue/bounds.rs:194-203 | an oracle that accepts whatever lies between two accepted amounts accepts an interval |
| Bounds.LowerEndCanOvershoot | src/trading_venue/bounds.rs:194-203 | a concrete oracle for which amounts below the reported lower end are valid |
| Bounds.QuotableValueCanBeMissed | src/trading_venue/bounds.rs:204-206 | a concrete oracle that quotes one amount, both ends on the grid, for which the search reports that nothing is quotable |
| Bounds.IntervalHasValidPower | src/trading_venue/bounds.rs:69-89 | an interval oracle has no quotable power of two exactly when its interval holds none |
| Venue.ByrealClmmVenue.RefreshBoundsCache | src/byreal_clmm/mod.rs:174-202 | both directions are replaced together by quotable ends, or neither |
| Venue.ByrealClmmVenue.UpdateState | src/byreal_clmm/mod.rs:273-296 | an update succeeds exactly when everything loads and both directions have a quotable power of two; over any succeeding or failing update an initialized venue has both bounds; a failure keeps flag and bounds and leaves the core where loading stopped; after a success the cached upper ends quote publicly with the amounts the search saw, and the lower ends too without dynamic fees |
| Venue.ByrealClmmVenue.SearchedEndsQuote | src/byreal_clmm/mod.rs:298-324 | a searched end quotes validly through the public quote |
| Venue.ByrealClmmVenue.InitializedAnswers | src/byreal_clmm/mod.rs:326-344 | an initialized venue answers bounds in both directions, with the pair that shapes its quotes |
| QuoteDecision.BoundsDecided | src/byreal_clmm/mod.rs:326-344 | bounds answers with the cached pair of its direction, and refuses every other token pair, by range first |
| ReserveBitmap.TitanPdaBitmap.Set | program/programs/byreal-titan-venue-program/src/instructions/swap_route_v3.rs:684-688 | setting the shifted bit in its 64-bit word adds exactly the index, or nothing from 256 on |
| ReserveBitmap.TitanPdaBitmap.IsSet | program/programs/byreal-titan-venue-program/src/instructions/swap_route_v3.rs:690-692 | answers membership in the set of indices added |
| ReserveBitmap.MarkSetsOne | program/programs/byreal-titan-venue-program/src/instructions/swap_route_v3.rs:684-692 | or-ing one shifted bit into a word marks that position and no other |
| RouteExecutor.RankIsPosition | program/programs/byreal-titan-venue-program/src/instructions/swap_route_v3.rs:322-332 | an account's rank among the flagged ones is its position in the dense balance vector |
| RouteExecutor.TakeSnapshot | program/programs/byreal-titan-venue-program/src/instructions/swap_route_v3.rs:131-148 | bitmap, dense vector and reserves are the TitanPDA accounts and balances at the snapshot; fails exactly when a mint account is not TitanPDA's |
| RouteExecutor.CheckReserves | program/programs/byreal-titan-venue-program/src/instructions/swap_route_v3.rs:322-332 | the compressed check accepts exactly when every TitanPDA account below index 256 kept its snapshot balance |
| RouteExecutor.CreateMissingAtas | program/programs/byreal-titan-venue-program/src/instructions/swap_route_v3.rs:101-129 | creates the missing accounts in order and records them, as `CreationIsExact` characterizes them |
| RouteExecutor.RunAllLegs | program/programs/byreal-titan-venue-program/src/instructions/swap_route_v3.rs:207-251 | the leg loop with its moving index runs each leg on its own slice of the accounts, where `LegsContinue` says it starts |
| RouteExecutor.CloseEmptyAtas | program/programs/byreal-titan-venue-program/src/instructions/swap_route_v3.rs:290-320 | closes the created accounts that are empty, as `ClosingRemovesEmptied` characterizes them |
| RouteExecutor.ExecuteRoute | program/programs/byreal-titan-venue-program/src/instructions/swap_route_v3.rs:52-335 | the instruction computes the phases of the specification, with the plain reserve check in place of the compressed one |
| RouteSafety.ReserveSafety | program/programs/byreal-titan-venue-program/src/instructions/swap_route_v3.rs:131-148 | against any venue: a TitanPDA account listed below index 256 ends a successful route with at least its balance before it |
| RouteSafety.CreationIsNeutral | program/programs/byreal-titan-venue-program/src/instructions/swap_route_v3.rs:101-129 | created accounts start empty and no existing account changes |
| RouteSafety.CreationIsExact | program/programs/byreal-titan-venue-program/src/instructions/swap_route_v3.rs:101-129 | afterwards every mint account exists, and the recorded indices are exactly those of accounts that were missing, each account once |
| RouteSafety.DepositCreditsInput | program/programs/byreal-titan-venue-program/src/instructions/swap_route_v3.rs:150-205 | without a token ledger the first TitanPDA account gains exactly the instruction's amount; with one it gains what the input account gained since, and that account ends where the ledger saw it; a wrapped input short of the amount is topped up and ends empty, one created for the wrap is gone; nothing else is touched |
| RouteSafety.RouteDeposits | program/programs/byreal-titan-venue-program/src/instructions/swap_route_v3.rs:150-205 | the same for a whole route, with the stored amount read off its token ledger |
| RouteSafety.PayoutMovesSurplus | program/programs/byreal-titan-venue-program/src/instructions/swap_route_v3.rs:253-288 | the payout moves exactly the balance above the reserve to the user, into an account of the user's if it was missing, and touches nothing else |
| RouteSafety.ClosingKeepsAmounts | program/programs/byreal-titan-venue-program/src/instructions/swap_route_v3.rs:290-320 | closing created accounts changes no balance |
| RouteSafety.ClosingRemovesEmptied | program/programs/byreal-titan-venue-program/src/instructions/swap_route_v3.rs:290-320 | afterwards exactly the created accounts that held nothing are gone, and every other account is as it was |
| RouteSafety.RouteCreatesAndCloses | program/programs/byreal-titan-venue-program/src/instructions/swap_route_v3.rs:101-129 | over a whole route: it created exactly the mint accounts that were missing, and exactly those of them that ended empty are gone |
| RouteSafety.ExactPayout | program/programs/byreal-titan-venue-program/src/instructions/swap_route_v3.rs:253-332 | against any venue: the output account ends exactly at its snapshot balance and the user receives exactly the surplus the trades left |
| RouteSafety.LegKeepsGuard | program/programs/byreal-titan-venue-program/src/instructions/swap_route_v3.rs:216-248 | with honest venues every reserve survives every leg, duplicated accounts included |
| RouteSafety.HonestRoutesKeepReserves | program/programs/byreal-titan-venue-program/src/instructions/swap_route_v3.rs:207-332 | with honest venues no route ends in ReservedBalanceViolation |
| RouteProgress.ValidateIff | program/programs/byreal-titan-venue-program/src/instructions/swap_route_v3.rs:58-77 | an instruction is accepted exactly for 2 to 12 mints, 1 to 12 legs, an account pair per mint, a first leg from mint 0 and mint indices in range |
| RouteProgress.TokenLedgerIff | program/programs/byreal-titan-venue-program/src/instructions/swap_route_v3.rs:362-394 | a token ledger is read exactly when it is long enough and speaks of the input account |
| RouteProgress.SuccessNeeds | program/programs/byreal-titan-venue-program/src/instructions/swap_route_v3.rs:58-148 | what every successful route had: an acceptable instruction, readable mints, TitanPDA token accounts for its mints, an input account of the user's |
| RouteProgress.RouteSucceeds | program/programs/byreal-titan-venue-program/src/instructions/swap_route_v3.rs:52-335 | an acceptable route whose user is funded and whose legs have their accounts succeeds when token programs accept and venues are honest and leave room for the payout |
| RouteSafety.LegsSplitInput | program/programs/byreal-titan-venue-program/src/instructions/swap_route_v3.rs:221-251 | consecutive exactly-consuming legs from one mint leave above its reserve the result of the iterated weight arithmetic, whatever other legs do |
| RouteSafety.LegsSplitError | program/programs/byreal-titan-venue-program/src/instructions/swap_route_v3.rs:221-251 | after k such legs the unspent amount is at least the ideal share and less than k atoms above it |
| WeightedSplit.LegInputExact | program/programs/byreal-titan-venue-program/src/instructions/swap_route_v3.rs:222-227 | the product never saturates, the cast never truncates, the input is within the available balance and equals it at full weight |
| WeightedSplit.SplitErrorBound | program/programs/byreal-titan-venue-program/src/instructions/swap_route_v3.rs:222-227 | the weight arithmetic iterated k times stays within k atoms above the exact share |
| WeightedSplit.FullWeightEmpties | program/programs/byreal-titan-venue-program/src/instructions/swap_route_v3.rs:224-227 | a leg of full weight leaves exactly the reserve |
| Wire.EncodeRouteData | src/swap_route/mod.rs:197-208 | the buffer built by appending is the Borsh encoding of the route |
| Wire.RouteRoundTrip | src/swap_route/mod.rs:193-208 | decoding an encoded route returns it, whatever bytes follow |
| Wire.RouteCanonical | src/swap_route/mod.rs:193-208 | whatever decodes is the encoding of the result plus trailing bytes |
| Wire.SpecRoundTrip | src/swap_route/mod.rs:65-78 | one leg survives encoding and decoding |
| Wire.IntegerRoundTrip | src/swap_route/mod.rs:199-202 | little-endian integers of any width survive encoding and decoding |
| Wire.LittleEndianByte | src/swap_route/mod.rs:199-202 | byte i of an encoded integer is its digit of weight 256^i |
| Wire.RouteBytes | src/swap_route/mod.rs:197-208 | every byte of the instruction: discriminator, amount, mint count, leg count, and nine bytes per leg in field order |
| RouteLegs.CountSurvivesCast | src/swap_route/mod.rs:142 | the account count sent is the true one if and only if the leg has at most 254 venue accounts |
| RouteLegs.AssembledAccounts | src/swap_route/mod.rs:165-191 | a leg travels with its accounts as they are but for TitanPDA's signer flag, then its program, read-only |
| RouteLegs.SigningRestores | src/swap_route/mod.rs:168-191 | signing as TitanPDA on chain undoes the clearing of its flag off chain |
| RouteLegs.SignedInstructionIsVerbatim | src/swap_route/mod.rs:165-191 | an instruction TitanPDA alone signs travels without signers and is recovered unchanged, TitanPDA its only signer again |
| RouteLegs.LegCallIs | program/programs/byreal-titan-venue-program/src/instructions/swap_route_v3.rs:229-247 | a leg's CPI by account: the last one passed is the program, the others keep key and writability, TitanPDA signs besides whoever did |
| RouteLegs.SlicingRoundTrip | program/programs/byreal-titan-venue-program/src/instructions/swap_route_v3.rs:207-251 | slicing recovers every leg's accounts and program if and only if every leg has at most 254 venue accounts |
| RouteLegs.LegsContinue | program/programs/byreal-titan-venue-program/src/instructions/swap_route_v3.rs:207-251 | after the first j legs the executor goes on with leg j at the sum of the counts before it |
| RouteLegs.ExecutorIssuesIntended | program/programs/byreal-titan-venue-program/src/instructions/swap_route_v3.rs:207-251 | over a carried route whose legs fit, the executor's leg loop issues exactly the CPIs the venues asked for |
| RouteLegs.RouteTradesIntended | program/programs/byreal-titan-venue-program/src/instructions/swap_route_v3.rs:207-251 | over a whole route the trades are the venues' own calls, out of what was deposited above the reserves |
| RouteLegs.WireToCpi | src/swap_route/mod.rs:124-208 | from built legs through encoding, decoding and slicing, every CPI is the one its venue asked for |
| RouteLegs.WireToExecution | src/swap_route/mod.rs:124-208 | from built legs through encoding and decoding, every leg keeps venue, mints and weight, and the leg loop runs as if every venue were called directly |
| RouteLegs.ByrealLegAccounts | src/byreal_clmm/core.rs:1392-1475 | a Byreal leg carries its 14 fixed accounts, the loaded arrays in swap order and the oracles, 15 to 22 in all, of which only the first signs, and so always fits; TitanPDA alone signs it if and only if TitanPDA is not listed again |
| RouteLegs.SwapIsLaidOut | src/byreal_clmm/core.rs:1410-1475 | every account of the swap instruction by position with its flags, input before output in either direction |
| AccountCache.RpcClientCache.GetMultiple | src/account_caching/rpc_cache.rs:67-78 | cached values in request order, none for uncached keys |
| AccountCache.RpcClientCache.GetAccount | src/account_caching/rpc_cache.rs:89-104 | a hit is returned as cached; a fetched account is returned and cached as answered; a failure caches nothing |
| AccountCache.RpcClientCache.GetAccounts | src/account_caching/rpc_cache.rs:114-153 | one result per requested key in order, duplicates included: the cached value, or what the node answered for it; the cache then holds exactly these besides what it held; fails exactly when a key is missing and the batch fails, changing nothing |
| AccountCache.FilledHoldsAnswers | src/account_caching/rpc_cache.rs:137-141 | after a batch answered key by key, each fetched key holds its answer and every other key what it held |
| AccountCache.RpcClientCache.ResetCache | src/account_caching/rpc_cache.rs:56-58 | forgets every entry |
| AccountCache.ReadsAgree | src/account_caching/rpc_cache.rs:89-153 | between resets any two sequential reads of a key agree, whatever the backend answered meanwhile |
| AccountCache.CallExtends | src/account_caching/rpc_cache.rs:89-153 | no call but a reset changes or drops a cached entry |
| CacheInterleaving.StepKeepsInv | src/account_caching/rpc_cache.rs:89-153 | every atomic step keeps all cached and in-flight values among those the chain held since the last reset |
| CacheInterleaving.ReturnedValuesWereHeld | src/account_caching/rpc_cache.rs:89-153 | under any interleaving a returned result has one entry per key in order, each held by the chain at some moment since the last reset |
| CacheInterleaving.PeekedValuesWereHeld | src/account_caching/rpc_cache.rs:67-78 | under any interleaving every account a cache-only lookup returns was held by the chain at some moment since the last reset |
| CacheInterleaving.ReassemblyIsTotal | src/account_caching/rpc_cache.rs:145-150 | under any interleaving no reassembly lookup misses |
| CacheInterleaving.RacingReadsDisagree | src/account_caching/rpc_cache.rs:94-103 | two concurrent misses of one key can return different values without a reset |
| CacheSemantics.SoloBatchIsSequential | src/account_caching/rpc_cache.rs:114-153 | over the interleaved cache, an uninterrupted batch returns and stores what the sequential method promises |
| CacheSemantics.SoloSingleIsSequential | src/account_caching/rpc_cache.rs:89-104 | so does an uninterrupted single lookup |
| CacheSemantics.SoloPeekIsSequential | src/account_caching/rpc_cache.rs:67-78 | an uninterrupted cache-only lookup sees the cache as it is, in request order |
| CacheSemantics.ReadsSinceReset | src/account_caching/rpc_cache.rs:56-58 | after a reset the cache is empty, and under any interleaving whatever is returned was on chain at the reset or after it |
| CacheAgreement.StepKeepsKeyInv | src/account_caching/rpc_cache.rs:89-153 | a step that does not race keeps every client in agreement with the cache on the key, and only a reset drops the entry |
| CacheAgreement.GuardedReadsAgree | src/account_caching/rpc_cache.rs:67-153 | under any schedule without a race for a key, all reads of it between resets agree, cache-only lookups included, whatever the chain does |
| CacheAgreement.SoloReturns | src/account_caching/rpc_cache.rs:89-153 | a client that missed a key and is left alone returns what its fetch saw |
| CacheAgreement.RacedReadsCanDiffer | src/account_caching/rpc_cache.rs:94-103 | a schedule with one race can be continued, without racing again, to reads that differ |
| CacheAgreement.GuardedIffAgreeing | src/account_caching/rpc_cache.rs:89-153 | a schedule is free of races for a key if and only if no race-free continuation of any part of it lets two reads differ |

## Left out

- The CLMM crate itself (swap step, tick and fee formulas, single-window bitmap code, dynamic array header): only the contracts listed above.
- The default price limit and the clock handed to the step function: fields of the run's context.
- Floating-point rounding of prices: exact reals are used, so finiteness checks are always true.
- Concavity of the output curve and a non-increasing price over whole ranges: properties of the CLMM crate's formulas.
- Account deserialization, Pyth decoding, address derivation, core `update_state`: a refresh delivers a new core or fails, possibly leaving a changed core behind.
- Error messages: the failure kinds are a datatype, and an external error is taken not to contain the words "Liquidity insufficient".
- Token-2022 transfer fees, rent and lamports: an account exists when it has data; SOL wrapping is modelled by its effect on the input account.
- Delegated token authority: a transfer is signed by the source account's own authority.
- The 16-bit mask of created accounts: a set of indices, all below twelve.
- Route account flags merged across one transaction: each remaining account keeps the flags it was passed with.
- Whether the fixed-offset fallbacks cover each other: the one for updates lists arrays below the current one only, the one for swaps lists those in swap direction.
- `parse_pool_creations`, `TokenInfo`, `protocol_to_venue`, the transfer-fee guard and the `swap_v3_dyn` byte layout: single-branch code that would add only easy members.
- Async scheduling and the concurrent map's internals: atomic steps of a state machine.
