/**
  `simulate_swap_steps` and `compute_swap` as they run: the loop asks the
  navigator for its next tick and reads nets from the loaded arrays.  The
  methods never look at the ground truth `nets`; their contracts do.
*/
module SwapSimulator {
  import opened Common
  import opened TickGrid
  import opened TickArrays
  import opened ArrayBitmaps
  import opened Navigator
  import opened SwapErrors
  import opened SwapRun

  datatype PoolState = PoolState(sqrtPrice: nat, tickCurrent: int, liquidity: nat)

  function InitialState(pool: PoolState, amount: nat): SwapState {
    SwapState(amount, 0, pool.sqrtPrice, pool.tickCurrent, pool.liquidity, 0)
  }

  /** The snapshot describes the pool the context talks about, and its price is where its tick says. */
  ghost predicate Consistent(m: TickMap, c: Context, pool: PoolState) {
    && m.Valid() && Trusted(c) && c.nets == m.nets
    && m.bitmaps.minTick == c.math.minTick && m.bitmaps.maxTick == c.math.maxTick
    && c.math.minTick <= pool.tickCurrent <= c.math.maxTick
    && Placed(c, InitialState(pool, 0))
  }

  /** `get_tick_liquidity_net`. */
  function LoadedNet(m: TickMap, t: int): Option<int>
    requires m.grid.Valid()
  {
    match FindLoaded(m.loaded, ArrayStart(m.grid, t))
    case None => None
    case Some(a) => LiquidityNet(m.grid, a, t)
  }

  lemma LoadedNetIsTruth(m: TickMap, t: int)
    requires m.Valid() && t in m.nets && FindLoaded(m.loaded, ArrayStart(m.grid, t)).Some?
    ensures LoadedNet(m, t) == Some(m.nets[t])
  {
    LiquidityNetIsTruth(m.grid, m.nets, FindLoaded(m.loaded, ArrayStart(m.grid, t)).value, t);
  }

  // --- the part of the pool the snapshot shows ---

  /** The array the run starts in. */
  function Origin(m: TickMap, tick: int): (s: int)
    requires m.grid.Valid()
    ensures IsStart(m.grid, s) && s == ArrayStart(m.grid, tick)
  {
    ArrayStartBounds(m.grid, tick);
    ArrayStart(m.grid, tick)
  }

  /** The run's context with the pool cut off where the snapshot's data first runs out. */
  ghost function Near(m: TickMap, c: Context, tick: int): (near: Context)
    requires m.Valid() && Trusted(c) && c.nets == m.nets
    ensures Trusted(near) && near == c.(nets := near.nets)
  {
    c.(nets := NearNets(m, c.zeroForOne, Origin(m, tick)))
  }

  /** The plain run from `s` over the part of the pool a swap that began at `tick` can see. */
  ghost function RunNear(m: TickMap, c: Context, tick: int, s: SwapState): Result<SwapState, SwapError>
    requires m.Valid() && Trusted(c) && c.nets == m.nets && (Done(c, s) || Placed(c, s))
  {
    Execute(Near(m, c, tick), s)
  }

  /** A tick the navigator got to is the near pool's nearest tick too, so both runs iterate alike. */
  lemma NearIterates(m: TickMap, c: Context, origin: int, tick: int, s: SwapState, next: int)
    requires m.Valid() && Trusted(c) && c.nets == m.nets && origin == Origin(m, tick)
    requires IsNearest(m.nets, c.zeroForOne, s.tick, next)
    requires Reachable(m, c.zeroForOne, origin, ArrayStart(m.grid, next))
    ensures Iterate(Near(m, c, tick), s) == Iterate(c, s)
  {
    hide Reachable, Sound, Search, GridTicks, Agrees;
    var near := Near(m, c, tick);
    assert next in near.nets && near.nets[next] == m.nets[next];
    assert IsNearest(near.nets, c.zeroForOne, s.tick, next);
    hide NearNets;
    SameNearest(c, near, s, next);
  }

  /** Two pools that share the tick ahead, and all else but their ticks, iterate alike. */
  lemma SameNearest(c: Context, near: Context, s: SwapState, next: int)
    requires near == c.(nets := near.nets)
    requires IsNearest(c.nets, c.zeroForOne, s.tick, next) && IsNearest(near.nets, c.zeroForOne, s.tick, next)
    requires near.nets[next] == c.nets[next]
    ensures Iterate(near, s) == Iterate(c, s)
  {
    NextTickCharacterized(c.nets, c.zeroForOne, s.tick);
    NextTickCharacterized(near.nets, c.zeroForOne, s.tick);
    assert next in c.nets && next in near.nets;
    hide NextTick, IsNearest;
  }

  /** Where the navigator is stuck the near pool has no tick left. */
  lemma StuckEndsNear(m: TickMap, c: Context, tick: int, s: SwapState, at: int, e: SwapError)
    requires m.Valid() && Trusted(c) && c.nets == m.nets && Placed(c, s) && !Done(c, s)
    requires NotBefore(c.zeroForOne, Origin(m, tick), at) && StuckAt(m, c.zeroForOne, s.tick, at, e)
    ensures Execute(Near(m, c, tick), s) == Err(LiquidityInsufficient)
  {
    hide Sound, Search, Reachable;
    var near := Near(m, c, tick);
    forall t | t in near.nets
      ensures !Ahead(c.zeroForOne, s.tick, t)
    {
      if Ahead(c.zeroForOne, s.tick, t) {
        StuckMeansUnreachable(m, c.zeroForOne, Origin(m, tick), s.tick, at, e, t);
      }
    }
    NoTickEndsRun(near, s);
  }

  /** A swap that cannot even find its first array sees no tick ahead. */
  lemma UnenterableEndsNear(m: TickMap, c: Context, s: SwapState)
    requires m.Valid() && Trusted(c) && c.nets == m.nets && Placed(c, s) && !Done(c, s)
    requires !Enterable(m, c.zeroForOne, Origin(m, s.tick))
    ensures Execute(Near(m, c, s.tick), s) == Err(LiquidityInsufficient)
  {
    hide Sound, Search;
    var near := Near(m, c, s.tick);
    forall t | t in near.nets
      ensures !Ahead(c.zeroForOne, s.tick, t)
    {
      if Ahead(c.zeroForOne, s.tick, t) {
        if c.zeroForOne { ArrayStartMonotone(m.grid, t, s.tick); } else { ArrayStartMonotone(m.grid, s.tick, t); }
      }
    }
    NoTickEndsRun(near, s);
  }

  /**
    The layered search refines the simple one.  The simulator answers what the
    plain run answers over the pool, and over the part of it the snapshot shows.
    Only where that part runs out of ticks at an obstruction does it report the
    obstruction instead.  The initial lookup also speaks before a run that has
    nothing to do.
  */
  ghost predicate Refines(m: TickMap, c: Context, init: SwapState, r: Result<SwapState, SwapError>)
    requires m.Valid() && Trusted(c) && c.nets == m.nets && Placed(c, init)
  {
    var origin := Origin(m, init.tick);
    var near := RunNear(m, c, init.tick, init);
    if near == Err(LiquidityInsufficient) && Obstructed(m, c.zeroForOne, origin) then
      r.Err? && Obstructs(m, c.zeroForOne, origin, r.error)
    else
      || (r == near && r == Execute(c, init))
      || (Done(c, init) && EarlyReport(m, c, init, r))
  }

  /** What the initial lookup reports before a run that has nothing to do. */
  ghost predicate EarlyReport(m: TickMap, c: Context, init: SwapState, r: Result<SwapState, SwapError>)
    requires m.Valid()
  {
    || (r == Err(LiquidityInsufficient) && NoneAhead(c.nets, c.zeroForOne, init.tick))
    || (r.Err? && r.error.IsBitmapError() && !Enterable(m, c.zeroForOne, Origin(m, init.tick)))
  }

  /** One loop iteration of the simulator is one iteration of the simple run, and keeps the cursor linked. */
  lemma IterationRefines(m: TickMap, c: Context, s: SwapState, next: int)
    requires m.Valid() && Trusted(c) && c.nets == m.nets && Placed(c, s) && !Done(c, s)
    requires IsNearest(m.nets, c.zeroForOne, s.tick, next)
    requires FindLoaded(m.loaded, ArrayStart(m.grid, next)).Some?
    ensures Advance(c, s, next, LoadedNet(m, next)) == Iterate(c, s)
    ensures Iterate(c, s).Err? ==> !Iterate(c, s).error.MissingLiquidityNet? && Execute(c, s) == Err(Iterate(c, s).error)
    ensures Iterate(c, s).Ok? ==>
              var s' := Iterate(c, s).value;
              && Measure(c, s') < Measure(c, s)
              && (Done(c, s') || (Placed(c, s') && Linked(m, c.zeroForOne, s'.tick, true, ArrayStart(m.grid, next))))
              && Execute(c, s') == Execute(c, s)
  {
    hide Sound, Agrees, GridTicks, LoadedNet;
    NextTickCharacterized(c.nets, c.zeroForOne, s.tick);
    LoadedNetIsTruth(m, next);
    CrossingKeepsLink(m, c.zeroForOne, next);
    if Iterate(c, s).Ok? {
      IterationProgress(c, s);
      IterationMoves(c, s);
    }
  }

  lemma NoTickEndsRun(c: Context, s: SwapState)
    requires Trusted(c) && Placed(c, s) && NoneAhead(c.nets, c.zeroForOne, s.tick)
    ensures Done(c, s) || Execute(c, s) == Err(LiquidityInsufficient)
  {
    NextTickCharacterized(c.nets, c.zeroForOne, s.tick);
  }

  /**
    What holds at every loop head: the cursor is linked to the current tick,
    everything before it has been passed, and both plain runs still end where
    they would from the start.
  */
  ghost predicate OnCourse(m: TickMap, c: Context, init: SwapState, s: SwapState, isMatch: bool, cursor: int)
    requires m.Valid() && Trusted(c) && c.nets == m.nets && Placed(c, init)
  {
    var origin := Origin(m, init.tick);
    && (Done(c, s) || (Placed(c, s) && Linked(m, c.zeroForOne, s.tick, isMatch, cursor)))
    && Enterable(m, c.zeroForOne, origin)
    && NotBefore(c.zeroForOne, origin, cursor) && Passed(m, c.zeroForOne, origin, cursor)
    && Execute(c, s) == Execute(c, init) && RunNear(m, c, init.tick, s) == RunNear(m, c, init.tick, init)
  }

  lemma CourseIsLinked(m: TickMap, c: Context, init: SwapState, s: SwapState, isMatch: bool, cursor: int)
    requires m.Valid() && Trusted(c) && c.nets == m.nets && Placed(c, init)
    requires OnCourse(m, c, init, s, isMatch, cursor) && !Done(c, s)
    ensures Linked(m, c.zeroForOne, s.tick, isMatch, cursor)
  {
  }

  /** An iteration on the tick the navigator found stays on course, or fails as the plain runs do. */
  lemma CourseContinues(m: TickMap, c: Context, init: SwapState, s: SwapState, isMatch: bool, cursor: int, next: int)
    requires m.Valid() && Trusted(c) && c.nets == m.nets && Placed(c, init)
    requires OnCourse(m, c, init, s, isMatch, cursor) && !Done(c, s)
    requires IsNearest(m.nets, c.zeroForOne, s.tick, next) && m.HasArray(ArrayStart(m.grid, next))
    requires NotBefore(c.zeroForOne, cursor, ArrayStart(m.grid, next))
    requires Passed(m, c.zeroForOne, cursor, ArrayStart(m.grid, next))
    ensures Advance(c, s, next, LoadedNet(m, next)) == Iterate(c, s)
    ensures match Iterate(c, s)
            case Err(e) => !e.MissingLiquidityNet? && Refines(m, c, init, Err(e))
            case Ok(s') => Measure(c, s') < Measure(c, s) && OnCourse(m, c, init, s', true, ArrayStart(m.grid, next))
  {
    hide Sound, Agrees, GridTicks, Advance, Search, LoadedNet, NearNets, Linked, Placed, Obstructs, Enterable, Iterate;
    var origin := Origin(m, init.tick);
    PassedJoins(m, c.zeroForOne, origin, cursor, ArrayStart(m.grid, next));
    IterationRefines(m, c, s, next);
    NearIterates(m, c, origin, init.tick, s, next);
    IterateIsNotShort(c, s, next);
  }

  /** An iteration that has a tick ahead does not fail for want of ticks. */
  lemma IterateIsNotShort(c: Context, s: SwapState, next: int)
    requires IsNearest(c.nets, c.zeroForOne, s.tick, next)
    ensures Iterate(c, s) != Err(LiquidityInsufficient)
  {
    NextTickCharacterized(c.nets, c.zeroForOne, s.tick);
  }

  /** No tick is left anywhere: the plain runs say so too, and nothing was obstructed. */
  lemma CourseRunsOut(m: TickMap, c: Context, init: SwapState, s: SwapState, isMatch: bool, cursor: int)
    requires m.Valid() && Trusted(c) && c.nets == m.nets && Placed(c, init)
    requires OnCourse(m, c, init, s, isMatch, cursor) && !Done(c, s)
    requires NoneAhead(m.nets, c.zeroForOne, s.tick) && AllPassed(m, c.zeroForOne, cursor)
    ensures Refines(m, c, init, Err(LiquidityInsufficient))
  {
    hide Sound, Search, Linked, Enterable, Obstructed, Passed, AllPassed;
    var near := Near(m, c, init.tick);
    NoTickEndsRun(c, s);
    NoTickEndsRun(near, s);
    PassedAll(m, c.zeroForOne, Origin(m, init.tick), cursor);
    AllPassedIsOpen(m, c.zeroForOne, Origin(m, init.tick));
  }

  /** The navigator is stuck: the near pool is used up, and the report names the obstruction. */
  lemma CourseStuck(m: TickMap, c: Context, init: SwapState, s: SwapState, isMatch: bool, cursor: int, at: int, e: SwapError)
    requires m.Valid() && Trusted(c) && c.nets == m.nets && Placed(c, init)
    requires OnCourse(m, c, init, s, isMatch, cursor) && !Done(c, s)
    requires NotBefore(c.zeroForOne, cursor, at) && Passed(m, c.zeroForOne, cursor, at) && StuckAt(m, c.zeroForOne, s.tick, at, e)
    ensures Refines(m, c, init, Err(e))
  {
    hide Sound, Search, Linked, Enterable, Passed, NearNets;
    var origin := Origin(m, init.tick);
    PassedJoins(m, c.zeroForOne, origin, cursor, at);
    StuckEndsNear(m, c, init.tick, s, at, e);
    assert Obstruction(m, c.zeroForOne, origin, at, e);
    assert Obstructs(m, c.zeroForOne, origin, e);
  }

  /** The initial lookup fails: nothing lies ahead, or the current array itself cannot be looked up. */
  lemma CourseNeverStarts(m: TickMap, c: Context, init: SwapState, e: SwapError)
    requires m.Valid() && Trusted(c) && c.nets == m.nets && Placed(c, init)
    requires e.LiquidityInsufficient? || e.IsBitmapError()
    requires e.LiquidityInsufficient? ==>
               && NoneAhead(m.nets, c.zeroForOne, init.tick)
               && Enterable(m, c.zeroForOne, Origin(m, init.tick)) && AllPassed(m, c.zeroForOne, Origin(m, init.tick))
    requires e.IsBitmapError() ==> !Enterable(m, c.zeroForOne, Origin(m, init.tick))
    ensures Refines(m, c, init, Err(e))
  {
    hide Sound, Search, Enterable, AllPassed;
    if e.LiquidityInsufficient? {
      NoTickEndsRun(c, init);
      NoTickEndsRun(Near(m, c, init.tick), init);
      AllPassedIsOpen(m, c.zeroForOne, Origin(m, init.tick));
    } else if !Done(c, init) {
      UnenterableEndsNear(m, c, init);
      assert Obstructs(m, c.zeroForOne, Origin(m, init.tick), e);
    }
  }

  /** A run that stays on course to its end is the plain run. */
  lemma CourseEnds(m: TickMap, c: Context, init: SwapState, s: SwapState, isMatch: bool, cursor: int)
    requires m.Valid() && Trusted(c) && c.nets == m.nets && Placed(c, init)
    requires OnCourse(m, c, init, s, isMatch, cursor) && Done(c, s)
    ensures Refines(m, c, init, Ok(s))
  {
    hide Sound, Search, Linked, Enterable, Passed, NearNets;
  }

  method SimulateSwapSteps(m: TickMap, c: Context, pool: PoolState, amount: nat)
    returns (r: Result<SwapState, SwapError>)
    requires Consistent(m, c, pool)
    ensures Placed(c, InitialState(pool, amount))
    ensures Refines(m, c, InitialState(pool, amount), r)
    ensures r.Err? ==> !r.error.MissingLiquidityNet?
  {
    hide Sound, Agrees, GridTicks, Advance, Search, Refines, Passed, AllPassed, StuckAt, Enterable;
    var state := InitialState(pool, amount);
    ghost var init := state;
    assert Placed(c, init);
    var started := InitTickNav(m, pool.tickCurrent, c.zeroForOne);
    if started.Err? {
      CourseNeverStarts(m, c, init, started.error);
      return Err(started.error);
    }
    var nav := started.value;
    assert OnCourse(m, c, init, state, nav.isMatch, nav.start);
    hide OnCourse, Linked, Placed;
    while !Done(c, state)
      invariant OnCourse(m, c, init, state, nav.isMatch, nav.start)
      invariant fresh(nav)
      decreases Measure(c, state)
    {
      ghost var isMatch, cursor := nav.isMatch, nav.start;
      CourseIsLinked(m, c, init, state, isMatch, cursor);
      var next := FindNextInitializedTick(m, state.tick, c.zeroForOne, nav);
      if next.Err? {
        if next.error.LiquidityInsufficient? {
          CourseRunsOut(m, c, init, state, isMatch, cursor);
        } else {
          CourseStuck(m, c, init, state, isMatch, cursor, nav.start, next.error);
        }
        return Err(next.error);
      }
      CourseContinues(m, c, init, state, isMatch, cursor, next.value);
      var advanced := Advance(c, state, next.value, LoadedNet(m, next.value));
      if advanced.Err? {
        return Err(advanced.error);
      }
      state := advanced.value;
    }
    CourseEnds(m, c, init, state, nav.isMatch, nav.start);
    return Ok(state);
  }

  /**
    A successful simulation is a run from the pool's own price, tick and
    liquidity with the whole amount to spend; `TraceStep` says what each of its
    steps asked and wrote.
  */
  lemma SimulatedRun(m: TickMap, c: Context, pool: PoolState, amount: nat, end: SwapState) returns (tr: seq<SwapState>)
    requires Consistent(m, c, pool) && Placed(c, InitialState(pool, amount))
    requires Refines(m, c, InitialState(pool, amount), Ok(end))
    ensures IsTrace(c, tr) && tr[|tr| - 1] == end
    ensures end.remaining == 0 || end.sqrtPrice == c.limit
    ensures tr[0] == SwapState(amount, 0, pool.sqrtPrice, pool.tickCurrent, pool.liquidity, 0)
    ensures forall i :: 0 <= i < |tr| - 1 ==> tr[i].remaining > 0 && tr[i].sqrtPrice != c.limit
  {
    RefinedResult(m, c, InitialState(pool, amount), Ok(end));
    hide Refines, Consistent, Iterate;
    tr := ExecutionTrace(c, InitialState(pool, amount));
  }

  // --- compute_swap ---

  datatype SwapResult = SwapResult(amountIn: nat, amountOut: nat, sqrtPrice: nat, feeRate: nat)

  function Summarize(amount: nat, s: SwapState, feeRate: nat): Result<SwapResult, SwapError> {
    if s.remaining > amount then Err(InputUnderflow)
    else Ok(SwapResult(amount - s.remaining, s.calculated, s.sqrtPrice, feeRate))
  }

  /**
    Accounting of a finished run, with nothing assumed of the step function:
    consumed plus unspent is what was asked for, fees come out of what was
    consumed, and input is left over exactly when the run stopped at the price
    limit with input to spare.
  */
  lemma SwapAccounting(c: Context, pool: PoolState, amount: nat, tr: seq<SwapState>)
    requires IsCompleteRun(c, InitialState(pool, amount), tr)
    ensures var s := tr[|tr| - 1];
            var r := Summarize(amount, s, c.feeRate);
            && r.Ok?
            && r.value.amountIn + s.remaining == amount
            && s.feeAmount <= r.value.amountIn
            && r.value.amountOut == TraceTotals(c, tr).output <= U64_MAX
            && (r.value.amountIn < amount <==> s.remaining > 0 && s.sqrtPrice == c.limit)
  {
    TraceConserves(c, tr);
  }

  /** The summary of a run at fee rate `feeRate`; errors pass through. */
  function Summary(amount: nat, run: Result<SwapState, SwapError>, feeRate: nat): Result<SwapResult, SwapError> {
    match run
    case Err(e) => Err(e)
    case Ok(s) => Summarize(amount, s, feeRate)
  }

  /** `r` summarizes a run that refines the plain one, on this snapshot and at the context's fee rate. */
  ghost predicate Answers(m: TickMap, c: Context, pool: PoolState, amount: nat, r: Result<SwapResult, SwapError>)
    requires Consistent(m, c, pool)
  {
    var init := InitialState(pool, amount);
    assert Placed(c, init);
    exists run :: Refines(m, c, init, run) && r == Summary(amount, run, c.feeRate)
  }

  /** The summary `compute_swap` returns is the accounting of the simple run at the fee rate it resolved. */
  ghost predicate Accounts(c: Context, pool: PoolState, amount: nat, r: SwapResult) {
    var run := c.(feeRate := r.feeRate);
    var init := InitialState(pool, amount);
    && Trusted(run) && Placed(run, init) && Execute(run, init).Ok?
    && var s := Execute(run, init).value;
       && Summarize(amount, s, r.feeRate) == Ok(r)
       && r.amountIn + s.remaining == amount
       && r.amountOut == s.calculated && r.sqrtPrice == s.sqrtPrice
       && s.feeAmount <= r.amountIn <= amount
       && (r.amountIn < amount <==> s.remaining > 0 && s.sqrtPrice == c.limit)
  }

  lemma FeeRateKeepsConsistent(m: TickMap, c: Context, pool: PoolState, amount: nat, feeRate: nat)
    requires Consistent(m, c, pool)
    ensures Consistent(m, c.(feeRate := feeRate), pool)
  {
    var run := c.(feeRate := feeRate);
    assert Placed(run, InitialState(pool, 0));
  }

  lemma ResultAccounts(c: Context, pool: PoolState, amount: nat, feeRate: nat, s: SwapState)
    requires var run := c.(feeRate := feeRate);
             && Trusted(run) && Placed(run, InitialState(pool, amount))
             && Execute(run, InitialState(pool, amount)) == Ok(s)
    ensures Summarize(amount, s, feeRate).Ok? && Accounts(c, pool, amount, Summarize(amount, s, feeRate).value)
  {
    var run := c.(feeRate := feeRate);
    var tr := ExecutionTrace(run, InitialState(pool, amount));
    SwapAccounting(run, pool, amount, tr);
  }

  /** `compute_swap`; `c.feeRate` is replaced by the rate resolved for `amount`. */
  method ComputeSwap(m: TickMap, c: Context, pool: PoolState, amount: nat, feeRate: nat -> Result<nat, bool>)
    returns (r: Result<SwapResult, SwapError>)
    requires Consistent(m, c, pool)
    ensures r.Ok? ==> feeRate(amount) == Ok(r.value.feeRate) && Accounts(c, pool, amount, r.value)
    ensures feeRate(amount).Err? ==> r == Err(FeeRateFailed(feeRate(amount).error))
    ensures feeRate(amount).Ok? ==>
              var run := c.(feeRate := feeRate(amount).value);
              Consistent(m, run, pool) && Answers(m, run, pool, amount, r)
    ensures r.Err? && feeRate(amount).Ok? && m.Complete() && amount > 0 && pool.sqrtPrice != c.limit ==>
              var run := c.(feeRate := feeRate(amount).value);
              && Trusted(run) && Placed(run, InitialState(pool, amount))
              && Execute(run, InitialState(pool, amount)) == Err(r.error)
  {
    var fee := feeRate(amount);
    if fee.Err? {
      return Err(FeeRateFailed(fee.error));
    }
    var run := c.(feeRate := fee.value);
    FeeRateKeepsConsistent(m, c, pool, amount, fee.value);
    var state := SimulateSwapSteps(m, run, pool, amount);
    RefinedResult(m, run, InitialState(pool, amount), state);
    hide Refines, Consistent;
    assert Answers(m, run, pool, amount, Summary(amount, state, fee.value));
    if state.Err? {
      return Err(state.error);
    }
    ResultAccounts(c, pool, amount, fee.value, state.value);
    r := Summarize(amount, state.value, fee.value);
  }

  /** What a refining answer means: a success is the plain run's, and with complete data so is every failure. */
  lemma RefinedResult(m: TickMap, c: Context, init: SwapState, r: Result<SwapState, SwapError>)
    requires m.Valid() && Trusted(c) && c.nets == m.nets && Placed(c, init) && Refines(m, c, init, r)
    ensures r.Ok? ==> r == Execute(c, init) && r == Execute(Near(m, c, init.tick), init)
    ensures m.Complete() && !Done(c, init) ==> r == Execute(c, init)
  {
    hide Sound, Search, NearNets;
    if m.Complete() { CompleteIsOpen(m, c.zeroForOne, Origin(m, init.tick)); }
  }
}
