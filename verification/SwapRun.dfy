/**
  The swap-step loop as a transition system over `SwapState`, with the simple
  nearest-tick search in place of the navigator, and what holds over every run.
*/
module SwapRun {
  import opened Common
  import opened TickGrid
  import opened SwapErrors

  datatype SwapState = SwapState(
    remaining: nat, calculated: nat, sqrtPrice: nat, tick: int, liquidity: nat, feeAmount: nat)

  datatype StepArgs = StepArgs(
    sqrtPrice: nat, target: nat, liquidity: nat, remaining: nat, feeRate: nat, zeroForOne: bool, timestamp: int)

  datatype Step = Step(sqrtPriceNext: nat, amountIn: nat, amountOut: nat, feeAmount: nat)

  /** The CLMM crate's arithmetic: `None` stands for its errors. */
  datatype Math = Math(
    minTick: int, maxTick: int,
    sqrtPriceAt: int -> Option<nat>,
    tickAt: nat -> Option<int>,
    swapStep: StepArgs -> Option<Step>,
    addDelta: (nat, int) -> Option<nat>)

  /** Everything that stays fixed during one run. */
  datatype Context = Context(
    math: Math, nets: map<int, int>, feeRate: nat, limit: nat, zeroForOne: bool, timestamp: int)

  // --- trusted contracts ---

  ghost predicate TickMathOk(m: Math) {
    && m.minTick <= m.maxTick
    && (forall t :: m.sqrtPriceAt(t).Some? <==> m.minTick <= t <= m.maxTick)
    && (forall t, u :: m.minTick <= t < u <= m.maxTick ==> SqrtBelow(m, t, u))
    && (forall l: nat, d: int :: m.addDelta(l, d).Some? ==> m.addDelta(l, d).value == l + d)
  }

  predicate SqrtBelow(m: Math, t: int, u: int) {
    m.sqrtPriceAt(t).Some? && m.sqrtPriceAt(u).Some? ==> m.sqrtPriceAt(t).value < m.sqrtPriceAt(u).value
  }

  /** A step stays between price and target, and only an exhausted input misses the target. */
  ghost predicate SwapStepOk(m: Math) {
    forall a: StepArgs :: NotBefore(a.zeroForOne, a.sqrtPrice, a.target) && m.swapStep(a).Some? ==>
      var s := m.swapStep(a).value;
      && NotBefore(a.zeroForOne, a.sqrtPrice, s.sqrtPriceNext)
      && NotBefore(a.zeroForOne, s.sqrtPriceNext, a.target)
      && (s.sqrtPriceNext != a.target ==> s.amountIn + s.feeAmount == a.remaining)
  }

  ghost predicate Trusted(c: Context) {
    && TickMathOk(c.math)
    && SwapStepOk(c.math)
    && (forall t :: t in c.nets ==> c.math.minTick <= t)
  }

  // --- one iteration ---

  predicate Done(c: Context, s: SwapState) {
    s.remaining == 0 || s.sqrtPrice == c.limit
  }

  function TargetPrice(c: Context, sqrtPriceNext: nat): nat {
    if (c.zeroForOne && sqrtPriceNext < c.limit) || (!c.zeroForOne && sqrtPriceNext > c.limit)
    then c.limit else sqrtPriceNext
  }

  function ArgsAt(c: Context, s: SwapState, sqrtPriceNext: nat): StepArgs {
    StepArgs(s.sqrtPrice, TargetPrice(c, sqrtPriceNext), s.liquidity, s.remaining, c.feeRate, c.zeroForOne, c.timestamp)
  }

  /** The checked `u64` updates, before tick and liquidity move. */
  function Settle(s: SwapState, st: Step): Result<SwapState, SwapError> {
    if s.feeAmount + st.feeAmount > U64_MAX then Err(FeeOverflow)
    else if st.amountIn + st.feeAmount > U64_MAX then Err(StepInputOverflow)
    else if st.amountIn + st.feeAmount > s.remaining then Err(StepExceedsRemaining)
    else if s.calculated + st.amountOut > U64_MAX then Err(OutputOverflow)
    else Ok(s.(sqrtPrice := st.sqrtPriceNext,
               feeAmount := s.feeAmount + st.feeAmount,
               remaining := s.remaining - (st.amountIn + st.feeAmount),
               calculated := s.calculated + st.amountOut))
  }

  /** The loop body once `next` is known; `net` is what the loaded arrays say about it. */
  function Advance(c: Context, s: SwapState, next: int, net: Option<int>): Result<SwapState, SwapError> {
    match c.math.sqrtPriceAt(next)
    case None => Err(SqrtPriceFailed(next))
    case Some(sqrtPriceNext) =>
      match c.math.swapStep(ArgsAt(c, s, sqrtPriceNext))
      case None => Err(StepFailed)
      case Some(st) =>
        var moved :- Settle(s, st);
        if moved.sqrtPrice == sqrtPriceNext then
          match net
          case None => Err(MissingLiquidityNet(next))
          case Some(n) =>
            match c.math.addDelta(moved.liquidity, if c.zeroForOne then -n else n)
            case None => Err(LiquidityUpdateFailed(next))
            case Some(l) => Ok(moved.(liquidity := l, tick := if c.zeroForOne then next - 1 else next))
        else
          match c.math.tickAt(moved.sqrtPrice)
          case None => Err(TickFailed)
          case Some(t) => Ok(moved.(tick := t))
  }

  ghost function Iterate(c: Context, s: SwapState): Result<SwapState, SwapError> {
    match NextTick(c.nets, c.zeroForOne, s.tick)
    case None => Err(LiquidityInsufficient)
    case Some(t) => Advance(c, s, t, if t in c.nets then Some(c.nets[t]) else None)
  }

  /** The step the loop body took from `s`, if its arithmetic answered. */
  ghost function StepFrom(c: Context, s: SwapState): Option<Step> {
    match NextTick(c.nets, c.zeroForOne, s.tick)
    case None => None
    case Some(t) =>
      match c.math.sqrtPriceAt(t)
      case None => None
      case Some(p) => c.math.swapStep(ArgsAt(c, s, p))
  }

  // --- invariants ---

  /** The price lies between the prices of the current tick and its successor. */
  ghost predicate Bracketed(c: Context, s: SwapState) {
    var m := c.math;
    && m.minTick - 1 <= s.tick <= m.maxTick
    && (m.sqrtPriceAt(s.tick).Some? ==> m.sqrtPriceAt(s.tick).value <= s.sqrtPrice)
    && (m.sqrtPriceAt(s.tick + 1).Some? ==> s.sqrtPrice <= m.sqrtPriceAt(s.tick + 1).value)
  }

  ghost predicate WithinLimit(c: Context, s: SwapState) {
    NotBefore(c.zeroForOne, s.sqrtPrice, c.limit)
  }

  ghost predicate Placed(c: Context, s: SwapState) {
    Bracketed(c, s) && WithinLimit(c, s)
  }

  /** Sum of `liquidity_net` over the initialized ticks in `[lo, tick]`. */
  ghost function NetSum(nets: map<int, int>, lo: int, tick: int): int
    decreases tick - lo + 1
  {
    if tick < lo then 0
    else NetSum(nets, lo, tick - 1) + (if tick in nets then nets[tick] else 0)
  }

  /** In-range liquidity is the sum of the nets at or below the current tick. */
  ghost predicate LiquidityMatches(c: Context, s: SwapState) {
    s.liquidity == NetSum(c.nets, c.math.minTick, s.tick)
  }

  lemma {:induction false} NetSumSkips(nets: map<int, int>, lo: int, a: int, b: int)
    requires a <= b
    requires forall t :: t in nets ==> !(a < t <= b)
    ensures NetSum(nets, lo, a) == NetSum(nets, lo, b)
    decreases b - a
  {
    if a < b {
      NetSumSkips(nets, lo, a, b - 1);
      if b < lo {
        assert NetSum(nets, lo, b - 1) == 0;
      }
    }
  }

  /** Did this iteration cross an initialized tick? */
  ghost predicate Crosses(c: Context, s: SwapState, s': SwapState) {
    && NextTick(c.nets, c.zeroForOne, s.tick).Some?
    && c.math.sqrtPriceAt(NextTick(c.nets, c.zeroForOne, s.tick).value) == Some(s'.sqrtPrice)
  }

  /** The target always lies ahead of the price, so the step contract applies. */
  lemma TargetAhead(c: Context, s: SwapState, t: int)
    requires Trusted(c) && Placed(c, s) && IsNearest(c.nets, c.zeroForOne, s.tick, t)
    requires c.math.sqrtPriceAt(t).Some?
    ensures NotBefore(c.zeroForOne, s.sqrtPrice, c.math.sqrtPriceAt(t).value)
    ensures NotBefore(c.zeroForOne, s.sqrtPrice, TargetPrice(c, c.math.sqrtPriceAt(t).value))
  {
    var m := c.math;
    if c.zeroForOne {
      assert t == s.tick || SqrtBelow(m, t, s.tick);
    } else {
      assert t == s.tick + 1 || SqrtBelow(m, s.tick + 1, t);
    }
  }

  /** What one iteration of the loop does to price, limit and progress. */
  lemma IterationMoves(c: Context, s: SwapState)
    requires Trusted(c) && Placed(c, s) && Iterate(c, s).Ok?
    ensures var s' := Iterate(c, s).value;
            && NotBefore(c.zeroForOne, s.sqrtPrice, s'.sqrtPrice)
            && WithinLimit(c, s')
            && (Crosses(c, s, s') || Done(c, s'))
  {
    NextTickCharacterized(c.nets, c.zeroForOne, s.tick);
    var t := NextTick(c.nets, c.zeroForOne, s.tick).value;
    TargetAhead(c, s, t);
  }

  /** What a crossing writes. */
  lemma CrossingEffect(c: Context, s: SwapState, t: int)
    requires TickMathOk(c.math) && NextTick(c.nets, c.zeroForOne, s.tick) == Some(t) && t in c.nets
    requires Iterate(c, s).Ok? && Crosses(c, s, Iterate(c, s).value)
    ensures var s' := Iterate(c, s).value;
            && c.math.sqrtPriceAt(t) == Some(s'.sqrtPrice)
            && s'.tick == (if c.zeroForOne then t - 1 else t)
            && s'.liquidity == s.liquidity + (if c.zeroForOne then -c.nets[t] else c.nets[t])
  {
  }

  /** A crossing iteration restores bracketing and the liquidity sum, and uses up the tick. */
  lemma CrossingKeepsInvariant(c: Context, s: SwapState)
    requires Trusted(c) && Placed(c, s) && Iterate(c, s).Ok? && Crosses(c, s, Iterate(c, s).value)
    ensures var s' := Iterate(c, s).value;
            && Placed(c, s')
            && (LiquidityMatches(c, s) ==> LiquidityMatches(c, s'))
            && TicksAhead(c.nets, c.zeroForOne, s'.tick)
               == TicksAhead(c.nets, c.zeroForOne, s.tick) - {NextTick(c.nets, c.zeroForOne, s.tick).value}
  {
    hide Iterate;
    IterationMoves(c, s);
    NextTickCharacterized(c.nets, c.zeroForOne, s.tick);
    var m, t, s' := c.math, NextTick(c.nets, c.zeroForOne, s.tick).value, Iterate(c, s).value;
    CrossingEffect(c, s, t);
    assert m.minTick <= t <= m.maxTick;
    if c.zeroForOne {
      assert t - 1 < m.minTick || SqrtBelow(m, t - 1, t);
      NetSumSkips(c.nets, m.minTick, t, s.tick);
    } else {
      assert t + 1 > m.maxTick || SqrtBelow(m, t, t + 1);
      NetSumSkips(c.nets, m.minTick, s.tick, t - 1);
    }
  }

  /** `get_tick_at_sqrt_price` inverts the tick prices downwards. */
  ghost predicate TickAtOk(m: Math) {
    forall p: nat :: m.tickAt(p).Some? ==>
      var t := m.tickAt(p).value;
      && m.minTick <= t <= m.maxTick
      && m.sqrtPriceAt(t).Some? && m.sqrtPriceAt(t).value <= p
      && (m.sqrtPriceAt(t + 1).Some? ==> p < m.sqrtPriceAt(t + 1).value)
  }

  /** A downward step that will leave the price on the price of the tick just above. */
  ghost predicate StuckAtUpperTick(c: Context, s: SwapState) {
    && c.zeroForOne && StepFrom(c, s).Some? && StepFrom(c, s).value.sqrtPriceNext == s.sqrtPrice
    && c.math.sqrtPriceAt(s.tick + 1) == Some(s.sqrtPrice)
  }

  /** The step from `s` stays on an initialized tick that had already been crossed. */
  ghost predicate StepsOffSum(c: Context, s: SwapState) {
    StuckAtUpperTick(c, s) && s.tick + 1 in c.nets && c.nets[s.tick + 1] != 0
  }

  /** A successful iteration puts the price where its step says. */
  lemma IterationTakesStep(c: Context, s: SwapState)
    requires Iterate(c, s).Ok?
    ensures StepFrom(c, s).Some? && Iterate(c, s).value.sqrtPrice == StepFrom(c, s).value.sqrtPriceNext
  {
  }

  /** A crossing moves the price, so it is never stuck. */
  lemma CrossingIsNotStuck(c: Context, s: SwapState)
    requires Trusted(c) && Placed(c, s) && Iterate(c, s).Ok? && Crosses(c, s, Iterate(c, s).value)
    ensures !StuckAtUpperTick(c, s)
  {
    hide Iterate;
    IterationTakesStep(c, s);
    NextTickCharacterized(c.nets, c.zeroForOne, s.tick);
    var t := NextTick(c.nets, c.zeroForOne, s.tick).value;
    if c.zeroForOne && c.math.sqrtPriceAt(s.tick + 1).Some? {
      assert SqrtBelow(c.math, t, s.tick + 1);
    }
  }

  /**
    A step that crosses nothing re-derives the tick from the price without
    touching liquidity.  The sum still matches afterwards except when the price
    stayed on an initialized tick that had already been crossed.
  */
  lemma FinalStepLiquidity(c: Context, s: SwapState)
    requires Trusted(c) && TickAtOk(c.math) && Placed(c, s) && LiquidityMatches(c, s)
    requires Iterate(c, s).Ok? && !Crosses(c, s, Iterate(c, s).value)
    ensures Bracketed(c, Iterate(c, s).value)
    ensures LiquidityMatches(c, Iterate(c, s).value) <==> !StepsOffSum(c, s)
  {
    NextTickCharacterized(c.nets, c.zeroForOne, s.tick);
    var m, t, s' := c.math, NextTick(c.nets, c.zeroForOne, s.tick).value, Iterate(c, s).value;
    MissStopsShort(c, s, t);
    if StuckAtUpperTick(c, s) {
      assert s'.tick == s.tick + 1;
      assert NetSum(c.nets, m.minTick, s'.tick)
          == NetSum(c.nets, m.minTick, s.tick) + (if s'.tick in c.nets then c.nets[s'.tick] else 0);
    } else {
      NetSumSkips(c.nets, m.minTick, Min(s.tick, s'.tick), Max(s.tick, s'.tick));
    }
  }

  /** What a step that misses its target writes: the price stops strictly before the next tick. */
  lemma MissEffect(c: Context, s: SwapState, t: int)
    requires Trusted(c) && Placed(c, s) && IsNearest(c.nets, c.zeroForOne, s.tick, t)
    requires NextTick(c.nets, c.zeroForOne, s.tick) == Some(t)
    requires Iterate(c, s).Ok? && !Crosses(c, s, Iterate(c, s).value)
    ensures c.math.sqrtPriceAt(t).Some?
    ensures var s' := Iterate(c, s).value;
            && c.math.tickAt(s'.sqrtPrice) == Some(s'.tick) && s'.liquidity == s.liquidity
            && NotBefore(c.zeroForOne, s.sqrtPrice, s'.sqrtPrice)
            && Beyond(c.zeroForOne, s'.sqrtPrice, c.math.sqrtPriceAt(t).value)
  {
    if c.math.sqrtPriceAt(t).Some? {
      TargetAhead(c, s, t);
    }
  }

  /** Where a step that misses its target leaves the tick. */
  lemma MissStopsShort(c: Context, s: SwapState, t: int)
    requires Trusted(c) && TickAtOk(c.math) && Placed(c, s) && IsNearest(c.nets, c.zeroForOne, s.tick, t)
    requires NextTick(c.nets, c.zeroForOne, s.tick) == Some(t)
    requires Iterate(c, s).Ok? && !Crosses(c, s, Iterate(c, s).value)
    ensures var s' := Iterate(c, s).value;
            && c.math.tickAt(s'.sqrtPrice) == Some(s'.tick) && s'.liquidity == s.liquidity
            && (c.zeroForOne ==> t <= s'.tick)
            && (!c.zeroForOne ==> s.tick <= s'.tick < t)
            && (StuckAtUpperTick(c, s) ==> s'.tick == s.tick + 1)
            && (c.zeroForOne && !StuckAtUpperTick(c, s) ==> s'.tick <= s.tick)
  {
    hide Iterate;
    var m, s' := c.math, Iterate(c, s).value;
    MissEffect(c, s, t);
    IterationTakesStep(c, s);
    TickAtOrders(m, s'.sqrtPrice, t);
    TickAtOrders(m, s'.sqrtPrice, s.tick);
    TickAtOrders(m, s'.sqrtPrice, s.tick + 1);
    if StuckAtUpperTick(c, s) {
      assert s.tick + 2 > m.maxTick || SqrtBelow(m, s.tick + 1, s.tick + 2);
      TickAtOrders(m, s'.sqrtPrice, s.tick + 2);
    }
  }

  lemma TickAtOrders(m: Math, p: nat, t: int)
    requires TickMathOk(m) && TickAtOk(m) && m.tickAt(p).Some?
    ensures m.sqrtPriceAt(t).Some? ==> (m.sqrtPriceAt(t).value <= p <==> t <= m.tickAt(p).value)
  {
    var r := m.tickAt(p).value;
    if m.minTick <= t < r {
      assert SqrtBelow(m, t, r);
    } else if r + 1 < t <= m.maxTick {
      assert SqrtBelow(m, r + 1, t);
    }
  }

  // --- whole runs ---

  ghost function Measure(c: Context, s: SwapState): nat {
    if Done(c, s) then 0 else 1 + |TicksAhead(c.nets, c.zeroForOne, s.tick)|
  }

  lemma IterationProgress(c: Context, s: SwapState)
    requires Trusted(c) && Placed(c, s) && !Done(c, s) && Iterate(c, s).Ok?
    ensures Measure(c, Iterate(c, s).value) < Measure(c, s)
    ensures !Done(c, Iterate(c, s).value) ==> Placed(c, Iterate(c, s).value)
  {
    IterationMoves(c, s);
    if Crosses(c, s, Iterate(c, s).value) {
      CrossingKeepsInvariant(c, s);
      NextTickCharacterized(c.nets, c.zeroForOne, s.tick);
    }
  }

  /** The loop of `simulate_swap_steps` over the simple search. */
  ghost function Execute(c: Context, s: SwapState): Result<SwapState, SwapError>
    requires Trusted(c) && (Done(c, s) || Placed(c, s))
    decreases Measure(c, s)
  {
    if Done(c, s) then Ok(s)
    else
      match Iterate(c, s)
      case Err(e) => Err(e)
      case Ok(s') => IterationProgress(c, s); Execute(c, s')
  }

  /** Consecutive loop-head states; the guard held at every state but the last. */
  ghost predicate IsTrace(c: Context, tr: seq<SwapState>) {
    && |tr| > 0
    && forall i :: 0 <= i < |tr| - 1 ==> !Done(c, tr[i]) && Iterate(c, tr[i]) == Ok(tr[i + 1])
  }

  /** The run from `s` to the point where the loop guard fails. */
  ghost predicate IsCompleteRun(c: Context, s: SwapState, tr: seq<SwapState>) {
    IsTrace(c, tr) && tr[0] == s && Done(c, tr[|tr| - 1])
  }

  /**
    The classical concentrated-liquidity invariant over whole runs: every loop
    head at which the loop continues has its price bracketed by its tick and its
    liquidity equal to the net sum at that tick; every iteration but the last
    crosses an initialized tick.
  */
  lemma {:induction false} RunKeepsInvariant(c: Context, tr: seq<SwapState>)
    requires Trusted(c) && IsTrace(c, tr)
    requires Placed(c, tr[0]) && LiquidityMatches(c, tr[0])
    ensures forall i :: 0 <= i < |tr| && !Done(c, tr[i]) ==> Placed(c, tr[i]) && LiquidityMatches(c, tr[i])
    ensures forall i :: 0 <= i < |tr| - 1 && Crosses(c, tr[i], tr[i + 1])
              ==> Placed(c, tr[i + 1]) && LiquidityMatches(c, tr[i + 1])
    ensures forall i :: 0 <= i < |tr| - 2 ==> Crosses(c, tr[i], tr[i + 1])
    ensures forall i :: 0 <= i < |tr| ==> WithinLimit(c, tr[i])
    ensures forall i :: 0 <= i < |tr| ==> NotBefore(c.zeroForOne, tr[0].sqrtPrice, tr[i].sqrtPrice)
    ensures |tr| - 1 <= 1 + |TicksAhead(c.nets, c.zeroForOne, tr[0].tick)|
    decreases |tr|
  {
    hide Iterate;
    if |tr| > 1 {
      var s, s' := tr[0], tr[1];
      IterationMoves(c, s);
      if Crosses(c, s, s') {
        CrossingKeepsInvariant(c, s);
        NextTickCharacterized(c.nets, c.zeroForOne, s.tick);
        var rest := tr[1..];
        assert forall i :: 0 <= i < |rest| ==> rest[i] == tr[i + 1];
        RunKeepsInvariant(c, rest);
        assert forall i :: 1 <= i < |tr| ==> tr[i] == rest[i - 1];
      } else {
        assert |tr| == 2;
      }
    }
  }

  /** Price moves only in the swap direction between any two moments of a run. */
  lemma {:induction false} RunMovesOneWay(c: Context, tr: seq<SwapState>, i: nat, j: nat)
    requires Trusted(c) && IsTrace(c, tr) && Placed(c, tr[0]) && LiquidityMatches(c, tr[0]) && i <= j < |tr|
    ensures NotBefore(c.zeroForOne, tr[i].sqrtPrice, tr[j].sqrtPrice)
  {
    RunKeepsInvariant(c, tr);
    if i < |tr| - 1 {
      var rest := tr[i..];
      assert forall k :: 0 <= k < |rest| ==> rest[k] == tr[k + i];
      RunKeepsInvariant(c, rest);
      assert tr[j] == rest[j - i];
    }
  }

  /** A successful execution is a complete trace. */
  lemma {:induction false} ExecutionTrace(c: Context, s: SwapState) returns (tr: seq<SwapState>)
    requires Trusted(c) && (Done(c, s) || Placed(c, s)) && Execute(c, s).Ok?
    ensures IsCompleteRun(c, s, tr) && tr[|tr| - 1] == Execute(c, s).value
    decreases Measure(c, s)
  {
    tr := [s];
    if !Done(c, s) {
      IterationProgress(c, s);
      var rest := ExecutionTrace(c, Iterate(c, s).value);
      tr := [s] + rest;
      forall i | 0 <= i < |tr| - 1
        ensures !Done(c, tr[i]) && Iterate(c, tr[i]) == Ok(tr[i + 1])
      {
        if i > 0 { assert tr[i] == rest[i - 1] && tr[i + 1] == rest[i]; }
      }
    }
  }

  /** A run ends on its liquidity sum if and only if its last iteration does not step off it. */
  lemma TraceEndsOnSum(c: Context, tr: seq<SwapState>)
    requires Trusted(c) && TickAtOk(c.math) && IsTrace(c, tr) && Placed(c, tr[0]) && LiquidityMatches(c, tr[0])
    ensures LiquidityMatches(c, tr[|tr| - 1]) <==> |tr| == 1 || !StepsOffSum(c, tr[|tr| - 2])
    ensures Bracketed(c, tr[|tr| - 1])
  {
    RunKeepsInvariant(c, tr);
    if |tr| > 1 {
      var s := tr[|tr| - 2];
      hide Iterate, StuckAtUpperTick;
      if Crosses(c, s, tr[|tr| - 1]) {
        CrossingIsNotStuck(c, s);
      } else {
        FinalStepLiquidity(c, s);
      }
    }
  }

  /** The same for the loop itself: what the last loop head decides about the state it returns. */
  lemma ExecutionEndsOnSum(c: Context, s: SwapState) returns (tr: seq<SwapState>)
    requires Trusted(c) && TickAtOk(c.math) && Placed(c, s) && LiquidityMatches(c, s) && Execute(c, s).Ok?
    ensures IsCompleteRun(c, s, tr) && tr[|tr| - 1] == Execute(c, s).value
    ensures LiquidityMatches(c, Execute(c, s).value) <==> |tr| == 1 || !StepsOffSum(c, tr[|tr| - 2])
    ensures Bracketed(c, Execute(c, s).value)
  {
    tr := ExecutionTrace(c, s);
    TraceEndsOnSum(c, tr);
  }

  // --- what each iteration asks and writes ---

  /** The question put to the step function: the target is the nearest tick's price `p`, stopped at the limit. */
  predicate Asks(c: Context, s: SwapState, p: nat, st: Step) {
    c.math.swapStep(StepArgs(s.sqrtPrice, if c.zeroForOne then Max(p, c.limit) else Min(p, c.limit),
                             s.liquidity, s.remaining, c.feeRate, c.zeroForOne, c.timestamp)) == Some(st)
  }

  /** The amounts and the price of `s'` are those of `s` moved by the step, within `u64`. */
  predicate Moves(s: SwapState, st: Step, s': SwapState) {
    && s'.sqrtPrice == st.sqrtPriceNext
    && s'.remaining + st.amountIn + st.feeAmount == s.remaining
    && s'.calculated == s.calculated + st.amountOut <= U64_MAX
    && s'.feeAmount == s.feeAmount + st.feeAmount <= U64_MAX
  }

  /** Tick and liquidity of `s'`: those across tick `t` when its price `p` was reached, else the tick of the new price. */
  predicate Lands(c: Context, s: SwapState, t: int, p: nat, s': SwapState) {
    if s'.sqrtPrice == p then
      && t in c.nets
      && c.math.addDelta(s.liquidity, if c.zeroForOne then -c.nets[t] else c.nets[t]) == Some(s'.liquidity)
      && s'.tick == (if c.zeroForOne then t - 1 else t)
    else
      s'.liquidity == s.liquidity && c.math.tickAt(s'.sqrtPrice) == Some(s'.tick)
  }

  /** The step's input fits a machine word; the code adds it up before comparing it with what remains. */
  predicate InputFits(st: Step) {
    st.amountIn + st.feeAmount <= U64_MAX
  }

  /**
    An iteration succeeds into `s'` exactly when there is a nearest tick with a
    price, the step function answers the question about it, and `s'` is `s`
    moved by that answer.
  */
  lemma IterationIff(c: Context, s: SwapState, s': SwapState)
    ensures Iterate(c, s) == Ok(s') <==>
            exists t, p, st ::
              && IsNearest(c.nets, c.zeroForOne, s.tick, t) && c.math.sqrtPriceAt(t) == Some(p)
              && Asks(c, s, p, st) && InputFits(st) && Moves(s, st, s') && Lands(c, s, t, p, s')
  {
    NextTickCharacterized(c.nets, c.zeroForOne, s.tick);
    var next := NextTick(c.nets, c.zeroForOne, s.tick);
    if next.Some? && c.math.sqrtPriceAt(next.value).Some? {
      var t, p := next.value, c.math.sqrtPriceAt(next.value).value;
      IterationAt(c, s, t, p, s');
      hide Iterate, Asks, Moves, Lands, IsNearest;
    }
  }

  /** Want of ticks is reported exactly when no initialized tick lies ahead. */
  lemma IterationShortIff(c: Context, s: SwapState)
    ensures Iterate(c, s) == Err(LiquidityInsufficient) <==> NoneAhead(c.nets, c.zeroForOne, s.tick)
  {
    NextTickCharacterized(c.nets, c.zeroForOne, s.tick);
  }

  lemma IterationAt(c: Context, s: SwapState, t: int, p: nat, s': SwapState)
    requires NextTick(c.nets, c.zeroForOne, s.tick) == Some(t) && c.math.sqrtPriceAt(t) == Some(p) && t in c.nets
    ensures Iterate(c, s) == Ok(s') <==> exists st :: Asks(c, s, p, st) && InputFits(st) && Moves(s, st, s') && Lands(c, s, t, p, s')
  {
    var answer := c.math.swapStep(StepArgs(s.sqrtPrice, if c.zeroForOne then Max(p, c.limit) else Min(p, c.limit),
                                           s.liquidity, s.remaining, c.feeRate, c.zeroForOne, c.timestamp));
    if answer.Some? {
      assert Asks(c, s, p, answer.value);
    }
  }

  /**
    What step `i` of a run asked and what came of it: the nearest tick `t`, its
    price `p`, and the answer `st` to the question with the run's own liquidity,
    remaining input and fee rate.
  */
  lemma TraceStep(c: Context, tr: seq<SwapState>, i: nat) returns (t: int, p: nat, st: Step)
    requires IsTrace(c, tr) && i < |tr| - 1
    ensures IsNearest(c.nets, c.zeroForOne, tr[i].tick, t) && c.math.sqrtPriceAt(t) == Some(p)
    ensures c.math.swapStep(StepArgs(tr[i].sqrtPrice, if c.zeroForOne then Max(p, c.limit) else Min(p, c.limit),
                                     tr[i].liquidity, tr[i].remaining, c.feeRate, c.zeroForOne, c.timestamp)) == Some(st)
    ensures tr[i + 1].sqrtPrice == st.sqrtPriceNext
    ensures tr[i + 1].remaining == tr[i].remaining - st.amountIn - st.feeAmount
    ensures tr[i + 1].calculated == tr[i].calculated + st.amountOut && tr[i + 1].feeAmount == tr[i].feeAmount + st.feeAmount
    ensures if st.sqrtPriceNext == p then
              c.math.addDelta(tr[i].liquidity, if c.zeroForOne then -c.nets[t] else c.nets[t]) == Some(tr[i + 1].liquidity)
              && tr[i + 1].tick == (if c.zeroForOne then t - 1 else t)
            else tr[i + 1].liquidity == tr[i].liquidity && c.math.tickAt(st.sqrtPriceNext) == Some(tr[i + 1].tick)
  {
    hide Iterate, IsNearest;
    IterationIff(c, tr[i], tr[i + 1]);
    t, p, st :| IsNearest(c.nets, c.zeroForOne, tr[i].tick, t) && c.math.sqrtPriceAt(t) == Some(p)
                && Asks(c, tr[i], p, st) && InputFits(st) && Moves(tr[i], st, tr[i + 1]) && Lands(c, tr[i], t, p, tr[i + 1]);
    IsNearestIsThere(c.nets, c.zeroForOne, tr[i].tick, t);
  }

  lemma IsNearestIsThere(nets: map<int, int>, zeroForOne: bool, cur: int, t: int)
    requires IsNearest(nets, zeroForOne, cur, t)
    ensures t in nets
  {
  }

  // --- accounting, for any arithmetic whatsoever ---

  datatype Totals = Totals(input: nat, fees: nat, output: nat)

  /** Input, fees and output summed over the steps of a trace. */
  ghost function TraceTotals(c: Context, tr: seq<SwapState>): Totals {
    if |tr| <= 1 then Totals(0, 0, 0)
    else
      var rest := TraceTotals(c, tr[1..]);
      match StepFrom(c, tr[0])
      case None => rest
      case Some(st) => Totals(st.amountIn + st.feeAmount + rest.input, st.feeAmount + rest.fees, st.amountOut + rest.output)
  }

  /** Conservation over any trace, with nothing assumed of the step function. */
  lemma {:induction false} TraceConserves(c: Context, tr: seq<SwapState>)
    requires IsTrace(c, tr)
    ensures var first, last, sum := tr[0], tr[|tr| - 1], TraceTotals(c, tr);
            && last.remaining + sum.input == first.remaining
            && last.feeAmount == first.feeAmount + sum.fees
            && last.calculated == first.calculated + sum.output
            && sum.fees <= sum.input
    ensures tr[0].feeAmount <= U64_MAX && tr[0].calculated <= U64_MAX
            ==> tr[|tr| - 1].feeAmount <= U64_MAX && tr[|tr| - 1].calculated <= U64_MAX
  {
    if |tr| > 1 {
      var rest := tr[1..];
      assert forall i :: 0 <= i < |rest| ==> rest[i] == tr[i + 1];
      TraceConserves(c, rest);
      assert Iterate(c, tr[0]) == Ok(tr[1]);
    }
  }

  // --- a run that ends off its liquidity sum ---

  function LinearMath(): Math {
    Math(0, 10,
         t => if 0 <= t <= 10 then Some(100 + 10 * t) else None,
         p => if 100 <= p <= 200 then Some((p - 100) / 10) else None,
         (a: StepArgs) => Some(Step(a.sqrtPrice, a.remaining, 0, 0)),
         (l: nat, d: int) => if l + d >= 0 then Some(l + d) else None)
  }

  function StuckContext(): Context {
    Context(LinearMath(), map[0 := 5, 3 := 7], 0, 101, true, 0)
  }

  function StuckState(): SwapState {
    SwapState(1, 0, 130, 2, 5, 0)
  }

  lemma StuckIsTrusted()
    ensures Trusted(StuckContext()) && TickAtOk(LinearMath()) && Placed(StuckContext(), StuckState())
  {
    var m := LinearMath();
    assert TickMathOk(m);
    assert TickAtOk(m);
    assert SwapStepOk(m);
  }

  lemma StuckSums()
    ensures NetSum(StuckContext().nets, 0, 2) == 5 && NetSum(StuckContext().nets, 0, 3) == 12
  {
    var nets := StuckContext().nets;
    assert NetSum(nets, 0, 0) == NetSum(nets, 0, -1) + 5;
    NetSumSkips(nets, 0, 0, 2);
  }

  lemma StuckIteration()
    ensures Iterate(StuckContext(), StuckState()) == Ok(SwapState(0, 0, 130, 3, 5, 0))
  {
    var c := StuckContext();
    assert NextTick(c.nets, true, 2) == Some(0) by {
      assert IsNearest(c.nets, true, 2, 0);
      NextTickCharacterized(c.nets, true, 2);
    }
    StuckAdvance();
    assert c.nets[0] == 5;
    hide Advance, NextTick;
  }

  lemma StuckAdvance()
    ensures Advance(StuckContext(), StuckState(), 0, Some(5)) == Ok(SwapState(0, 0, 130, 3, 5, 0))
  {
    var c, s := StuckContext(), StuckState();
    assert c.math.sqrtPriceAt(0) == Some(100);
    assert c.math.swapStep(ArgsAt(c, s, 100)) == Some(Step(130, 1, 0, 0));
    assert c.math.tickAt(130) == Some(3);
  }

  /** The exception in `FinalStepLiquidity` is real: a trusted run whose final liquidity is off. */
  lemma FinalLiquidityCanBeOff()
    ensures Trusted(StuckContext()) && Placed(StuckContext(), StuckState())
    ensures LiquidityMatches(StuckContext(), StuckState())
    ensures Execute(StuckContext(), StuckState()).Ok?
            && !LiquidityMatches(StuckContext(), Execute(StuckContext(), StuckState()).value)
  {
    StuckIsTrusted();
    StuckSums();
    StuckIteration();
    var c, s := StuckContext(), StuckState();
    assert Execute(c, s) == Execute(c, SwapState(0, 0, 130, 3, 5, 0));
  }
}
