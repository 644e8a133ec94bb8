/**
  Monotone output at a fixed fee rate: a larger exact-in amount repeats every
  crossing of a smaller one and never yields less.
*/
module SwapMonotone {
  import opened Common
  import opened TickGrid
  import opened SwapErrors
  import opened SwapRun
  import opened SwapSimulator

  /**
    Per-step contract: with more input the same step either reaches the same
    target with the same amounts, or pays out at least as much.
  */
  ghost predicate StepMonotone(m: Math) {
    forall a: StepArgs, more: nat ::
      a.remaining <= more && NotBefore(a.zeroForOne, a.sqrtPrice, a.target) ==> StepGrows(m, a, more)
  }

  ghost predicate StepGrows(m: Math, a: StepArgs, more: nat) {
    m.swapStep(a).Some? && m.swapStep(a.(remaining := more)).Some? ==>
      var small, large := m.swapStep(a).value, m.swapStep(a.(remaining := more)).value;
      && small.amountOut <= large.amountOut
      && (small.sqrtPriceNext == a.target ==> large == small)
  }

  /** What a run looks like right after a crossing; the unspent input is left aside. */
  datatype Crossing = Crossing(tick: int, sqrtPrice: nat, liquidity: nat, calculated: nat, feeAmount: nat)

  function CrossingOf(s: SwapState): Crossing {
    Crossing(s.tick, s.sqrtPrice, s.liquidity, s.calculated, s.feeAmount)
  }

  ghost function Crossings(c: Context, s: SwapState): seq<Crossing>
    requires Trusted(c) && (Done(c, s) || Placed(c, s))
    decreases Measure(c, s)
  {
    if Done(c, s) || Iterate(c, s).Err? then []
    else
      var s' := Iterate(c, s).value;
      IterationProgress(c, s);
      (if Crosses(c, s, s') then [CrossingOf(s')] else []) + Crossings(c, s')
  }

  /** Output never shrinks along a run. */
  lemma {:induction false} OutputGrows(c: Context, s: SwapState)
    requires Trusted(c) && (Done(c, s) || Placed(c, s)) && Execute(c, s).Ok?
    ensures s.calculated <= Execute(c, s).value.calculated
    decreases Measure(c, s)
  {
    if !Done(c, s) {
      IterationProgress(c, s);
      OutputGrows(c, Iterate(c, s).value);
    }
  }

  /** One iteration of both runs: they cross together, or the smaller one stops with no more output. */
  lemma IterationsCompare(c: Context, a: SwapState, more: nat)
    requires Trusted(c) && StepMonotone(c.math) && Placed(c, a) && !Done(c, a) && a.remaining <= more
    requires Iterate(c, a).Ok? && Iterate(c, a.(remaining := more)).Ok?
    ensures var b := a.(remaining := more);
            var a', b' := Iterate(c, a).value, Iterate(c, b).value;
            && a'.calculated <= b'.calculated
            && (Crosses(c, a, a') ==> Crosses(c, b, b') && a'.remaining <= b'.remaining
                                      && b' == a'.(remaining := b'.remaining))
  {
    NextTickCharacterized(c.nets, c.zeroForOne, a.tick);
    var t := NextTick(c.nets, c.zeroForOne, a.tick).value;
    TargetAhead(c, a, t);
    var args := ArgsAt(c, a, c.math.sqrtPriceAt(t).value);
    assert StepGrows(c.math, args, more);
    assert ArgsAt(c, a.(remaining := more), c.math.sqrtPriceAt(t).value) == args.(remaining := more);
  }

  /** The two-run theorem behind "a larger exact-in amount never returns less output". */
  lemma {:induction false} MonotoneOutput(c: Context, a: SwapState, more: nat)
    requires Trusted(c) && StepMonotone(c.math) && (Done(c, a) || Placed(c, a)) && a.remaining <= more
    requires Placed(c, a.(remaining := more)) || Done(c, a.(remaining := more))
    requires Execute(c, a).Ok? && Execute(c, a.(remaining := more)).Ok?
    ensures Execute(c, a).value.calculated <= Execute(c, a.(remaining := more)).value.calculated
    ensures Crossings(c, a) <= Crossings(c, a.(remaining := more))
    decreases Measure(c, a)
  {
    hide Iterate, Trusted, StepMonotone, Crosses;
    var b := a.(remaining := more);
    if Done(c, a) {
      OutputGrows(c, b);
    } else {
      IterationsCompare(c, a, more);
      var a', b' := Iterate(c, a).value, Iterate(c, b).value;
      IterationProgress(c, a);
      IterationProgress(c, b);
      IterationMoves(c, a);
      if Crosses(c, a, a') {
        MonotoneOutput(c, a', b'.remaining);
      } else {
        OutputGrows(c, b');
      }
    }
  }

  /** The run ends, or stops for want of ticks; no arithmetic fails on the way. */
  ghost predicate RunsClean(c: Context, s: SwapState)
    requires Trusted(c) && (Done(c, s) || Placed(c, s))
  {
    Execute(c, s).Ok? || Execute(c, s).error.LiquidityInsufficient?
  }

  /** The run stops short of using its whole input. */
  ghost predicate StopsShort(c: Context, s: SwapState)
    requires Trusted(c) && (Done(c, s) || Placed(c, s))
  {
    Execute(c, s) == Err(LiquidityInsufficient) || (Execute(c, s).Ok? && Execute(c, s).value.remaining > 0)
  }

  /** A last step that leaves input over reached the limit, and with more input it is the same step. */
  lemma LimitStepRepeats(c: Context, a: SwapState, more: nat)
    requires Trusted(c) && StepMonotone(c.math) && Placed(c, a) && !Done(c, a) && a.remaining <= more
    requires Iterate(c, a).Ok? && Iterate(c, a.(remaining := more)).Ok?
    requires !Crosses(c, a, Iterate(c, a).value) && Iterate(c, a).value.remaining > 0
    ensures var b' := Iterate(c, a.(remaining := more)).value;
            b'.sqrtPrice == c.limit && b'.remaining > 0
  {
    NextTickCharacterized(c.nets, c.zeroForOne, a.tick);
    var t := NextTick(c.nets, c.zeroForOne, a.tick).value;
    TargetAhead(c, a, t);
    var args := ArgsAt(c, a, c.math.sqrtPriceAt(t).value);
    assert StepGrows(c.math, args, more);
    assert ArgsAt(c, a.(remaining := more), c.math.sqrtPriceAt(t).value) == args.(remaining := more);
  }

  /** Once an amount stops short, every larger amount does. */
  lemma {:induction false} LargerStopsShort(c: Context, a: SwapState, more: nat)
    requires Trusted(c) && StepMonotone(c.math) && (Done(c, a) || Placed(c, a)) && a.remaining <= more
    requires Placed(c, a.(remaining := more)) || Done(c, a.(remaining := more))
    requires RunsClean(c, a) && RunsClean(c, a.(remaining := more)) && StopsShort(c, a)
    ensures StopsShort(c, a.(remaining := more))
    decreases Measure(c, a)
  {
    hide Iterate, Trusted, StepMonotone, Crosses;
    var b := a.(remaining := more);
    if !Done(c, a) && Iterate(c, a).Ok? {
      SameSearch(c, a, more);
      IterationsCompare(c, a, more);
      IterationProgress(c, a);
      IterationProgress(c, b);
      IterationMoves(c, a);
      var a', b' := Iterate(c, a).value, Iterate(c, b).value;
      if Crosses(c, a, a') {
        LargerStopsShort(c, a', b'.remaining);
      } else {
        assert Execute(c, a) == Execute(c, a') == Ok(a');
        LimitStepRepeats(c, a, more);
        assert Execute(c, b) == Execute(c, b') == Ok(b');
      }
    } else if !Done(c, a) {
      SameSearch(c, a, more);
    }
  }

  /** Both runs look for the same tick, so the clean larger run gets as far as the smaller one. */
  lemma SameSearch(c: Context, a: SwapState, more: nat)
    requires Trusted(c) && Placed(c, a) && !Done(c, a) && a.remaining <= more
    requires RunsClean(c, a) && RunsClean(c, a.(remaining := more))
    ensures Iterate(c, a).Err? ==> Iterate(c, a.(remaining := more)) == Err(LiquidityInsufficient)
    ensures Iterate(c, a).Ok? ==> Iterate(c, a.(remaining := more)).Ok?
  {
  }

  /** The same for swaps out of one pool: more input, at least as much output. */
  lemma MonotoneSwap(c: Context, pool: PoolState, a: nat, b: nat)
    requires Trusted(c) && StepMonotone(c.math) && a <= b
    requires Placed(c, InitialState(pool, a)) && Placed(c, InitialState(pool, b))
    requires Execute(c, InitialState(pool, a)).Ok? && Execute(c, InitialState(pool, b)).Ok?
    ensures Execute(c, InitialState(pool, a)).value.calculated <= Execute(c, InitialState(pool, b)).value.calculated
    ensures Crossings(c, InitialState(pool, a)) <= Crossings(c, InitialState(pool, b))
  {
    MonotoneOutput(c, InitialState(pool, a), b);
  }
}
