/**
  Core quoting: validation order, the swap summary, and the dynamic-fee price
  bracketed by secants of the output curve.  Prices are exact reals.
*/
module CurvePrice {
  import opened Common
  import opened TickGrid
  import opened SwapErrors
  import opened SwapRun
  import opened SwapSimulator

  datatype VenueError =
    | InvalidMint
    | MissingState
    | InactivePool
    | MathError(cause: SwapError)
    | NotInitialized
    | ExactOutNotSupported
    | FetchFailed
    | DeserializationFailed
    | BoundarySearchFailed
    | NoQuotableValue

  /**
    The loaded pool as quoting sees it.  `swap` is `compute_swap` at the loaded
    clock with the default limit, `marginal` the constant-fee price of a swap
    summary, `spot` that price at the pool's own price and the rate for zero.
  */
  datatype Core = Core(
    mint0: Pubkey, mint1: Pubkey, decimals0: nat, decimals1: nat,
    unixTimestamp: int, openTime: nat,
    swapEnabled: bool, ammConfigLoaded: bool,
    dynamicFee: bool, vaultsLoaded: bool, pythValid: bool,
    tickArraysLoaded: bool,
    swap: (bool, nat) -> Result<SwapResult, SwapError>,
    marginal: (bool, SwapResult) -> Result<real, SwapError>,
    spot: bool -> Result<real, SwapError>)

  datatype CoreQuote = CoreQuote(inAmount: nat, outAmount: nat, notEnoughLiquidity: bool, price: real)

  function Pow10(d: nat): (r: nat)
    ensures r >= 1
  {
    if d == 0 then 1 else 10 * Pow10(d - 1)
  }

  /** `10u64.checked_pow(decimals)`. */
  function InputTokenUnit(core: Core, zeroForOne: bool): Option<nat> {
    var unit := Pow10(if zeroForOne then core.decimals0 else core.decimals1);
    if unit > U64_MAX then None else Some(unit)
  }

  function PriceStep(core: Core, zeroForOne: bool, amount: nat): (r: Option<nat>)
    ensures r.Some? ==> 0 < r.value <= amount
  {
    match InputTokenUnit(core, zeroForOne)
    case None => None
    case Some(unit) =>
      if amount < unit / 10 then None
      else
        var step := Min(Max(amount / 1000, unit / 10), amount);
        if step > 0 then Some(step) else None
  }

  /** Output gained per input atom between two swaps. */
  function Chord(from: SwapResult, to: SwapResult, width: nat): real
    requires width > 0
  {
    (to.amountOut - from.amountOut) as real / width as real
  }

  function MinReal(a: real, b: real): real {
    if a <= b then a else b
  }

  function MaxReal(a: real, b: real): real {
    if a <= b then b else a
  }

  function ActualCurvePrice(core: Core, zeroForOne: bool, amount: nat, swap: SwapResult,
                            constantFeePrice: real, upperBound: Option<nat>): Result<real, SwapError>
  {
    if !core.dynamicFee then Ok(constantFeePrice)
    else
      match PriceStep(core, zeroForOne, amount)
      case None => Ok(constantFeePrice)
      case Some(step) =>
        var previous :- core.swap(zeroForOne, amount - step);
        if swap.amountOut <= previous.amountOut then Ok(constantFeePrice)
        else
          var upperPrice := MinReal(constantFeePrice, Chord(previous, swap, step));
          if upperBound.None? || amount >= upperBound.value then Ok(upperPrice)
          else
            var nextStep := Min(step, upperBound.value - amount);
            var next :- core.swap(zeroForOne, amount + nextStep);
            if next.amountOut <= swap.amountOut then Ok(upperPrice)
            else
              var lowerPrice := Chord(swap, next, nextStep);
              if lowerPrice <= upperPrice
              then Ok(MaxReal(lowerPrice, MinReal(constantFeePrice, upperPrice)))
              else Ok(MaxReal(constantFeePrice, lowerPrice))
  }

  /** The backward chord, when the code gets as far as computing a usable one. */
  function BackwardChord(core: Core, zeroForOne: bool, amount: nat, swap: SwapResult): Option<real> {
    match PriceStep(core, zeroForOne, amount)
    case None => None
    case Some(step) =>
      var previous := core.swap(zeroForOne, amount - step);
      if !core.dynamicFee || previous.Err? || swap.amountOut <= previous.value.amountOut then None
      else Some(Chord(previous.value, swap, step))
  }

  /** The forward chord, when the code gets as far as computing a usable one. */
  function ForwardChord(core: Core, zeroForOne: bool, amount: nat, swap: SwapResult, upperBound: Option<nat>): Option<real> {
    if BackwardChord(core, zeroForOne, amount, swap).None? || upperBound.None? || amount >= upperBound.value then None
    else
      var step := PriceStep(core, zeroForOne, amount).value;
      var nextStep := Min(step, upperBound.value - amount);
      var next := core.swap(zeroForOne, amount + nextStep);
      if next.Err? || next.value.amountOut <= swap.amountOut then None
      else Some(Chord(swap, next.value, nextStep))
  }

  lemma ChordPositive(from: SwapResult, to: SwapResult, width: nat)
    requires width > 0 && from.amountOut < to.amountOut
    ensures Chord(from, to, width) > 0.0
  {
  }

  /** Neither neighbour amount leaves the range it was taken from. */
  lemma NeighboursInRange(core: Core, zeroForOne: bool, amount: nat, upperBound: nat)
    requires PriceStep(core, zeroForOne, amount).Some? && amount < upperBound <= U64_MAX
    ensures var step := PriceStep(core, zeroForOne, amount).value;
            && 0 <= amount - step < amount
            && amount < amount + Min(step, upperBound - amount) <= upperBound <= U64_MAX
  {
  }

  /** A positive constant-fee price yields a positive reported price. */
  lemma PriceIsPositive(core: Core, zeroForOne: bool, amount: nat, swap: SwapResult, price: real, upperBound: Option<nat>)
    requires price > 0.0
    ensures var r := ActualCurvePrice(core, zeroForOne, amount, swap, price, upperBound);
            r.Ok? ==> r.value > 0.0
  {
  }

  /**
    The mean-value bracket.  With both chords computed the reported price is
    never under the forward chord, and it lies between the two chords exactly
    when the three sampled outputs are concave.
  */
  lemma PriceBracket(core: Core, zeroForOne: bool, amount: nat, swap: SwapResult, price: real, upperBound: Option<nat>)
    requires ForwardChord(core, zeroForOne, amount, swap, upperBound).Some?
    ensures ActualCurvePrice(core, zeroForOne, amount, swap, price, upperBound).Ok?
    ensures var p := ActualCurvePrice(core, zeroForOne, amount, swap, price, upperBound).value;
            var forward := ForwardChord(core, zeroForOne, amount, swap, upperBound).value;
            var backward := BackwardChord(core, zeroForOne, amount, swap).value;
            && forward > 0.0 && forward <= p
            && (p <= backward <==> forward <= backward)
  {
    var step := PriceStep(core, zeroForOne, amount).value;
    var nextStep := Min(step, upperBound.value - amount);
    ChordPositive(swap, core.swap(zeroForOne, amount + nextStep).value, nextStep);
  }

  /** The swap sampled below the amount. */
  function SampleBelow(core: Core, zeroForOne: bool, amount: nat): Result<SwapResult, SwapError>
    requires PriceStep(core, zeroForOne, amount).Some?
  {
    core.swap(zeroForOne, amount - PriceStep(core, zeroForOne, amount).value)
  }

  /** How far above the amount the other sample lies, under the bound. */
  function StepAbove(core: Core, zeroForOne: bool, amount: nat, upperBound: nat): (r: nat)
    requires PriceStep(core, zeroForOne, amount).Some? && amount < upperBound
    ensures 0 < r <= upperBound - amount
  {
    Min(PriceStep(core, zeroForOne, amount).value, upperBound - amount)
  }

  /**
    The upper side of the mean-value requirement, decided for every sampled
    price: it is at most the chord from the sample below exactly when output
    grew from there, and no steeper chord to the sample above was used.
  */
  lemma PriceBelowIff(core: Core, zeroForOne: bool, amount: nat, swap: SwapResult, price: real, upperBound: Option<nat>)
    requires core.dynamicFee && PriceStep(core, zeroForOne, amount).Some? && price > 0.0
    requires ActualCurvePrice(core, zeroForOne, amount, swap, price, upperBound).Ok?
    ensures SampleBelow(core, zeroForOne, amount).Ok?
    ensures var p := ActualCurvePrice(core, zeroForOne, amount, swap, price, upperBound).value;
            var previous, step := SampleBelow(core, zeroForOne, amount).value, PriceStep(core, zeroForOne, amount).value;
            var forward := ForwardChord(core, zeroForOne, amount, swap, upperBound);
            p <= Chord(previous, swap, step) <==>
              previous.amountOut < swap.amountOut && (forward.None? || forward.value <= Chord(previous, swap, step))
  {
  }

  /** A chord over output that does not grow is not positive. */
  lemma ChordSign(from: SwapResult, to: SwapResult, width: nat)
    requires width > 0
    ensures Chord(from, to, width) > 0.0 <==> from.amountOut < to.amountOut
  {
  }

  /** The lower side: the price is at least the chord to the sample above, unless output was flat below and the price small. */
  lemma PriceAboveIff(core: Core, zeroForOne: bool, amount: nat, swap: SwapResult, price: real, upperBound: nat, next: SwapResult)
    requires core.dynamicFee && PriceStep(core, zeroForOne, amount).Some? && price > 0.0 && amount < upperBound
    requires core.swap(zeroForOne, amount + StepAbove(core, zeroForOne, amount, upperBound)) == Ok(next)
    requires ActualCurvePrice(core, zeroForOne, amount, swap, price, Some(upperBound)).Ok?
    ensures SampleBelow(core, zeroForOne, amount).Ok?
    ensures var p := ActualCurvePrice(core, zeroForOne, amount, swap, price, Some(upperBound)).value;
            var forward := Chord(swap, next, StepAbove(core, zeroForOne, amount, upperBound));
            forward <= p <==> SampleBelow(core, zeroForOne, amount).value.amountOut < swap.amountOut || forward <= price
  {
    ChordSign(swap, next, StepAbove(core, zeroForOne, amount, upperBound));
    PriceIsPositive(core, zeroForOne, amount, swap, price, Some(upperBound));
  }

  /**
    The requirement as a whole: with a sample on either side, a reported price
    lies between the two chords if and only if output strictly grew into the
    amount and the three samples are concave.
  */
  lemma PriceBracketIff(core: Core, zeroForOne: bool, amount: nat, swap: SwapResult, price: real, upperBound: nat, next: SwapResult)
    requires core.dynamicFee && PriceStep(core, zeroForOne, amount).Some? && price > 0.0 && amount < upperBound
    requires core.swap(zeroForOne, amount + StepAbove(core, zeroForOne, amount, upperBound)) == Ok(next)
    requires ActualCurvePrice(core, zeroForOne, amount, swap, price, Some(upperBound)).Ok?
    ensures SampleBelow(core, zeroForOne, amount).Ok?
    ensures var p := ActualCurvePrice(core, zeroForOne, amount, swap, price, Some(upperBound)).value;
            var previous := SampleBelow(core, zeroForOne, amount).value;
            var backward := Chord(previous, swap, PriceStep(core, zeroForOne, amount).value);
            var forward := Chord(swap, next, StepAbove(core, zeroForOne, amount, upperBound));
            forward <= p <= backward <==> previous.amountOut < swap.amountOut && forward <= backward
  {
    PriceBelowIff(core, zeroForOne, amount, swap, price, Some(upperBound));
    PriceAboveIff(core, zeroForOne, amount, swap, price, upperBound, next);
    ChordSign(swap, next, StepAbove(core, zeroForOne, amount, upperBound));
    ChordSign(SampleBelow(core, zeroForOne, amount).value, swap, PriceStep(core, zeroForOne, amount).value);
  }

  // --- prices outside the bracket ---

  /** Arithmetic under which a step takes all its input, pays `out` of it and leaves the price where it is. */
  function CurveMath(out: nat -> nat): Math {
    LinearMath().(swapStep := (a: StepArgs) => Some(Step(a.sqrtPrice, a.remaining, out(a.remaining), 0)))
  }

  function CurveContext(out: nat -> nat): Context {
    Context(CurveMath(out), map[0 := 5], 0, 101, true, 0)
  }

  const CURVE_POOL: PoolState := PoolState(130, 3, 5)

  /** The pool that quotes by running that arithmetic, with a dynamic fee and one decimal. */
  function CurveCore(out: nat -> nat): Core {
    Core(Pubkey(0), Pubkey(1), 1, 1, 1, 0, true, true, true, true, true, true,
         (_, x: nat) => Ok(SwapResult(x, if x == 0 then 0 else out(x), 130, 0)), (_, _) => Ok(1.0), _ => Ok(1.0))
  }

  lemma CurveIsTrusted(out: nat -> nat, x: nat)
    ensures Trusted(CurveContext(out)) && Placed(CurveContext(out), InitialState(CURVE_POOL, x))
  {
    StuckIsTrusted();
    var m := CurveMath(out);
    assert SwapStepOk(m);
    assert forall t, u :: SqrtBelow(m, t, u) <==> SqrtBelow(LinearMath(), t, u);
    assert TickMathOk(m);
  }

  lemma CurveIterates(out: nat -> nat, x: nat)
    requires 0 < x <= U64_MAX && out(x) <= U64_MAX
    ensures Iterate(CurveContext(out), InitialState(CURVE_POOL, x)) == Ok(SwapState(0, out(x), 130, 3, 5, 0))
  {
    var c, s := CurveContext(out), InitialState(CURVE_POOL, x);
    assert IsNearest(c.nets, true, 3, 0);
    NextTickCharacterized(c.nets, true, 3);
    assert NextTick(c.nets, true, s.tick) == Some(0);
    assert c.math.sqrtPriceAt(0) == Some(100);
    assert c.math.swapStep(ArgsAt(c, s, 100)) == Some(Step(130, x, out(x), 0));
    assert c.math.tickAt(130) == Some(3);
  }

  /** What this pool quotes is the summary of its run, for every amount. */
  lemma CurveCoreRuns(out: nat -> nat, x: nat)
    requires x <= U64_MAX && out(x) <= U64_MAX
    ensures IsRun(out, x)
  {
    CurveIsTrusted(out, x);
    if x > 0 {
      CurveIterates(out, x);
      hide Iterate, Trusted, Placed;
      SingleIterationRun(CurveContext(out), InitialState(CURVE_POOL, x));
    }
  }

  lemma SingleIterationRun(c: Context, s: SwapState)
    requires Trusted(c) && Placed(c, s) && !Done(c, s) && Iterate(c, s).Ok? && Done(c, Iterate(c, s).value)
    ensures Execute(c, s) == Iterate(c, s)
  {
  }

  lemma TenAtomsStep(out: nat -> nat)
    ensures PriceStep(CurveCore(out), true, 10) == Some(1)
  {
    assert Pow10(1) == 10 * Pow10(0);
  }

  function Square(x: nat): nat {
    x * x
  }

  function Flat(x: nat): nat {
    5
  }

  /** What the pool quotes for `x` is the summary of a trusted run. */
  ghost predicate IsRun(out: nat -> nat, x: nat) {
    && Trusted(CurveContext(out)) && Placed(CurveContext(out), InitialState(CURVE_POOL, x))
    && CurveCore(out).swap(true, x) == Summary(x, Execute(CurveContext(out), InitialState(CURVE_POOL, x)), 0)
  }

  lemma CurveSample(out: nat -> nat, x: nat, y: nat)
    requires 0 < x <= U64_MAX && out(x) == y <= U64_MAX
    ensures CurveCore(out).swap(true, x) == Ok(SwapResult(x, y, 130, 0)) && IsRun(out, x)
  {
    CurveCoreRuns(out, x);
    hide IsRun;
  }

  lemma UnitChord(from: SwapResult, to: SwapResult)
    ensures Chord(from, to, 1) == (to.amountOut - from.amountOut) as real
  {
  }

  /** With samples one atom away on a convex stretch, the price is the forward chord. */
  lemma ConvexPrice(core: Core, amount: nat, price: real, bound: nat, previous: SwapResult, swap: SwapResult, next: SwapResult)
    requires core.dynamicFee && 0 < amount < bound && PriceStep(core, true, amount) == Some(1)
    requires core.swap(true, amount - 1) == Ok(previous) && core.swap(true, amount + 1) == Ok(next)
    requires previous.amountOut < swap.amountOut && next.amountOut - swap.amountOut > swap.amountOut - previous.amountOut
    requires price <= (swap.amountOut - previous.amountOut) as real
    ensures ActualCurvePrice(core, true, amount, swap, price, Some(bound)) == Ok((next.amountOut - swap.amountOut) as real)
    ensures BackwardChord(core, true, amount, swap) == Some((swap.amountOut - previous.amountOut) as real)
  {
    hide PriceStep, Chord;
    UnitChord(previous, swap);
    UnitChord(swap, next);
  }

  /**
    A reported price can exceed the backward chord where samples are convex: ten
    atoms of the quadratic pool are priced at the forward chord of 21, above the
    backward chord of 19.
  */
  lemma PriceCanExceedBackward()
    ensures IsRun(Square, 9) && IsRun(Square, 10) && IsRun(Square, 11)
    ensures var core, swap := CurveCore(Square), SwapResult(10, 100, 130, 0);
            && core.swap(true, 10) == Ok(swap)
            && ActualCurvePrice(core, true, 10, swap, 1.0, Some(100)) == Ok(21.0)
            && BackwardChord(core, true, 10, swap) == Some(19.0)
  {
    TenAtomsStep(Square);
    CurveSample(Square, 9, 81);
    CurveSample(Square, 10, 100);
    CurveSample(Square, 11, 121);
    CurveIsDynamic(Square);
    hide IsRun, PriceStep, CurveCore, ActualCurvePrice, BackwardChord;
    ConvexPrice(CurveCore(Square), 10, 1.0, 100, SwapResult(9, 81, 130, 0), SwapResult(10, 100, 130, 0), SwapResult(11, 121, 130, 0));
  }

  lemma CurveIsDynamic(out: nat -> nat)
    ensures CurveCore(out).dynamicFee
  {
  }

  /** It can where output is flat, although flat samples are concave: both chords are 0, the price is 1. */
  lemma FlatPriceExceedsBackward()
    ensures IsRun(Flat, 9) && IsRun(Flat, 10) && IsRun(Flat, 11)
    ensures var core, previous, swap, next :=
              CurveCore(Flat), SwapResult(9, 5, 130, 0), SwapResult(10, 5, 130, 0), SwapResult(11, 5, 130, 0);
            && core.swap(true, 9) == Ok(previous) && core.swap(true, 10) == Ok(swap) && core.swap(true, 11) == Ok(next)
            && ActualCurvePrice(core, true, 10, swap, 1.0, Some(100)) == Ok(1.0)
            && Chord(previous, swap, 1) == 0.0 && Chord(swap, next, 1) == 0.0
  {
    TenAtomsStep(Flat);
    CurveSample(Flat, 9, 5);
    CurveSample(Flat, 10, 5);
    CurveSample(Flat, 11, 5);
    hide IsRun, PriceStep, CurveCore;
  }

  // --- quoting ---

  function ValidateMints(core: Core, input: Pubkey, output: Pubkey): Result<bool, VenueError> {
    if input != core.mint0 && input != core.mint1 then Err(InvalidMint)
    else if output != core.mint0 && output != core.mint1 then Err(InvalidMint)
    else if input == output then Err(InvalidMint)
    else Ok(input == core.mint0)
  }

  function Preconditions(core: Core): Result<(), VenueError> {
    if core.unixTimestamp <= 0 || core.unixTimestamp <= core.openTime then Err(MissingState)
    else if !core.swapEnabled then Err(InactivePool)
    else if !core.ammConfigLoaded then Err(MissingState)
    else if core.dynamicFee && (!core.vaultsLoaded || !core.pythValid) then Err(MissingState)
    else if !core.tickArraysLoaded then Err(MissingState)
    else Ok(())
  }

  function MathResult<T>(r: Result<T, SwapError>): Result<T, VenueError> {
    match r
    case Ok(v) => Ok(v)
    case Err(e) => Err(MathError(e))
  }

  /** `quote_with_price_upper_bound`. */
  function Quote(core: Core, input: Pubkey, output: Pubkey, amount: nat, upperBound: Option<nat>)
    : Result<CoreQuote, VenueError>
  {
    var zeroForOne :- ValidateMints(core, input, output);
    var _ :- Preconditions(core);
    if amount == 0 then
      var price :- MathResult(core.spot(zeroForOne));
      Ok(CoreQuote(0, 0, false, price))
    else
      match core.swap(zeroForOne, amount)
      case Err(LiquidityInsufficient) => Ok(CoreQuote(0, 0, true, 0.0))
      case Err(FeeRateFailed(true)) => Err(MissingState)
      case Err(e) => Err(MathError(e))
      case Ok(swap) =>
        var constantFeePrice :- MathResult(core.marginal(zeroForOne, swap));
        var price :- MathResult(ActualCurvePrice(core, zeroForOne, amount, swap, constantFeePrice, upperBound));
        Ok(CoreQuote(swap.amountIn, swap.amountOut, swap.amountIn < amount, price))
  }

  /**
    A quote over a real run reports a shortfall exactly when the run stopped at
    the price limit with input left, and reports what was consumed up to there;
    nothing is assumed of the step function.
  */
  lemma QuoteReportsShortfall(core: Core, c: Context, pool: PoolState, input: Pubkey, output: Pubkey,
                              amount: nat, tr: seq<SwapState>, upperBound: Option<nat>)
    requires amount > 0 && IsCompleteRun(c, InitialState(pool, amount), tr)
    requires core.swap(input == core.mint0, amount) == Summarize(amount, tr[|tr| - 1], c.feeRate)
    requires Quote(core, input, output, amount, upperBound).Ok?
    ensures var q, end := Quote(core, input, output, amount, upperBound).value, tr[|tr| - 1];
            && q.inAmount + end.remaining == amount
            && q.outAmount == TraceTotals(c, tr).output
            && end.feeAmount <= q.inAmount
            && (q.notEnoughLiquidity <==> end.remaining > 0 && end.sqrtPrice == c.limit)
  {
    SwapAccounting(c, pool, amount, tr);
  }

  /** The bound only shapes the price: amounts of two answers agree. */
  lemma BoundKeepsAmounts(core: Core, input: Pubkey, output: Pubkey, amount: nat, b: Option<nat>, b': Option<nat>)
    requires Quote(core, input, output, amount, b).Ok? && Quote(core, input, output, amount, b').Ok?
    ensures var q, q' := Quote(core, input, output, amount, b).value, Quote(core, input, output, amount, b').value;
            q' == q.(price := q'.price)
  {
  }

  /** The bound is inert at or above itself, and on pools without dynamic fees. */
  lemma BoundIsInert(core: Core, input: Pubkey, output: Pubkey, amount: nat, bound: nat)
    requires amount >= bound || !core.dynamicFee
    ensures Quote(core, input, output, amount, Some(bound)) == Quote(core, input, output, amount, None)
  {
  }
}
