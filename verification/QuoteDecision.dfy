/**
  What the public quote answers, decided case by case from the loaded pool and
  the cached bounds: when it is refused, what it reports for nothing, which
  amounts it reports, and which price.
*/
module QuoteDecision {
  import opened Common
  import opened SwapErrors
  import opened SwapSimulator
  import opened CurvePrice
  import opened Venue
  import Bounds

  // --- the sampling step ---

  /** Ten to the decimals fits a machine word up to 19 decimals. */
  lemma UnitFits(d: nat)
    ensures Pow10(d) <= U64_MAX <==> d <= 19
    ensures d == 1 ==> Pow10(d) == 10
    ensures d == 6 ==> Pow10(d) == 1_000_000
    ensures d == 9 ==> Pow10(d) == 1_000_000_000
  {
    assert Pow10(3) == 1_000;
    assert Pow10(6) == 1_000_000;
    assert Pow10(9) == 1_000_000_000;
    assert Pow10(12) == 1_000_000_000_000;
    assert Pow10(15) == 1_000_000_000_000_000;
    assert Pow10(18) == 1_000_000_000_000_000_000;
    assert Pow10(20) == 100_000_000_000_000_000_000;
    if d <= 19 { Pow10Grows(d, 19); } else { Pow10Grows(20, d); }
  }

  lemma {:induction false} Pow10Grows(a: nat, b: nat)
    requires a <= b
    ensures Pow10(a) <= Pow10(b)
    decreases b - a
  {
    if a < b { Pow10Grows(a, b - 1); }
  }

  function InputDecimals(core: Core, zeroForOne: bool): nat {
    if zeroForOne then core.decimals0 else core.decimals1
  }

  /**
    A price is sampled from a tenth of an input token on, at the larger of that
    and a thousandth of the amount.
  */
  lemma PriceStepExact(core: Core, zeroForOne: bool, amount: nat)
    ensures var d, step := InputDecimals(core, zeroForOne), PriceStep(core, zeroForOne, amount);
            && (step.Some? <==> d <= 19 && Pow10(d) / 10 <= amount && 0 < amount && (1000 <= amount || 0 < d))
            && (step.Some? ==> step.value == Max(amount / 1000, Pow10(d) / 10))
  {
    var d := InputDecimals(core, zeroForOne);
    UnitFits(d);
    assert d > 0 ==> Pow10(d) == 10 * Pow10(d - 1);
  }

  // --- which price ---

  /** The chord of output per input between two swaps. */
  function Rate(from: SwapResult, to: SwapResult, width: int): real
    requires width > 0
  {
    (to.amountOut - from.amountOut) as real / width as real
  }

  /** `price` is `c` kept from exceeding `high`. */
  predicate Capped(price: real, c: real, high: real) {
    (c <= high ==> price == c) && (c > high ==> price == high)
  }

  /** `price` is `c` moved into `[low, high]`, or raised to `low` when the two are out of order. */
  predicate Clamped(price: real, c: real, low: real, high: real) {
    && (c < low ==> price == low)
    && (low <= c && (c <= high || high < low) ==> price == c)
    && (low <= high < c ==> price == high)
  }

  /** The price for `amount`, given its swap, the constant-fee price `c` and the bound under which the pool is sampled. */
  ghost predicate PriceIs(core: Core, zeroForOne: bool, amount: nat, swap: SwapResult, c: real, bound: Option<nat>, price: real) {
    var step := PriceStep(core, zeroForOne, amount);
    if !core.dynamicFee || step.None? then price == c
    else
      var below := core.swap(zeroForOne, amount - step.value);
      && below.Ok?
      && if below.value.amountOut >= swap.amountOut then price == c
         else
           var backward := Rate(below.value, swap, step.value);
           if bound.None? || bound.value <= amount then Capped(price, c, backward)
           else
             var width := Min(step.value, bound.value - amount);
             var above := core.swap(zeroForOne, amount + width);
             && above.Ok?
             && if above.value.amountOut <= swap.amountOut then Capped(price, c, backward)
                else Clamped(price, c, Rate(swap, above.value, width), backward)
  }

  lemma PriceDecided(core: Core, zeroForOne: bool, amount: nat, swap: SwapResult, c: real, bound: Option<nat>, price: real)
    ensures ActualCurvePrice(core, zeroForOne, amount, swap, c, bound) == Ok(price) <==>
            PriceIs(core, zeroForOne, amount, swap, c, bound, price)
  {
  }

  // --- the public quote ---

  /** The two mints of the pool, in either order. */
  predicate IsPair(core: Core, input: Pubkey, output: Pubkey) {
    input != output && (input == core.mint0 || input == core.mint1) && (output == core.mint0 || output == core.mint1)
  }

  predicate IsOpen(core: Core) {
    core.unixTimestamp > 0 && core.unixTimestamp > core.openTime
  }

  predicate IsLoaded(core: Core) {
    core.ammConfigLoaded && core.tickArraysLoaded && (core.dynamicFee ==> core.vaultsLoaded && core.pythValid)
  }

  /** The bound a direction's prices are sampled under: the upper end cached for it. */
  function PriceBound(v: ByrealClmmVenue, input: Pubkey): Option<nat>
    reads v
  {
    var cached := if input == v.core.mint0 then v.forwardBounds else v.backwardBounds;
    if cached.None? then None else Some(cached.value.1)
  }

  /** Why a quote is refused before any amount is looked at, in the order of the checks. */
  lemma QuoteRefused(v: ByrealClmmVenue, swapType: SwapType, input: Pubkey, output: Pubkey, amount: nat)
    ensures var r, core := v.PublicQuote(swapType, input, output, amount), v.core;
            && (!v.initialized ==> r == Err(NotInitialized))
            && (v.initialized && swapType == ExactOut ==> r == Err(ExactOutNotSupported))
            && (v.initialized && swapType == ExactIn ==>
                  && (!IsPair(core, input, output) ==> r == Err(InvalidMint))
                  && (IsPair(core, input, output) && !IsOpen(core) ==> r == Err(MissingState))
                  && (IsPair(core, input, output) && IsOpen(core) && !core.swapEnabled ==> r == Err(InactivePool))
                  && (IsPair(core, input, output) && IsOpen(core) && core.swapEnabled && !IsLoaded(core) ==> r == Err(MissingState)))
  {
  }

  /** The venue is asked something it can answer. */
  predicate Answerable(v: ByrealClmmVenue, input: Pubkey, output: Pubkey)
    reads v
  {
    v.initialized && IsPair(v.core, input, output) && IsOpen(v.core) && v.core.swapEnabled && IsLoaded(v.core)
  }

  /** Nothing in, nothing out, at the spot price. */
  lemma ZeroQuote(v: ByrealClmmVenue, input: Pubkey, output: Pubkey)
    requires Answerable(v, input, output)
    ensures v.PublicQuote(ExactIn, input, output, 0) ==
            match v.core.spot(input == v.core.mint0)
            case Ok(price) => Ok(Bounds.QuoteResult(input, output, 0, 0, false, price))
            case Err(e) => Err(MathError(e))
  {
  }

  /** What a failed swap is reported as. */
  lemma FailedQuote(v: ByrealClmmVenue, input: Pubkey, output: Pubkey, amount: nat)
    requires Answerable(v, input, output) && amount > 0 && v.core.swap(input == v.core.mint0, amount).Err?
    ensures var e := v.core.swap(input == v.core.mint0, amount).error;
            v.PublicQuote(ExactIn, input, output, amount) ==
            if e.LiquidityInsufficient? then Ok(Bounds.QuoteResult(input, output, 0, 0, true, 0.0))
            else if e == FeeRateFailed(true) then Err(MissingState)
            else Err(MathError(e))
  {
  }

  /**
    What a successful swap is quoted as: its amounts, whether it fell short, and
    exactly the price `PriceIs` names under the cached upper end.
  */
  lemma QuotedSwap(v: ByrealClmmVenue, input: Pubkey, output: Pubkey, amount: nat, price: real)
    requires Answerable(v, input, output) && amount > 0 && v.core.swap(input == v.core.mint0, amount).Ok?
    ensures var dir := input == v.core.mint0;
            var swap := v.core.swap(dir, amount).value;
            var short := swap.amountIn < amount;
            v.PublicQuote(ExactIn, input, output, amount)
              == Ok(Bounds.QuoteResult(input, output, swap.amountIn, swap.amountOut, short, price)) <==>
            && v.core.marginal(dir, swap).Ok?
            && exists p :: PriceIs(v.core, dir, amount, swap, v.core.marginal(dir, swap).value, PriceBound(v, input), p)
                           && price == if short then 0.0 else p
  {
    var dir := input == v.core.mint0;
    var swap := v.core.swap(dir, amount).value;
    var bound := PriceBound(v, input);
    assert bound == (var cached := v.CachedBounds(input, output); if cached.Some? then Some(cached.value.1) else None);
    if v.core.marginal(dir, swap).Ok? {
      var c := v.core.marginal(dir, swap).value;
      hide PriceIs, ActualCurvePrice;
      forall p
        ensures ActualCurvePrice(v.core, dir, amount, swap, c, bound) == Ok(p) <==> PriceIs(v.core, dir, amount, swap, c, bound, p)
      {
        PriceDecided(v.core, dir, amount, swap, c, bound, p);
      }
    }
  }

  /** `bounds` answers for the two directions only; other token pairs are refused, by range first. */
  lemma BoundsDecided(v: ByrealClmmVenue, i: nat, j: nat)
    ensures i == 0 && j == 1 ==>
              v.PublicBounds(i, j) == if v.forwardBounds.None? then Err(VenueError.BoundarySearchFailed) else Ok(v.forwardBounds.value)
    ensures i == 1 && j == 0 ==>
              v.PublicBounds(i, j) == if v.backwardBounds.None? then Err(VenueError.BoundarySearchFailed) else Ok(v.backwardBounds.value)
    ensures i + j != 1 ==>
              v.PublicBounds(i, j) == Err(if Max(i, j) < |v.tokenInfo| then VenueError.BoundarySearchFailed else InvalidMint)
  {
  }
}
