/**
  Where the pieces meet: on a pool with a constant fee the swap loop, the quote
  and the boundary search together fix the cached bounds, for any snapshot of
  the pool's tick arrays.
*/
module VenueBounds {
  import opened Common
  import opened SwapErrors
  import opened ArrayBitmaps
  import opened Navigator
  import opened SwapRun
  import opened SwapSimulator
  import opened SwapMonotone
  import opened CurvePrice
  import opened Venue
  import Bounds

  /** `compute_swap` at a fixed fee rate, over the plain run. */
  ghost function SwapOf(c: Context, pool: PoolState, amount: nat): Result<SwapResult, SwapError>
    requires Trusted(c) && Placed(c, InitialState(pool, amount))
  {
    Summary(amount, Execute(c, InitialState(pool, amount)), c.feeRate)
  }

  /** The answers agree, or the first is an error where the second does not use up its input. */
  predicate FillsAlike(a: Result<SwapResult, SwapError>, b: Result<SwapResult, SwapError>, amount: nat) {
    a == b || (a.Err? && (b.Err? || b.value.amountIn != amount))
  }

  /** The pool is loaded and its fee does not depend on the amount. */
  ghost predicate QuotesAtOneRate(core: Core, c: Context, input: Pubkey, output: Pubkey) {
    && !core.dynamicFee && Preconditions(core).Ok? && ValidateMints(core, input, output) == Ok(c.zeroForOne)
    && (forall s :: core.marginal(c.zeroForOne, s).Ok?)
  }

  /** The pool fills `input` for `output` exactly as runs of `c` do, and no arithmetic of those runs fails. */
  ghost predicate ConstantFeePool(core: Core, c: Context, pool: PoolState, input: Pubkey, output: Pubkey) {
    && QuotesAtOneRate(core, c, input, output)
    && Trusted(c) && StepMonotone(c.math)
    && (forall amount: nat :: Placed(c, InitialState(pool, amount)))
    && (forall amount: u64 :: amount > 0 ==> FillsAlike(core.swap(c.zeroForOne, amount), SwapOf(c, pool, amount), amount))
    && (forall amount: u64 :: RunsClean(c, InitialState(pool, amount)))
  }

  /** An amount quotes validly exactly when its run spends it all and pays something. */
  lemma ValidMeansFullySpent(core: Core, c: Context, pool: PoolState, input: Pubkey, output: Pubkey, amount: u64)
    requires ConstantFeePool(core, c, pool, input, output)
    ensures Bounds.Valid(BoundsOracle(core, input, output), amount) <==>
            amount > 0 && !StopsShort(c, InitialState(pool, amount))
            && Execute(c, InitialState(pool, amount)).value.calculated > 0
  {
    var init := InitialState(pool, amount);
    assert RunsClean(c, init);
    assert amount > 0 ==> FillsAlike(core.swap(c.zeroForOne, amount), SwapOf(c, pool, amount), amount);
    if Execute(c, init).Ok? {
      var tr := ExecutionTrace(c, init);
      SwapAccounting(c, pool, amount, tr);
    }
  }

  /** Everything between two quotable amounts is quotable. */
  lemma QuotableIsConvex(core: Core, c: Context, pool: PoolState, input: Pubkey, output: Pubkey, x: u64, y: u64, z: u64)
    requires ConstantFeePool(core, c, pool, input, output) && x <= y <= z
    requires Bounds.Valid(BoundsOracle(core, input, output), x) && Bounds.Valid(BoundsOracle(core, input, output), z)
    ensures Bounds.Valid(BoundsOracle(core, input, output), y)
  {
    ValidMeansFullySpent(core, c, pool, input, output, x);
    ValidMeansFullySpent(core, c, pool, input, output, y);
    ValidMeansFullySpent(core, c, pool, input, output, z);
    assert RunsClean(c, InitialState(pool, y)) && RunsClean(c, InitialState(pool, z));
    if StopsShort(c, InitialState(pool, y)) {
      LargerStopsShort(c, InitialState(pool, y), z);
    } else {
      MonotoneSwap(c, pool, x, y);
    }
  }

  /**
    After a successful update of a constant-fee pool the quotable amounts form an
    interval, whose ends decide the cached bounds: at most 63 and 65 atoms inside.
  */
  lemma CachedBoundsAreAccurate(core: Core, c: Context, pool: PoolState, input: Pubkey, output: Pubkey, bounds: (nat, nat))
    returns (lowest: nat, highest: nat)
    requires ConstantFeePool(core, c, pool, input, output) && SearchedBounds(core, input, output, bounds)
    ensures Bounds.AcceptsInterval(BoundsOracle(core, input, output), lowest, highest)
    ensures Bounds.LowerEndFor(lowest, bounds.0) && Bounds.UpperEndFor(lowest, highest, bounds.1)
    ensures lowest <= bounds.0 <= lowest + 63 && highest - 65 <= bounds.1 <= highest
  {
    hide ConstantFeePool;
    var f := BoundsOracle(core, input, output);
    forall x: nat, y: nat, z: nat | x <= y <= z <= U64_MAX && Bounds.Valid(f, x) && Bounds.Valid(f, z)
      ensures Bounds.Valid(f, y)
    {
      QuotableIsConvex(core, c, pool, input, output, x, y, z);
    }
    lowest, highest := Bounds.ConvexIsInterval(f, bounds.0);
    Bounds.EndsAreClose(f, bounds.0, bounds.1, lowest, highest);
  }

  /** On a constant-fee pool the public quote has the amounts the search saw, under any cached bound. */
  lemma PublicQuoteAsSearched(v: ByrealClmmVenue, c: Context, input: Pubkey, output: Pubkey, amount: nat)
    requires v.initialized && QuotesAtOneRate(v.core, c, input, output)
    requires Bounds.Valid(BoundsOracle(v.core, input, output), amount)
    ensures v.QuotesAsSearched(input, output, amount)
  {
    if v.CachedBounds(input, output).Some? {
      BoundIsInert(v.core, input, output, amount, v.CachedBounds(input, output).value.1);
    }
  }

  /** A valid quote of a constant-fee pool pays what the run over its amount pays. */
  lemma QuotedOutputIsRun(core: Core, c: Context, pool: PoolState, input: Pubkey, output: Pubkey, amount: u64)
    requires ConstantFeePool(core, c, pool, input, output) && Bounds.Valid(BoundsOracle(core, input, output), amount)
    ensures Execute(c, InitialState(pool, amount)).Ok?
    ensures QuoteForBounds(core, input, output, amount).Ok?
            && QuoteForBounds(core, input, output, amount).value.expectedOutput == Execute(c, InitialState(pool, amount)).value.calculated
  {
    ValidMeansFullySpent(core, c, pool, input, output, amount);
    assert amount > 0 ==> FillsAlike(core.swap(c.zeroForOne, amount), SwapOf(c, pool, amount), amount);
  }

  /**
    The monotone-output requirement on the venue itself: between the cached
    bounds of a constant-fee pool every public quote is valid, and a larger
    amount never returns less.
  */
  lemma PublicQuoteIsMonotone(v: ByrealClmmVenue, c: Context, pool: PoolState, input: Pubkey, output: Pubkey,
                              bounds: (nat, nat), x: u64, y: u64)
    requires v.initialized && ConstantFeePool(v.core, c, pool, input, output)
    requires v.CachedBounds(input, output) == Some(bounds) && SearchedBounds(v.core, input, output, bounds)
    requires bounds.0 <= x <= y <= bounds.1
    ensures var small, large := v.PublicQuote(ExactIn, input, output, x), v.PublicQuote(ExactIn, input, output, y);
            && Bounds.ValidQuote(small) && Bounds.ValidQuote(large)
            && small.value.expectedOutput <= large.value.expectedOutput
  {
    QuotableIsConvex(v.core, c, pool, input, output, bounds.0, x, bounds.1);
    QuotableIsConvex(v.core, c, pool, input, output, bounds.0, y, bounds.1);
    PublicQuoteAsSearched(v, c, input, output, x);
    PublicQuoteAsSearched(v, c, input, output, y);
    QuotedOutputIsRun(v.core, c, pool, input, output, x);
    QuotedOutputIsRun(v.core, c, pool, input, output, y);
    MonotoneSwap(c, pool, x, y);
  }

  // --- from a snapshot of the pool ---

  /**
    The pool quotes by simulating on the snapshot `m`, which need not hold every
    flagged array; the arithmetic of runs over the part it shows does not fail.
  */
  ghost predicate SnapshotPool(core: Core, m: TickMap, c: Context, pool: PoolState, input: Pubkey, output: Pubkey) {
    && QuotesAtOneRate(core, c, input, output)
    && Consistent(m, c, pool) && StepMonotone(c.math)
    && (forall amount: nat :: Placed(c, InitialState(pool, amount)))
    && (forall amount: u64 :: amount > 0 ==> Answers(m, c, pool, amount, core.swap(c.zeroForOne, amount)))
    && (forall amount: u64 :: RunsClean(Near(m, c, pool.tickCurrent), InitialState(pool, amount)))
  }

  /** On any snapshot the simulator fills exactly the amounts the near part of the pool fills. */
  lemma SnapshotFillsAlike(m: TickMap, c: Context, pool: PoolState, amount: nat, r: Result<SwapResult, SwapError>)
    requires Consistent(m, c, pool) && amount > 0 && Answers(m, c, pool, amount, r)
    ensures Placed(Near(m, c, pool.tickCurrent), InitialState(pool, amount))
    ensures FillsAlike(r, SwapOf(Near(m, c, pool.tickCurrent), pool, amount), amount)
  {
    hide Sound, Search, NearNets;
    var near, init := Near(m, c, pool.tickCurrent), InitialState(pool, amount);
    assert Placed(c, init) && Placed(near, init);
    var run :| Refines(m, c, init, run) && r == Summary(amount, run, c.feeRate);
  }

  lemma SnapshotIsConstantFee(core: Core, m: TickMap, c: Context, pool: PoolState, input: Pubkey, output: Pubkey)
    requires SnapshotPool(core, m, c, pool, input, output)
    ensures ConstantFeePool(core, Near(m, c, pool.tickCurrent), pool, input, output)
  {
    var near := Near(m, c, pool.tickCurrent);
    forall amount: nat
      ensures Placed(near, InitialState(pool, amount))
    {
      assert Placed(c, InitialState(pool, amount));
    }
    hide Consistent, Placed, Trusted, Answers, NearNets, FillsAlike;
    forall amount: u64 | amount > 0
      ensures FillsAlike(core.swap(c.zeroForOne, amount), SwapOf(near, pool, amount), amount)
    {
      SnapshotFillsAlike(m, c, pool, amount, core.swap(c.zeroForOne, amount));
    }
  }

  /**
    The accuracy of cached bounds for whatever tick arrays were loaded: the
    quotable amounts are an interval, each of them is filled by the loaded part
    of the pool alone, and its ends decide the bounds.
  */
  lemma SnapshotBoundsAreAccurate(core: Core, m: TickMap, c: Context, pool: PoolState, input: Pubkey, output: Pubkey,
                                  bounds: (nat, nat))
    returns (lowest: nat, highest: nat)
    requires SnapshotPool(core, m, c, pool, input, output) && SearchedBounds(core, input, output, bounds)
    ensures Bounds.AcceptsInterval(BoundsOracle(core, input, output), lowest, highest)
    ensures Bounds.LowerEndFor(lowest, bounds.0) && Bounds.UpperEndFor(lowest, highest, bounds.1)
    ensures lowest <= bounds.0 <= lowest + 63 && highest - 65 <= bounds.1 <= highest
    ensures forall amount: u64 :: Placed(Near(m, c, pool.tickCurrent), InitialState(pool, amount)) &&
              (lowest <= amount <= highest <==>
                amount > 0 && !StopsShort(Near(m, c, pool.tickCurrent), InitialState(pool, amount))
                && Execute(Near(m, c, pool.tickCurrent), InitialState(pool, amount)).value.calculated > 0)
  {
    SnapshotIsConstantFee(core, m, c, pool, input, output);
    var near := Near(m, c, pool.tickCurrent);
    lowest, highest := CachedBoundsAreAccurate(core, near, pool, input, output, bounds);
    forall amount: u64
      ensures Placed(near, InitialState(pool, amount))
      ensures lowest <= amount <= highest <==>
                amount > 0 && !StopsShort(near, InitialState(pool, amount))
                && Execute(near, InitialState(pool, amount)).value.calculated > 0
    {
      ValidMeansFullySpent(core, near, pool, input, output, amount);
    }
  }

  /** Monotone public quotes for whatever tick arrays were loaded. */
  lemma SnapshotQuoteIsMonotone(v: ByrealClmmVenue, m: TickMap, c: Context, pool: PoolState, input: Pubkey, output: Pubkey,
                                bounds: (nat, nat), x: u64, y: u64)
    requires v.initialized && SnapshotPool(v.core, m, c, pool, input, output)
    requires v.CachedBounds(input, output) == Some(bounds) && SearchedBounds(v.core, input, output, bounds)
    requires bounds.0 <= x <= y <= bounds.1
    ensures var small, large := v.PublicQuote(ExactIn, input, output, x), v.PublicQuote(ExactIn, input, output, y);
            && Bounds.ValidQuote(small) && Bounds.ValidQuote(large)
            && small.value.expectedOutput <= large.value.expectedOutput
  {
    SnapshotIsConstantFee(v.core, m, c, pool, input, output);
    PublicQuoteIsMonotone(v, Near(m, c, pool.tickCurrent), pool, input, output, bounds, x, y);
  }
}
