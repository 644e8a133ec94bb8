/**
  The venue adapter: a core that updates may leave half-refreshed, an
  `initialized` flag that is never taken back, and a pair of cached bounds
  replaced only as a whole.
*/
module Venue {
  import opened Common
  import opened CurvePrice
  import Bounds

  datatype SwapType = ExactIn | ExactOut

  datatype TokenInfo = TokenInfo(pubkey: Pubkey, decimals: int)

  /** What the outside world answers during one `update_state`; a core may be left changed by a failed load. */
  datatype Refresh = Refresh(
    baseFetched: bool, baseCore: Core, baseLoaded: bool,
    fullFetched: bool, fullCore: Core, fullLoaded: bool,
    epoch: Option<nat>, tokenInfo: Option<seq<TokenInfo>>)
  {
    predicate CoreLoads() {
      baseFetched && baseLoaded && fullFetched && fullLoaded
    }
  }

  /** The quote the bounds search asks for: no price bound, price dropped. */
  function QuoteForBounds(core: Core, input: Pubkey, output: Pubkey, amount: nat): Result<Bounds.QuoteResult, VenueError> {
    var q :- Quote(core, input, output, amount, None);
    Ok(Bounds.QuoteResult(input, output, q.inAmount, q.outAmount, q.notEnoughLiquidity, 0.0))
  }

  function BoundsOracle(core: Core, input: Pubkey, output: Pubkey): Bounds.Oracle<VenueError> {
    (amount: nat) => QuoteForBounds(core, input, output, amount)
  }

  class ByrealClmmVenue {
    var core: Core
    var tokenInfo: seq<TokenInfo>
    var initialized: bool
    var currentEpoch: nat
    var forwardBounds: Option<(nat, nat)>
    var backwardBounds: Option<(nat, nat)>

    ghost predicate Valid()
      reads this
    {
      initialized ==> forwardBounds.Some? && backwardBounds.Some?
    }

    constructor (core: Core, tokenInfo: seq<TokenInfo>)
      ensures Valid() && !initialized && this.core == core
      ensures forwardBounds.None? && backwardBounds.None?
    {
      this.core := core;
      this.tokenInfo := tokenInfo;
      initialized := false;
      currentEpoch := 0;
      forwardBounds, backwardBounds := None, None;
    }

    function CachedBounds(input: Pubkey, output: Pubkey): Option<(nat, nat)>
      reads this
    {
      if input == core.mint0 && output == core.mint1 then forwardBounds
      else if input == core.mint1 && output == core.mint0 then backwardBounds
      else None
    }

    /** The public `quote`. */
    function PublicQuote(swapType: SwapType, input: Pubkey, output: Pubkey, amount: nat): Result<Bounds.QuoteResult, VenueError>
      reads this
    {
      if !initialized then Err(NotInitialized)
      else if swapType != ExactIn then Err(ExactOutNotSupported)
      else
        var cached := CachedBounds(input, output);
        var upper := if cached.Some? then Some(cached.value.1) else None;
        var q :- Quote(core, input, output, amount, upper);
        Ok(Bounds.QuoteResult(input, output, q.inAmount, q.outAmount, q.notEnoughLiquidity,
                              if q.notEnoughLiquidity then 0.0 else q.price))
    }

    /** The public `bounds` by token index. */
    function PublicBounds(input: nat, output: nat): Result<(nat, nat), VenueError>
      reads this
    {
      if input == 0 && output == 1 then
        if forwardBounds.Some? then Ok(forwardBounds.value) else Err(VenueError.BoundarySearchFailed)
      else if input == 1 && output == 0 then
        if backwardBounds.Some? then Ok(backwardBounds.value) else Err(VenueError.BoundarySearchFailed)
      else if input >= |tokenInfo| || output >= |tokenInfo| then Err(InvalidMint)
      else Err(VenueError.BoundarySearchFailed)
    }

    /** An initialized venue answers `bounds` in both directions, with the pair that shapes its quotes. */
    lemma InitializedAnswers()
      requires Valid() && initialized && core.mint0 != core.mint1
      ensures CachedBounds(core.mint0, core.mint1).Some? && CachedBounds(core.mint1, core.mint0).Some?
      ensures PublicBounds(0, 1) == Ok(CachedBounds(core.mint0, core.mint1).value)
      ensures PublicBounds(1, 0) == Ok(CachedBounds(core.mint1, core.mint0).value)
    {
    }

    /** `amount` quotes validly in public, with the amounts the bounds search saw for it. */
    ghost predicate QuotesAsSearched(input: Pubkey, output: Pubkey, amount: nat)
      reads this
    {
      var searched := QuoteForBounds(core, input, output, amount);
      var quoted := PublicQuote(ExactIn, input, output, amount);
      && Bounds.ValidQuote(searched) && Bounds.ValidQuote(quoted)
      && quoted.Ok? && !quoted.value.notEnoughLiquidity && quoted.value.expectedOutput > 0
      && quoted.value.amount == searched.value.amount
      && quoted.value.expectedOutput == searched.value.expectedOutput
    }

    /** What a direction's cached bounds are worth right after they were found. */
    ghost predicate EndsQuote(input: Pubkey, output: Pubkey, bounds: (nat, nat))
      reads this
    {
      && 1 <= bounds.0 <= bounds.1 <= U64_MAX
      && QuotesAsSearched(input, output, bounds.1)
      && (!core.dynamicFee || bounds.0 == bounds.1 ==> QuotesAsSearched(input, output, bounds.0))
    }

    /** `refresh_bounds_cache`: both directions are searched before either is stored. */
    method RefreshBoundsCache() returns (r: Result<(), VenueError>)
      modifies this`forwardBounds, this`backwardBounds
      ensures r.Ok? <==> Quotable(core)
      ensures r.Err? ==> forwardBounds == old(forwardBounds) && backwardBounds == old(backwardBounds)
      ensures r.Ok? ==>
                && forwardBounds.Some? && backwardBounds.Some?
                && SearchedBounds(core, core.mint0, core.mint1, forwardBounds.value)
                && SearchedBounds(core, core.mint1, core.mint0, backwardBounds.value)
    {
      ghost var probes;
      var forward;
      forward, probes := Bounds.FindBoundaries(BoundsOracle(core, core.mint0, core.mint1));
      if forward.Err? {
        return Err(VenueError.NoQuotableValue);
      }
      var backward;
      backward, probes := Bounds.FindBoundaries(BoundsOracle(core, core.mint1, core.mint0));
      if backward.Err? {
        return Err(VenueError.NoQuotableValue);
      }
      forwardBounds, backwardBounds := Some(forward.value), Some(backward.value);
      return Ok(());
    }

    /**
      `update_state`.  Whatever fails, the flag and the bounds keep their old
      values, so an initialized venue always has both bounds; after a success the
      cached ends quote in public as the search saw them.
    */
    method UpdateState(u: Refresh) returns (r: Result<(), VenueError>)
      requires Valid()
      modifies this
      ensures Valid()
      ensures r.Err? ==> initialized == old(initialized)
                         && forwardBounds == old(forwardBounds) && backwardBounds == old(backwardBounds)
      ensures !u.baseFetched ==> core == old(core)
      ensures u.baseFetched && !(u.baseLoaded && u.fullFetched) ==> core == u.baseCore
      ensures u.baseFetched && u.baseLoaded && u.fullFetched ==> core == u.fullCore
      ensures currentEpoch == (if u.CoreLoads() && u.epoch.Some? then u.epoch.value else old(currentEpoch))
      ensures tokenInfo == (if u.CoreLoads() && u.epoch.Some? && u.tokenInfo.Some? then u.tokenInfo.value else old(tokenInfo))
      ensures r.Ok? <==> u.CoreLoads() && u.epoch.Some? && u.tokenInfo.Some? && Quotable(core)
      ensures r.Ok? ==> initialized
      ensures r.Ok? ==> forwardBounds.Some? && SearchedBounds(core, core.mint0, core.mint1, forwardBounds.value)
      ensures r.Ok? ==> backwardBounds.Some? && SearchedBounds(core, core.mint1, core.mint0, backwardBounds.value)
      ensures r.Ok? ==> forwardBounds.Some? && EndsQuote(core.mint0, core.mint1, forwardBounds.value)
      ensures r.Ok? ==> backwardBounds.Some? && EndsQuote(core.mint1, core.mint0, backwardBounds.value)
    {
      if !u.baseFetched {
        return Err(FetchFailed);
      }
      core := u.baseCore;
      if !u.baseLoaded {
        return Err(MissingState);
      }
      if !u.fullFetched {
        return Err(FetchFailed);
      }
      core := u.fullCore;
      if !u.fullLoaded {
        return Err(MissingState);
      }
      if u.epoch.None? {
        return Err(MissingState);
      }
      currentEpoch := u.epoch.value;
      if u.tokenInfo.None? {
        return Err(DeserializationFailed);
      }
      tokenInfo := u.tokenInfo.value;
      var refreshed := RefreshBoundsCache();
      if refreshed.Err? {
        return Err(refreshed.error);
      }
      initialized := true;
      SearchedEndsQuote(core.mint0, core.mint1, forwardBounds.value);
      SearchedEndsQuote(core.mint1, core.mint0, backwardBounds.value);
      return Ok(());
    }

    lemma SearchedEndsQuote(input: Pubkey, output: Pubkey, bounds: (nat, nat))
      requires initialized && SearchedBounds(core, input, output, bounds)
      requires CachedBounds(input, output) == Some(bounds)
      ensures EndsQuote(input, output, bounds)
    {
      BoundIsInert(core, input, output, bounds.1, bounds.1);
      if !core.dynamicFee || bounds.0 == bounds.1 {
        BoundIsInert(core, input, output, bounds.0, bounds.1);
      }
    }
  }

  /** Both directions have a quotable power of two. */
  ghost predicate Quotable(core: Core) {
    && !Bounds.NoValidPower(BoundsOracle(core, core.mint0, core.mint1))
    && !Bounds.NoValidPower(BoundsOracle(core, core.mint1, core.mint0))
  }

  ghost predicate SearchedBounds(core: Core, input: Pubkey, output: Pubkey, bounds: (nat, nat)) {
    && 1 <= bounds.0 <= bounds.1 <= U64_MAX
    && Bounds.Valid(BoundsOracle(core, input, output), bounds.0)
    && Bounds.Valid(BoundsOracle(core, input, output), bounds.1)
    && Bounds.ExactEnds(BoundsOracle(core, input, output), bounds.0, bounds.1)
  }
}
