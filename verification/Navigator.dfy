/**
  The stateful navigator that finds the next initialized tick across tick
  arrays (`init_tick_nav_state`, `find_next_initialized_tick_with_nav`).
*/
module Navigator {
  import opened Common
  import opened TickGrid
  import opened TickArrays
  import opened ArrayBitmaps
  import opened SwapErrors

  /** The navigator's view of a pool; `nets` is the chain's truth, `loaded` the arrays in the snapshot. */
  datatype TickMap = TickMap(grid: Grid, nets: map<int, int>, bitmaps: Bitmaps, loaded: seq<TickArrayState>) {
    ghost predicate Valid() {
      && grid.Valid()
      && Sound(grid, bitmaps)
      && GridTicks(grid, nets)
      && (forall t :: t in nets ==> ArrayStart(grid, t) in bitmaps.Flagged())
      && (forall a :: a in loaded ==> Agrees(grid, nets, a))
    }

    predicate HasArray(s: int) {
      FindLoaded(loaded, s).Some?
    }

    /** Every flagged array and the extension account are present. */
    ghost predicate Complete() {
      && bitmaps.ExtensionAnswers() && bitmaps.ChecksAnswer()
      && (forall s :: s in bitmaps.Flagged() ==> HasArray(s))
    }
  }

  /** `loaded_tick_array_by_start_index`. */
  function FindLoaded(loaded: seq<TickArrayState>, start: int): (r: Option<TickArrayState>)
    ensures r.Some? ==> r.value in loaded && r.value.startTick == start
  {
    if loaded == [] then None
    else if loaded[0].startTick == start then Some(loaded[0])
    else FindLoaded(loaded[1..], start)
  }

  class TickNavState {
    var isMatch: bool
    var start: int

    constructor (isMatch: bool, start: int)
      ensures this.isMatch == isMatch && this.start == start
    {
      this.isMatch := isMatch;
      this.start := start;
    }
  }

  /**
    What links the cursor to the current tick.  A matched cursor has every tick
    ahead either in its own array together with `cur`, or strictly beyond; an
    unmatched one stands on the first flagged array past the current one.
  */
  ghost predicate Linked(m: TickMap, zeroForOne: bool, cur: int, isMatch: bool, start: int)
    requires m.grid.Valid()
  {
    && start in m.bitmaps.Flagged()
    && (forall t :: t in m.nets && Beyond(zeroForOne, start, ArrayStart(m.grid, t)) ==> Ahead(zeroForOne, cur, t))
    && (forall t :: t in m.nets && Ahead(zeroForOne, cur, t) ==>
          || Beyond(zeroForOne, start, ArrayStart(m.grid, t))
          || (ArrayStart(m.grid, t) == start && (isMatch ==> ArrayStart(m.grid, cur) == start)))
    && (!isMatch ==> Beyond(zeroForOne, ArrayStart(m.grid, cur), start))
  }

  /** Everything still ahead lies strictly beyond the cursor's array. */
  ghost predicate Exhausted(m: TickMap, zeroForOne: bool, cur: int, start: int)
    requires m.grid.Valid()
  {
    forall t :: t in m.nets && Ahead(zeroForOne, cur, t) ==> Beyond(zeroForOne, start, ArrayStart(m.grid, t))
  }

  lemma ScannedMeansExhausted(m: TickMap, zeroForOne: bool, cur: int, isMatch: bool, start: int)
    requires m.Valid() && Linked(m, zeroForOne, cur, isMatch, start)
    requires ArrayStart(m.grid, cur) == start ==> NoneAhead(Covered(m.grid, m.nets, start), zeroForOne, cur)
    requires !isMatch ==> Covered(m.grid, m.nets, start) == map[]
    ensures Exhausted(m, zeroForOne, cur, start)
  {
    var covered := Covered(m.grid, m.nets, start);
    forall t | t in m.nets && Ahead(zeroForOne, cur, t)
      ensures Beyond(zeroForOne, start, ArrayStart(m.grid, t))
    {
      assert t in covered || ArrayStart(m.grid, t) != start;
    }
  }

  lemma UnmatchedIsAhead(m: TickMap, zeroForOne: bool, cur: int, start: int)
    requires m.Valid() && Beyond(zeroForOne, ArrayStart(m.grid, cur), start)
    ensures forall t :: t in Covered(m.grid, m.nets, start) ==> Ahead(zeroForOne, cur, t)
  {
    forall t | t in Covered(m.grid, m.nets, start)
      ensures Ahead(zeroForOne, cur, t)
    {
      if zeroForOne && t > cur { ArrayStartMonotone(m.grid, cur, t); }
      if !zeroForOne && t <= cur { ArrayStartMonotone(m.grid, t, cur); }
    }
  }

  /** Order of ticks follows order of their arrays. */
  lemma ArrayOrder(g: Grid, zeroForOne: bool, t: int, u: int)
    requires g.Valid() && Beyond(zeroForOne, ArrayStart(g, t), ArrayStart(g, u))
    ensures Beyond(zeroForOne, t, u)
  {
    if zeroForOne && t <= u { ArrayStartMonotone(g, t, u); }
    if !zeroForOne && u <= t { ArrayStartMonotone(g, u, t); }
  }

  /** The array's own nearest tick is the pool's nearest when the cursor is linked. */
  lemma NearestInCursorArray(m: TickMap, zeroForOne: bool, cur: int, isMatch: bool, start: int, t: int)
    requires m.Valid() && Linked(m, zeroForOne, cur, isMatch, start)
    requires IsNearest(Covered(m.grid, m.nets, start), zeroForOne, cur, t)
    ensures IsNearest(m.nets, zeroForOne, cur, t)
  {
    forall u | u in m.nets && Ahead(zeroForOne, cur, u)
      ensures NotBefore(zeroForOne, t, u)
    {
      if ArrayStart(m.grid, u) == start {
        assert u in Covered(m.grid, m.nets, start);
      } else {
        ArrayOrder(m.grid, zeroForOne, t, u);
      }
    }
  }

  /** After an array is exhausted the cursor moves to the next flagged one and stays linked. */
  lemma AdvanceKeepsLink(m: TickMap, zeroForOne: bool, cur: int, isMatch: bool, start: int, next: int)
    requires m.Valid() && Linked(m, zeroForOne, cur, isMatch, start) && Exhausted(m, zeroForOne, cur, start)
    requires IsNextFlagged(m.bitmaps.Flagged(), zeroForOne, start, next)
    ensures Covered(m.grid, m.nets, next) == map[] ==> Linked(m, zeroForOne, cur, true, next)
    ensures forall t :: IsFirst(Covered(m.grid, m.nets, next), zeroForOne, t) ==> IsNearest(m.nets, zeroForOne, cur, t)
  {
    if Covered(m.grid, m.nets, next) == map[] {
      forall t | t in m.nets
        ensures ArrayStart(m.grid, t) != next
      {
        assert t !in Covered(m.grid, m.nets, next);
      }
    }
    forall t, u | IsFirst(Covered(m.grid, m.nets, next), zeroForOne, t) && u in m.nets && Ahead(zeroForOne, cur, u)
      ensures NotBefore(zeroForOne, t, u)
    {
      if ArrayStart(m.grid, u) == next {
        assert u in Covered(m.grid, m.nets, next);
      } else {
        ArrayOrder(m.grid, zeroForOne, t, u);
      }
    }
  }

  lemma AdvanceShrinks(flags: set<int>, zeroForOne: bool, start: int, next: int)
    requires next in flags && Beyond(zeroForOne, start, next)
    ensures FlagsBeyond(flags, zeroForOne, next) < FlagsBeyond(flags, zeroForOne, start)
  {
    assert next in FlagsBeyond(flags, zeroForOne, start) - FlagsBeyond(flags, zeroForOne, next);
  }

  /** Crossing the tick just found leaves the cursor linked to the new current tick. */
  lemma CrossingKeepsLink(m: TickMap, zeroForOne: bool, t: int)
    requires m.Valid() && t in m.nets
    ensures Linked(m, zeroForOne, if zeroForOne then t - 1 else t, true, ArrayStart(m.grid, t))
  {
    var g, cur := m.grid, if zeroForOne then t - 1 else t;
    forall u | u in m.nets && Beyond(zeroForOne, ArrayStart(g, t), ArrayStart(g, u))
      ensures Ahead(zeroForOne, cur, u)
    {
      ArrayOrder(g, zeroForOne, t, u);
    }
    forall u | u in m.nets && Ahead(zeroForOne, cur, u)
      ensures || Beyond(zeroForOne, ArrayStart(g, t), ArrayStart(g, u))
              || (ArrayStart(g, u) == ArrayStart(g, t) == ArrayStart(g, cur))
    {
      if zeroForOne {
        ArrayStartMonotone(g, u, cur);
        ArrayStartMonotone(g, cur, t);
      } else {
        ArrayStartMonotone(g, t, u);
      }
    }
  }

  // --- how far the snapshot reaches ---

  /** The navigator gets past `s`: its array is there and the search for the next one answers. */
  ghost predicate Passable(m: TickMap, zeroForOne: bool, s: int)
    requires m.Valid()
  {
    m.HasArray(s) && IsStart(m.grid, s) && Search(m.grid, m.bitmaps, s, zeroForOne).Ok?
  }

  /** Every flagged array from `origin` up to but excluding `s` can be passed. */
  ghost predicate Passed(m: TickMap, zeroForOne: bool, origin: int, s: int)
    requires m.Valid()
  {
    forall u :: u in m.bitmaps.Flagged() && NotBefore(zeroForOne, origin, u) && Beyond(zeroForOne, u, s)
      ==> Passable(m, zeroForOne, u)
  }

  /** A swap whose current array is `origin` finds the array it starts from. */
  ghost predicate Enterable(m: TickMap, zeroForOne: bool, origin: int)
    requires m.Valid() && IsStart(m.grid, origin)
  {
    && m.bitmaps.Check(origin).Some?
    && (origin in m.bitmaps.Flagged() || Search(m.grid, m.bitmaps, origin, zeroForOne).Ok?)
  }

  /** The swap gets as far as reading array `s`. */
  ghost predicate Reachable(m: TickMap, zeroForOne: bool, origin: int, s: int)
    requires m.Valid() && IsStart(m.grid, origin)
  {
    Enterable(m, zeroForOne, origin) && Passed(m, zeroForOne, origin, s) && m.HasArray(s)
  }

  /** Where and why a swap starting in `origin` finds its data missing. */
  ghost predicate Obstruction(m: TickMap, zeroForOne: bool, origin: int, at: int, e: SwapError)
    requires m.Valid() && IsStart(m.grid, origin)
  {
    && Enterable(m, zeroForOne, origin) && at in m.bitmaps.Flagged() && IsStart(m.grid, at)
    && NotBefore(zeroForOne, origin, at) && Passed(m, zeroForOne, origin, at)
    && (if m.HasArray(at) then Search(m.grid, m.bitmaps, at, zeroForOne) == Err(e) else e == MissingTickArray(at))
  }

  /** `e` is what a swap starting in `origin` is told when it needs the data the snapshot lacks. */
  ghost predicate Obstructs(m: TickMap, zeroForOne: bool, origin: int, e: SwapError)
    requires m.Valid() && IsStart(m.grid, origin)
  {
    || (e.IsBitmapError() && !Enterable(m, zeroForOne, origin))
    || (exists at :: Obstruction(m, zeroForOne, origin, at, e))
  }

  /** The snapshot ends before the pool does. */
  ghost predicate Obstructed(m: TickMap, zeroForOne: bool, origin: int)
    requires m.Valid() && IsStart(m.grid, origin)
  {
    exists e :: Obstructs(m, zeroForOne, origin, e)
  }

  /** A complete snapshot obstructs no swap. */
  lemma CompleteIsOpen(m: TickMap, zeroForOne: bool, origin: int)
    requires m.Valid() && IsStart(m.grid, origin) && m.Complete()
    ensures !Obstructed(m, zeroForOne, origin)
  {
  }

  /** A walk that has passed every flagged array meets no obstruction. */
  lemma AllPassedIsOpen(m: TickMap, zeroForOne: bool, origin: int)
    requires m.Valid() && IsStart(m.grid, origin) && Enterable(m, zeroForOne, origin) && AllPassed(m, zeroForOne, origin)
    ensures !Obstructed(m, zeroForOne, origin)
  {
    hide Sound, Search;
  }

  /** The ticks a swap starting in `origin` can get to see. */
  ghost function NearNets(m: TickMap, zeroForOne: bool, origin: int): map<int, int>
    requires m.Valid() && IsStart(m.grid, origin)
  {
    map t | t in m.nets && Within(m, zeroForOne, origin, ArrayStart(m.grid, t)) :: m.nets[t]
  }

  ghost predicate Within(m: TickMap, zeroForOne: bool, origin: int, s: int)
    requires m.Valid() && IsStart(m.grid, origin)
  {
    NotBefore(zeroForOne, origin, s) ==> Reachable(m, zeroForOne, origin, s)
  }

  /** Having passed an array, the next flagged one is where the walk stands. */
  lemma PassedExtends(m: TickMap, zeroForOne: bool, origin: int, s: int, next: int)
    requires m.Valid() && Passed(m, zeroForOne, origin, s) && Passable(m, zeroForOne, s)
    requires IsNextFlagged(m.bitmaps.Flagged(), zeroForOne, s, next)
    ensures Passed(m, zeroForOne, origin, next)
  {
  }

  lemma PassedAll(m: TickMap, zeroForOne: bool, origin: int, s: int)
    requires m.Valid() && Passed(m, zeroForOne, origin, s) && AllPassed(m, zeroForOne, s)
    ensures AllPassed(m, zeroForOne, origin)
  {
  }

  /** Two walks in sequence. */
  lemma PassedJoins(m: TickMap, zeroForOne: bool, a: int, b: int, c: int)
    requires m.Valid() && Passed(m, zeroForOne, a, b) && Passed(m, zeroForOne, b, c)
    ensures Passed(m, zeroForOne, a, c)
  {
  }

  /** Every tick still ahead lies past the point where the navigator is stuck. */
  ghost predicate StuckAt(m: TickMap, zeroForOne: bool, cur: int, at: int, e: SwapError)
    requires m.Valid()
  {
    && at in m.bitmaps.Flagged() && IsStart(m.grid, at)
    && (if m.HasArray(at) then Search(m.grid, m.bitmaps, at, zeroForOne) == Err(e) else e == MissingTickArray(at))
    && forall t :: t in m.nets && Ahead(zeroForOne, cur, t) ==>
         if m.HasArray(at) then Beyond(zeroForOne, at, ArrayStart(m.grid, t))
         else NotBefore(zeroForOne, at, ArrayStart(m.grid, t))
  }

  /** Nothing ahead of a stuck navigator is reachable. */
  lemma StuckMeansUnreachable(m: TickMap, zeroForOne: bool, origin: int, cur: int, at: int, e: SwapError, t: int)
    requires m.Valid() && IsStart(m.grid, origin) && NotBefore(zeroForOne, origin, at) && StuckAt(m, zeroForOne, cur, at, e)
    requires t in m.nets && Ahead(zeroForOne, cur, t)
    ensures !Reachable(m, zeroForOne, origin, ArrayStart(m.grid, t))
  {
    assert Passed(m, zeroForOne, origin, ArrayStart(m.grid, t)) && Beyond(zeroForOne, at, ArrayStart(m.grid, t))
      ==> Passable(m, zeroForOne, at);
  }

  /** The walk has passed every flagged array, so nothing is missing. */
  ghost predicate AllPassed(m: TickMap, zeroForOne: bool, origin: int)
    requires m.Valid()
  {
    forall u :: u in m.bitmaps.Flagged() && NotBefore(zeroForOne, origin, u) ==> Passable(m, zeroForOne, u)
  }

  lemma FlaggedIsStart(m: TickMap, s: int)
    requires m.Valid() && s in m.bitmaps.Flagged()
    ensures IsStart(m.grid, s) && InTickRange(m.grid, m.bitmaps, s)
  {
  }

  /** A linked cursor on an array that is not loaded is stuck there. */
  lemma MissingIsStuck(m: TickMap, zeroForOne: bool, cur: int, isMatch: bool, start: int)
    requires m.Valid() && Linked(m, zeroForOne, cur, isMatch, start) && !m.HasArray(start)
    ensures StuckAt(m, zeroForOne, cur, start, MissingTickArray(start)) && !m.Complete()
  {
    FlaggedIsStart(m, start);
    hide Sound;
  }

  /** So is a cursor that just moved from an exhausted array to one that is not loaded. */
  lemma MissingNextIsStuck(m: TickMap, zeroForOne: bool, cur: int, start: int, next: int)
    requires m.Valid() && Exhausted(m, zeroForOne, cur, start) && !m.HasArray(next)
    requires IsNextFlagged(m.bitmaps.Flagged(), zeroForOne, start, next)
    ensures StuckAt(m, zeroForOne, cur, next, MissingTickArray(next)) && !m.Complete()
  {
    FlaggedIsStart(m, next);
    hide Sound;
  }

  /** An exhausted cursor whose search fails is stuck, and one whose search finds nothing has seen everything. */
  lemma SearchEnds(m: TickMap, zeroForOne: bool, origin: int, cur: int, start: int)
    requires m.Valid() && start in m.bitmaps.Flagged() && IsStart(m.grid, start) && m.HasArray(start)
    requires Exhausted(m, zeroForOne, cur, start) && Passed(m, zeroForOne, origin, start)
    ensures var next := Search(m.grid, m.bitmaps, start, zeroForOne);
            && (next.Err? ==> StuckAt(m, zeroForOne, cur, start, next.error) && !m.Complete())
            && (next.Ok? ==> Passable(m, zeroForOne, start))
            && (next.Ok? && NoneFlaggedBeyond(m.bitmaps.Flagged(), zeroForOne, start) ==>
                  NoneAhead(m.nets, zeroForOne, cur) && AllPassed(m, zeroForOne, origin))
  {
    hide Sound, Search;
  }

  /** The three outcomes of `first_initialized_tick_array`, judged against the ground truth. */
  lemma FirstArrayLinks(m: TickMap, zeroForOne: bool, cur: int)
    requires m.Valid()
    ensures ArrayStart(m.grid, cur) in m.bitmaps.Flagged() ==> Linked(m, zeroForOne, cur, true, ArrayStart(m.grid, cur))
    ensures ArrayStart(m.grid, cur) !in m.bitmaps.Flagged() ==>
              forall s :: IsNextFlagged(m.bitmaps.Flagged(), zeroForOne, ArrayStart(m.grid, cur), s)
                          ==> Linked(m, zeroForOne, cur, false, s)
    ensures ArrayStart(m.grid, cur) !in m.bitmaps.Flagged()
            && NoneFlaggedBeyond(m.bitmaps.Flagged(), zeroForOne, ArrayStart(m.grid, cur))
            ==> NoneAhead(m.nets, zeroForOne, cur)
  {
    var g := m.grid;
    forall t | t in m.nets && Ahead(zeroForOne, cur, t)
      ensures NotBefore(zeroForOne, ArrayStart(g, cur), ArrayStart(g, t))
    {
      if zeroForOne { ArrayStartMonotone(g, t, cur); } else { ArrayStartMonotone(g, cur, t); }
    }
    forall t | t in m.nets && Beyond(zeroForOne, ArrayStart(g, cur), ArrayStart(g, t))
      ensures Ahead(zeroForOne, cur, t)
    {
      ArrayOrder(g, zeroForOne, cur, t);
    }
  }

  /** `init_tick_nav_state` with `first_initialized_tick_array`. */
  method InitTickNav(m: TickMap, tickCurrent: int, zeroForOne: bool)
    returns (r: Result<TickNavState, SwapError>)
    requires m.Valid() && m.bitmaps.minTick <= tickCurrent <= m.bitmaps.maxTick
    ensures r.Ok? ==> fresh(r.value) && Linked(m, zeroForOne, tickCurrent, r.value.isMatch, r.value.start)
    ensures r.Err? ==> r.error.LiquidityInsufficient? || r.error.IsBitmapError()
    ensures r.Err? && r.error.LiquidityInsufficient? ==> NoneAhead(m.nets, zeroForOne, tickCurrent)
    ensures var origin := ArrayStart(m.grid, tickCurrent);
            && IsStart(m.grid, origin)
            && (r.Err? && r.error.IsBitmapError() <==> !Enterable(m, zeroForOne, origin))
            && (r.Ok? ==> NotBefore(zeroForOne, origin, r.value.start) && Passed(m, zeroForOne, origin, r.value.start))
            && (r.Err? && r.error.LiquidityInsufficient? ==> AllPassed(m, zeroForOne, origin))
    ensures r.Err? && m.Complete() ==> r.error.LiquidityInsufficient?
  {
    var g, b := m.grid, m.bitmaps;
    var current := ArrayStart(g, tickCurrent);
    FirstArrayLinks(m, zeroForOne, tickCurrent);
    ArrayStartBounds(g, tickCurrent);
    ArrayStartMonotone(g, b.minTick, tickCurrent);
    ArrayStartMonotone(g, tickCurrent, b.maxTick);
    var check: Option<bool>;
    if !b.InDefault(current) {
      if !b.extensionLoaded {
        return Err(MissingBitmapExtension);
      }
      check := b.checkExtension(current);
    } else {
      check := b.checkDefault(current);
    }
    if check.None? {
      return Err(BitmapSearchFailed);
    }
    assert check == b.Check(current);
    if check.value {
      var nav := new TickNavState(true, current);
      return Ok(nav);
    }
    var next := NextInitializedArrayStart(g, b, current, zeroForOne);
    if next.Err? {
      return Err(next.error);
    }
    if next.value.None? {
      return Err(LiquidityInsufficient);
    }
    var unmatched := new TickNavState(false, next.value.value);
    return Ok(unmatched);
  }

  /** The part of the navigator's loop body that looks at the cursor's own array. */
  method ScanCursorArray(m: TickMap, here: TickArrayState, cur: int, zeroForOne: bool, nav: TickNavState)
    returns (hit: Option<int>)
    requires m.Valid() && Linked(m, zeroForOne, cur, nav.isMatch, nav.start)
    requires here in m.loaded && here.startTick == nav.start
    modifies nav`isMatch
    ensures nav.isMatch
    ensures hit.Some? ==> IsNearest(m.nets, zeroForOne, cur, hit.value) && ArrayStart(m.grid, hit.value) == nav.start
    ensures hit.None? ==> Exhausted(m, zeroForOne, cur, nav.start)
  {
    hide Sound, GridTicks, Agrees;
    ghost var wasMatch := nav.isMatch;
    hit := NextInitializedTick(m.grid, m.nets, here, cur, zeroForOne);
    if hit.Some? {
      NearestInCursorArray(m, zeroForOne, cur, wasMatch, nav.start, hit.value);
      return;
    }
    if !nav.isMatch {
      nav.isMatch := true;
      hit := FirstInitializedTick(m.grid, m.nets, here, zeroForOne);
      if hit.Some? {
        UnmatchedIsAhead(m, zeroForOne, cur, nav.start);
        NearestInCursorArray(m, zeroForOne, cur, wasMatch, nav.start, hit.value);
        return;
      }
    }
    ScannedMeansExhausted(m, zeroForOne, cur, wasMatch, nav.start);
  }

  /** `find_next_initialized_tick_with_nav`: answers with the pool's nearest tick, or says truthfully that none is left. */
  method FindNextInitializedTick(m: TickMap, cur: int, zeroForOne: bool, nav: TickNavState)
    returns (r: Result<int, SwapError>)
    requires m.Valid() && Linked(m, zeroForOne, cur, nav.isMatch, nav.start)
    modifies nav
    ensures r.Ok? ==> IsNearest(m.nets, zeroForOne, cur, r.value)
                      && nav.isMatch && nav.start == ArrayStart(m.grid, r.value)
                      && m.HasArray(nav.start)
    ensures NotBefore(zeroForOne, old(nav.start), nav.start) && Passed(m, zeroForOne, old(nav.start), nav.start)
    ensures r.Err? ==> r.error.LiquidityInsufficient? || r.error.IsDataError()
    ensures r.Err? && r.error.LiquidityInsufficient? ==>
              NoneAhead(m.nets, zeroForOne, cur) && AllPassed(m, zeroForOne, old(nav.start))
    ensures r.Err? && r.error.IsDataError() ==> StuckAt(m, zeroForOne, cur, nav.start, r.error)
    ensures r.Err? && m.Complete() ==> r.error.LiquidityInsufficient?
  {
    hide Sound, Search, GridTicks, Agrees, StuckAt, Passable, AllPassed, Exhausted, TickMap.Complete;
    var g := m.grid;
    ghost var origin := nav.start;
    while true
      invariant Linked(m, zeroForOne, cur, nav.isMatch, nav.start)
      invariant NotBefore(zeroForOne, origin, nav.start) && Passed(m, zeroForOne, origin, nav.start)
      decreases FlagsBeyond(m.bitmaps.Flagged(), zeroForOne, nav.start)
    {
      ghost var wasMatch, entry := nav.isMatch, nav.start;
      FlaggedIsStart(m, entry);
      var loaded := FindLoaded(m.loaded, nav.start);
      if loaded.None? {
        MissingIsStuck(m, zeroForOne, cur, wasMatch, entry);
        return Err(MissingTickArray(nav.start));
      }
      var hit := ScanCursorArray(m, loaded.value, cur, zeroForOne, nav);
      if hit.Some? {
        return Ok(hit.value);
      }
      SearchEnds(m, zeroForOne, origin, cur, entry);

      var next := NextInitializedArrayStart(g, m.bitmaps, nav.start, zeroForOne);
      if next.Err? {
        return Err(next.error);
      }
      if next.value.None? {
        return Err(LiquidityInsufficient);
      }
      nav.start := next.value.value;
      AdvanceKeepsLink(m, zeroForOne, cur, wasMatch, entry, nav.start);
      PassedExtends(m, zeroForOne, origin, entry, nav.start);
      assert FlagsBeyond(m.bitmaps.Flagged(), zeroForOne, nav.start) < FlagsBeyond(m.bitmaps.Flagged(), zeroForOne, entry) by {
        AdvanceShrinks(m.bitmaps.Flagged(), zeroForOne, entry, nav.start);
      }

      loaded := FindLoaded(m.loaded, nav.start);
      if loaded.None? {
        MissingNextIsStuck(m, zeroForOne, cur, entry, nav.start);
        return Err(MissingTickArray(nav.start));
      }
      var first := FirstInitializedTick(g, m.nets, loaded.value, zeroForOne);
      if first.Some? {
        return Ok(first.value);
      }
    }
  }
}
