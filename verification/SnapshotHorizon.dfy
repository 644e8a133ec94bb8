/**
  How far a snapshot carries a swap: the arrays an update loads against the
  first array the simulator can find missing.
*/
module SnapshotHorizon {
  import opened Common
  import opened TickGrid
  import opened ArrayBitmaps
  import opened Navigator
  import opened SwapErrors
  import opened SwapRun
  import opened SwapSimulator
  import opened TickArrayCollector

  /** `starts` lists consecutive flagged arrays, all loaded, from the first one a swap at `tick` needs. */
  ghost predicate LoadedAhead(m: TickMap, zeroForOne: bool, tick: int, starts: seq<int>)
    requires m.Valid()
  {
    && |starts| > 0 && Consecutive(m.bitmaps.Flagged(), zeroForOne, starts)
    && (forall i :: 0 <= i < |starts| ==> m.HasArray(starts[i]))
    && IsFirstFlagged(m.bitmaps.Flagged(), zeroForOne, Origin(m, tick), starts[0])
  }

  /** The plain run never complains about missing data. */
  lemma {:induction false} PlainRunHasData(c: Context, s: SwapState)
    requires Trusted(c) && (Done(c, s) || Placed(c, s)) && Execute(c, s).Err?
    ensures !Execute(c, s).error.IsDataError()
    decreases Measure(c, s)
  {
    if Iterate(c, s).Ok? {
      IterationProgress(c, s);
      PlainRunHasData(c, Iterate(c, s).value);
    }
  }

  /** No flagged array lies between the listed ones. */
  lemma {:induction false} NothingBetween(m: TickMap, zeroForOne: bool, tick: int, starts: seq<int>, i: nat, u: int)
    requires m.Valid() && LoadedAhead(m, zeroForOne, tick, starts) && i < |starts|
    requires u in m.bitmaps.Flagged() && NotBefore(zeroForOne, Origin(m, tick), u) && NotBefore(zeroForOne, u, starts[i])
    ensures u in starts
  {
    if i > 0 && u != starts[i] {
      assert IsNextFlagged(m.bitmaps.Flagged(), zeroForOne, starts[i - 1], starts[i]);
      NothingBetween(m, zeroForOne, tick, starts, i - 1, u);
    }
  }

  /** With the extension present, a swap gets to see every tick of the listed arrays. */
  lemma ListedTicksAreNear(m: TickMap, zeroForOne: bool, tick: int, starts: seq<int>, t: int)
    requires m.Valid() && LoadedAhead(m, zeroForOne, tick, starts) && m.bitmaps.ExtensionAnswers() && m.bitmaps.ChecksAnswer()
    requires t in m.nets && ArrayStart(m.grid, t) in starts
    ensures t in NearNets(m, zeroForOne, Origin(m, tick))
  {
    var s := ArrayStart(m.grid, t);
    var i: nat :| i < |starts| && starts[i] == s;
    forall u | u in m.bitmaps.Flagged() && NotBefore(zeroForOne, Origin(m, tick), u) && Beyond(zeroForOne, u, s)
      ensures Passable(m, zeroForOne, u)
    {
      NothingBetween(m, zeroForOne, tick, starts, i, u);
      FlaggedIsStart(m, u);
    }
  }

  /**
    The simulator reports a missing array only beyond every array loaded ahead,
    only when it is the first one missing, and only for amounts that use up all
    the ticks before it.
  */
  lemma MissingReportIsPastHorizon(m: TickMap, c: Context, init: SwapState, starts: seq<int>, s: int)
    requires m.Valid() && Trusted(c) && c.nets == m.nets && Placed(c, init)
    requires LoadedAhead(m, c.zeroForOne, init.tick, starts)
    requires Refines(m, c, init, Err(MissingTickArray(s)))
    ensures Beyond(c.zeroForOne, starts[|starts| - 1], s)
    ensures s in m.bitmaps.Flagged() && !m.HasArray(s) && Passed(m, c.zeroForOne, Origin(m, init.tick), s)
    ensures Execute(Near(m, c, init.tick), init) == Err(LiquidityInsufficient)
  {
    hide Sound, Search, NearNets, Enterable, Passed;
    if Execute(c, init).Err? { PlainRunHasData(c, init); }
    var origin := Origin(m, init.tick);
    assert Obstructs(m, c.zeroForOne, origin, MissingTickArray(s));
    var at :| Obstruction(m, c.zeroForOne, origin, at, MissingTickArray(s));
    assert at == s by { ObstructionIsThere(m, c.zeroForOne, origin, at, s); }
    var flags, loaded := m.bitmaps.Flagged(), set u | u in m.bitmaps.Flagged() && m.HasArray(u);
    MissingOnlyPastHorizon(flags, c.zeroForOne, starts, loaded, s);
  }

  /** A missing-array report names the array at which the walk stopped. */
  lemma ObstructionIsThere(m: TickMap, zeroForOne: bool, origin: int, at: int, s: int)
    requires m.Valid() && IsStart(m.grid, origin) && Obstruction(m, zeroForOne, origin, at, MissingTickArray(s))
    ensures at == s && !m.HasArray(s)
  {
  }

  /** The arrays an update asks for, once all of them are loaded, are such a list. */
  lemma UpdateLoadsAhead(m: TickMap, w: Walk, zeroForOne: bool, tick: int)
    requires m.Valid() && WalkOk(w) && w.flags == m.bitmaps.Flagged() && w.origin == Origin(m, tick) && w.first(zeroForOne).Some?
    requires forall s :: s in WalkStarts(w, w.first(zeroForOne).value, zeroForOne, MAX_ONE_SIDE) ==> m.HasArray(s)
    ensures LoadedAhead(m, zeroForOne, tick, WalkStarts(w, w.first(zeroForOne).value, zeroForOne, MAX_ONE_SIDE))
  {
    WalkIsConsecutive(w, w.first(zeroForOne).value, zeroForOne, MAX_ONE_SIDE);
  }
}
