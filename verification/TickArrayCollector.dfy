/**
  Which tick arrays a swap instruction carries: `get_swap_tick_arrays` walks the
  flagged arrays in swap order, `live_directional_tick_arrays` keeps the loaded ones.
*/
module TickArrayCollector {
  import opened Common
  import opened TickGrid
  import opened ArrayBitmaps

  const MAX_ONE_SIDE: nat := 6

  /**
    The pool state's own bitmap walk, from the CLMM crate: `origin` is the start
    of the pool's current array, `None` an error or the end of the walk.
  */
  datatype Walk = Walk(
    origin: int,
    flags: set<int>,
    first: bool -> Option<int>,
    next: (int, bool) -> Option<int>)

  /** `s` is flagged, at or past `origin`, with nothing flagged between. */
  ghost predicate IsFirstFlagged(flags: set<int>, zeroForOne: bool, origin: int, s: int) {
    && s in flags && NotBefore(zeroForOne, origin, s)
    && forall u :: u in flags && NotBefore(zeroForOne, origin, u) ==> NotBefore(zeroForOne, s, u)
  }

  /** The walk starts at the first flagged array from the current one on, and goes on to the next each time. */
  ghost predicate WalkOk(w: Walk) {
    && (forall dir :: w.first(dir).Some? ==> IsFirstFlagged(w.flags, dir, w.origin, w.first(dir).value))
    && (forall s, dir :: w.next(s, dir).Some? ==> IsNextFlagged(w.flags, dir, s, w.next(s, dir).value))
  }

  /** The arrays met in order, none skipped: each is the next flagged one after its predecessor. */
  ghost predicate Consecutive(flags: set<int>, zeroForOne: bool, starts: seq<int>) {
    && (forall i :: 0 <= i < |starts| ==> starts[i] in flags)
    && (forall i :: 0 < i < |starts| ==> IsNextFlagged(flags, zeroForOne, starts[i - 1], starts[i]))
  }

  /** Up to `n` arrays along the walk from `start`. */
  function WalkStarts(w: Walk, start: int, zeroForOne: bool, n: nat): (r: seq<int>)
    ensures |r| <= n && (n > 0 ==> |r| > 0 && r[0] == start)
    decreases n
  {
    if n == 0 then []
    else if n == 1 || w.next(start, zeroForOne).None? then [start]
    else [start] + WalkStarts(w, w.next(start, zeroForOne).value, zeroForOne, n - 1)
  }

  /** The walk lists flagged arrays in swap order without a gap, and stops early only at its end. */
  lemma {:induction false} WalkIsConsecutive(w: Walk, start: int, zeroForOne: bool, n: nat)
    requires WalkOk(w) && start in w.flags
    ensures var starts := WalkStarts(w, start, zeroForOne, n);
            && Consecutive(w.flags, zeroForOne, starts)
            && (0 < |starts| < n ==> w.next(starts[|starts| - 1], zeroForOne).None?)
    decreases n
  {
    if n > 1 && w.next(start, zeroForOne).Some? {
      var next := w.next(start, zeroForOne).value;
      WalkIsConsecutive(w, next, zeroForOne, n - 1);
      var rest := WalkStarts(w, next, zeroForOne, n - 1);
      var starts := [start] + rest;
      forall i | 0 < i < |starts|
        ensures IsNextFlagged(w.flags, zeroForOne, starts[i - 1], starts[i])
      {
        assert starts[i] == rest[i - 1];
        if i > 1 { assert starts[i - 1] == rest[i - 2]; }
      }
    }
  }

  lemma {:induction false} WalkExtends(w: Walk, start: int, zeroForOne: bool, n: nat)
    requires n > 0
    ensures var starts := WalkStarts(w, start, zeroForOne, n);
            var next := w.next(starts[|starts| - 1], zeroForOne);
            WalkStarts(w, start, zeroForOne, n + 1)
            == if |starts| < n || next.None? then starts else starts + [next.value]
    decreases n
  {
    if n > 1 && w.next(start, zeroForOne).Some? {
      WalkExtends(w, w.next(start, zeroForOne).value, zeroForOne, n - 1);
    }
  }

  /** The collecting loop shared by both collectors. */
  method WalkFrom(w: Walk, first: int, zeroForOne: bool) returns (starts: seq<int>)
    ensures starts == WalkStarts(w, first, zeroForOne, MAX_ONE_SIDE)
  {
    starts := [first];
    for i := 1 to MAX_ONE_SIDE
      invariant starts == WalkStarts(w, first, zeroForOne, i)
      invariant |starts| == i
    {
      WalkExtends(w, first, zeroForOne, i);
      var next := w.next(starts[i - 1], zeroForOne);
      if next.None? {
        WalkStops(w, first, zeroForOne, i);
        return;
      }
      starts := starts + [next.value];
    }
  }

  lemma {:induction false} WalkStops(w: Walk, start: int, zeroForOne: bool, n: nat)
    requires 0 < n <= MAX_ONE_SIDE
    requires w.next(WalkStarts(w, start, zeroForOne, n)[|WalkStarts(w, start, zeroForOne, n)| - 1], zeroForOne).None?
    ensures WalkStarts(w, start, zeroForOne, MAX_ONE_SIDE) == WalkStarts(w, start, zeroForOne, n)
    decreases MAX_ONE_SIDE - n
  {
    if n < MAX_ONE_SIDE {
      WalkExtends(w, start, zeroForOne, n);
      WalkStops(w, start, zeroForOne, n + 1);
    }
  }

  /** `get_swap_tick_arrays` by start index, with its fixed-offset fallback when the walk cannot start. */
  method GetSwapTickArrays(w: Walk, g: Grid, tickCurrent: int, zeroForOne: bool) returns (starts: seq<int>)
    requires WalkOk(w) && g.Valid()
    ensures 1 <= |starts| <= 6
    ensures w.first(zeroForOne).Some? ==>
              && starts == WalkStarts(w, w.first(zeroForOne).value, zeroForOne, MAX_ONE_SIDE)
              && starts[0] == w.first(zeroForOne).value && Consecutive(w.flags, zeroForOne, starts)
              && (|starts| < 6 ==> w.next(starts[|starts| - 1], zeroForOne).None?)
    ensures w.first(zeroForOne).None? ==>
              && |starts| == 6 && starts[0] == ArrayStart(g, tickCurrent)
              && forall i :: 1 <= i < 6 ==>
                   InI32(ArrayStart(g, tickCurrent) + (if zeroForOne then -i else i) * (g.spacing * g.size), starts[i])
  {
    var first := w.first(zeroForOne);
    if first.Some? {
      WalkIsConsecutive(w, first.value, zeroForOne, MAX_ONE_SIDE);
      starts := WalkFrom(w, first.value, zeroForOne);
      return;
    }
    var current := ArrayStart(g, tickCurrent);
    starts := [current];
    for i := 1 to MAX_ONE_SIDE
      invariant |starts| == i && starts[0] == current
      invariant forall j :: 1 <= j < i ==>
                  starts[j] == Shifted(current, if zeroForOne then -j * g.Span() else j * g.Span())
    {
      starts := starts + [Shifted(current, if zeroForOne then -i * g.Span() else i * g.Span())];
    }
  }

  /** The arrays of one direction's walk. */
  function Walked(w: Walk, zeroForOne: bool): set<int> {
    match w.first(zeroForOne)
    case None => {}
    case Some(first) => set s | s in WalkStarts(w, first, zeroForOne, MAX_ONE_SIDE)
  }

  /** The start `i` arrays below `current`, saturating. */
  function Below(g: Grid, current: int, i: nat): int {
    Shifted(current, -(i * g.Span()))
  }

  /** The current array and the `n - 1` below it. */
  function FixedBelow(g: Grid, current: int, n: nat): set<int> {
    {current} + set i: nat | 1 <= i < n :: Below(g, current, i)
  }

  /** `s` is the start of the `i`-th array below the current one, for one to five. */
  ghost predicate IsBelow(g: Grid, tickCurrent: int, i: int, s: int)
    requires g.Valid()
  {
    1 <= i <= 5 && InI32(ArrayStart(g, tickCurrent) - i * (g.spacing * g.size), s)
  }

  lemma BelowIsFixed(g: Grid, tickCurrent: int, s: int)
    requires g.Valid()
    ensures s in FixedBelow(g, ArrayStart(g, tickCurrent), MAX_ONE_SIDE) <==>
            s == ArrayStart(g, tickCurrent) || exists i :: IsBelow(g, tickCurrent, i, s)
  {
    var current := ArrayStart(g, tickCurrent);
    forall i: nat | 1 <= i < MAX_ONE_SIDE
      ensures IsBelow(g, tickCurrent, i, Below(g, current, i))
    {
    }
    if i :| IsBelow(g, tickCurrent, i, s) {
      assert s == Below(g, current, i);
    }
  }

  method CollectBelow(g: Grid, current: int) returns (starts: set<int>)
    ensures starts == FixedBelow(g, current, MAX_ONE_SIDE)
  {
    starts := {current};
    for i := 1 to MAX_ONE_SIDE
      invariant starts == FixedBelow(g, current, i)
    {
      starts := starts + {Below(g, current, i)};
    }
  }

  method CollectDirection(w: Walk, zeroForOne: bool) returns (starts: set<int>)
    requires WalkOk(w)
    ensures starts == Walked(w, zeroForOne) <= w.flags
    ensures starts == {} <==> w.first(zeroForOne).None?
  {
    var first := w.first(zeroForOne);
    if first.None? {
      return {};
    }
    WalkIsConsecutive(w, first.value, zeroForOne, MAX_ONE_SIDE);
    var walked := WalkFrom(w, first.value, zeroForOne);
    starts := set s | s in walked;
    assert walked[0] in starts;
  }

  /**
    `get_all_tick_array_addresses`: the arrays of both directions, so every array
    a swap instruction may list after a walk has been asked for; the fixed
    offsets below the current array when neither walk can start.
  */
  method GetAllTickArrays(w: Walk, g: Grid, tickCurrent: int, canWalk: bool) returns (starts: set<int>)
    requires WalkOk(w) && g.Valid()
    ensures canWalk && (w.first(true).Some? || w.first(false).Some?) ==>
              forall s :: s in starts <==> exists dir :: w.first(dir).Some? && s in WalkStarts(w, w.first(dir).value, dir, MAX_ONE_SIDE)
    ensures !canWalk || (w.first(true).None? && w.first(false).None?) ==>
              forall s :: s in starts <==> s == ArrayStart(g, tickCurrent) || exists i :: IsBelow(g, tickCurrent, i, s)
    ensures canWalk ==> forall dir: bool, s: int ::
              w.first(dir).Some? && s in WalkStarts(w, w.first(dir).value, dir, MAX_ONE_SIDE) ==> s in starts
    ensures canWalk && (w.first(true).Some? || w.first(false).Some?) ==> starts <= w.flags
  {
    starts := {};
    if canWalk {
      var down := CollectDirection(w, true);
      var up := CollectDirection(w, false);
      starts := down + up;
    }
    if starts == {} {
      starts := CollectBelow(g, ArrayStart(g, tickCurrent));
      forall s
        ensures s in starts <==> s == ArrayStart(g, tickCurrent) || exists i :: IsBelow(g, tickCurrent, i, s)
      {
        BelowIsFixed(g, tickCurrent, s);
      }
    }
  }

  /** `y` is `x` brought into the range of a 32-bit integer. */
  predicate InI32(x: int, y: int) {
    && (x < -2147483648 ==> y == -2147483648)
    && (x > 2147483647 ==> y == 2147483647)
    && (-2147483648 <= x <= 2147483647 ==> y == x)
  }

  const I32_MIN: int := -0x8000_0000
  const I32_MAX: int := 0x7FFF_FFFF

  /** Saturating `i32` addition. */
  function Shifted(start: int, offset: int): int {
    Max(I32_MIN, Min(I32_MAX, start + offset))
  }

  function Live(arrays: seq<int>, loaded: set<int>): (r: seq<int>)
    ensures |r| <= |arrays|
  {
    if arrays == [] then []
    else (if arrays[0] in loaded then [arrays[0]] else []) + Live(arrays[1..], loaded)
  }

  lemma {:induction false} LiveAppend(arrays: seq<int>, a: int, loaded: set<int>)
    ensures Live(arrays + [a], loaded) == Live(arrays, loaded) + (if a in loaded then [a] else [])
  {
    if arrays == [] {
      assert arrays + [a] == [a];
      assert Live([a], loaded) == (if a in loaded then [a] else []) + Live([], loaded);
    } else {
      var rest := arrays[1..];
      LiveAppend(rest, a, loaded);
      assert (arrays + [a])[1..] == rest + [a];
      var head, last := if arrays[0] in loaded then [arrays[0]] else [], if a in loaded then [a] else [];
      assert Live(arrays + [a], loaded) == head + (Live(rest, loaded) + last) == (head + Live(rest, loaded)) + last;
    }
  }

  /** `live` is what is loaded of `arrays`, in their order: the positions `idx` and no other. */
  ghost predicate Selects(arrays: seq<int>, loaded: set<int>, idx: seq<nat>, live: seq<int>) {
    && |idx| == |live|
    && (forall i :: 0 <= i < |idx| ==> idx[i] < |arrays| && live[i] == arrays[idx[i]])
    && (forall i, j :: 0 <= i < j < |idx| ==> idx[i] < idx[j])
    && (forall a :: 0 <= a < |arrays| ==> (arrays[a] in loaded <==> a in idx))
  }

  ghost predicate IsLive(arrays: seq<int>, loaded: set<int>, live: seq<int>) {
    exists idx :: Selects(arrays, loaded, idx, live)
  }

  lemma {:induction false} LiveIsInOrder(arrays: seq<int>, loaded: set<int>)
    ensures IsLive(arrays, loaded, Live(arrays, loaded))
  {
    if arrays == [] {
      assert Selects(arrays, loaded, [], []);
    } else {
      var n := |arrays| - 1;
      var front, last := arrays[..n], arrays[n];
      LiveIsInOrder(front, loaded);
      var idx: seq<nat> :| Selects(front, loaded, idx, Live(front, loaded));
      assert arrays == front + [last];
      LiveAppend(front, last, loaded);
      var live := Live(arrays, loaded);
      var all: seq<nat> := if last in loaded then idx + [n] else idx;
      SelectsAppend(front, last, loaded, idx, Live(front, loaded), all, live);
    }
  }

  lemma SelectsAppend(front: seq<int>, last: int, loaded: set<int>, idx: seq<nat>, before: seq<int>, all: seq<nat>, live: seq<int>)
    requires Selects(front, loaded, idx, before)
    requires all == (if last in loaded then idx + [|front|] else idx) && live == before + (if last in loaded then [last] else [])
    ensures Selects(front + [last], loaded, all, live)
  {
    var arrays := front + [last];
    assert forall i :: 0 <= i < |idx| ==> all[i] == idx[i] && arrays[idx[i]] == front[idx[i]];
    forall a | 0 <= a < |arrays|
      ensures arrays[a] in loaded <==> a in all
    {
      if a < |front| {
        assert arrays[a] == front[a];
        assert a in all <==> a in idx;
      } else {
        assert a !in idx;
      }
    }
  }

  /** `live_directional_tick_arrays`: all loaded ones in order, and never without the first. */
  method LiveDirectional(arrays: seq<int>, loaded: set<int>) returns (r: Option<seq<int>>)
    ensures r.Some? <==> arrays != [] && arrays[0] in loaded
    ensures r.Some? ==> IsLive(arrays, loaded, r.value) && 1 <= |r.value| <= |arrays| && r.value[0] == arrays[0]
  {
    var live := [];
    for i := 0 to |arrays|
      invariant live == Live(arrays[..i], loaded)
      invariant i > 0 ==> arrays[0] in loaded && live != [] && live[0] == arrays[0]
    {
      hide IsLive;
      assert arrays[..i + 1] == arrays[..i] + [arrays[i]];
      LiveAppend(arrays[..i], arrays[i], loaded);
      if arrays[i] in loaded {
        live := live + [arrays[i]];
      } else if live == [] {
        return None;
      }
    }
    assert arrays[..|arrays|] == arrays;
    LiveIsInOrder(arrays, loaded);
    if live == [] {
      return None;
    }
    return Some(live);
  }

  /**
    The horizon of the snapshot: when the walked arrays are loaded, a flagged
    array ahead that is not loaded lies beyond all six of them.
  */
  lemma {:induction false} MissingOnlyPastHorizon(flags: set<int>, zeroForOne: bool, starts: seq<int>, loaded: set<int>, s: int)
    requires 1 <= |starts| && Consecutive(flags, zeroForOne, starts)
    requires forall i :: 0 <= i < |starts| ==> starts[i] in loaded
    requires s in flags && s !in loaded && NotBefore(zeroForOne, starts[0], s)
    ensures Beyond(zeroForOne, starts[|starts| - 1], s)
    decreases |starts|
  {
    var last := |starts| - 1;
    if last > 0 {
      MissingOnlyPastHorizon(flags, zeroForOne, starts[..last], loaded, s);
      assert IsNextFlagged(flags, zeroForOne, starts[last - 1], starts[last]);
    }
  }
}
