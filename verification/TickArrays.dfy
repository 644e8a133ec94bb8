/**
  Loaded tick arrays and the scans inside one array
  (`FixedTickArraySnapshot` and `DynamicTickArrayState`).

  `nets` is the pool's ground truth: it maps every initialized tick to its
  `liquidity_net`.  An array is judged against the part of `nets` it covers.
*/
module TickArrays {
  import opened Common
  import opened TickGrid

  datatype TickState = TickState(tick: int, liquidityNet: int, liquidityGross: nat) {
    predicate IsInitialized() {
      liquidityGross != 0
    }
  }

  /**
    `Fixed` stores one slot per grid tick.  `Dynamic` stores only allocated
    slots behind a header whose three index functions belong to the CLMM crate;
    they are fields here and `Agrees` states what is trusted of them.
  */
  datatype TickArrayState =
    | Fixed(startTick: int, ticks: seq<TickState>)
    | Dynamic(startTick: int, ticks: seq<TickState>,
              nextIndex: (int, bool) -> Option<int>,
              firstIndex: bool -> Option<int>,
              indexOf: int -> Option<int>)

  function TickAt(g: Grid, start: int, i: int): int {
    start + i * g.spacing
  }

  ghost predicate OnGrid(g: Grid, t: int)
    requires g.Valid()
  {
    exists i :: 0 <= i < g.size && t == TickAt(g, ArrayStart(g, t), i)
  }

  ghost function Covered(g: Grid, nets: map<int, int>, start: int): map<int, int>
    requires g.Valid()
  {
    map t | t in nets && ArrayStart(g, t) == start :: nets[t]
  }

  ghost predicate SlotAgrees(g: Grid, nets: map<int, int>, start: int, i: int, slot: TickState) {
    var t := TickAt(g, start, i);
    && (slot.IsInitialized() <==> t in nets)
    && (t in nets ==> slot.tick == t && slot.liquidityNet == nets[t])
  }

  /** The array's contents are the ground truth for the ticks it covers. */
  ghost predicate Agrees(g: Grid, nets: map<int, int>, a: TickArrayState)
    requires g.Valid()
  {
    && IsStart(g, a.startTick)
    && match a
       case Fixed(start, ticks) =>
         |ticks| == g.size && forall i :: 0 <= i < g.size ==> SlotAgrees(g, nets, start, i, ticks[i])
       case Dynamic(start, ticks, nextIndex, firstIndex, indexOf) =>
         && (forall cur, dir :: match nextIndex(cur, dir)
               case None => ArrayStart(g, cur) == start ==> NoneAhead(Covered(g, nets, start), dir, cur)
               case Some(i) => 0 <= i < |ticks| && ArrayStart(g, cur) == start
                               && IsNearest(Covered(g, nets, start), dir, cur, ticks[i].tick))
         && (forall dir :: match firstIndex(dir)
               case None => Covered(g, nets, start) == map[]
               case Some(i) => 0 <= i < |ticks| && IsFirst(Covered(g, nets, start), dir, ticks[i].tick))
         && (forall t :: t in Covered(g, nets, start) ==>
               indexOf(t).Some? && 0 <= indexOf(t).value < |ticks| && ticks[indexOf(t).value].liquidityNet == nets[t])
  }

  lemma TickAtIncreases(g: Grid, start: int, i: int, j: int)
    requires g.Valid() && i < j
    ensures TickAt(g, start, i) + g.spacing <= TickAt(g, start, j)
  {
    MultiplesApart(g.spacing, i, j);
  }

  lemma TickAtInArray(g: Grid, start: int, i: int)
    requires g.Valid() && IsStart(g, start) && 0 <= i < g.size
    ensures start <= TickAt(g, start, i) < start + g.Span()
    ensures ArrayStart(g, TickAt(g, start, i)) == start
  {
    assert i * g.spacing >= 0;
    TickAtIncreases(g, start, i, g.size);
    ArrayStartUnique(g, start, TickAt(g, start, i));
  }

  lemma SlotArithmetic(spacing: int, size: int, q: int, j: int)
    ensures spacing * q - (spacing * size) * j == (q - size * j) * spacing
  {
    assert (spacing * size) * j == spacing * (size * j);
    assert spacing * (q - size * j) == spacing * q - spacing * (size * j);
  }

  lemma SlotInRange(spacing: int, size: int, i: int, d: int)
    requires spacing > 0 && d == i * spacing && 0 <= d < spacing * size
    ensures 0 <= i < size
  {
    MultiplesApart(spacing, i, 0);
    MultiplesApart(spacing, size - 1, i);
    assert spacing * (size - 1) == spacing * size - spacing;
  }

  /** An aligned tick occupies one of its array's slots. */
  lemma AlignedIsOnGrid(g: Grid, t: int)
    requires g.Valid() && t % g.spacing == 0
    ensures OnGrid(g, t)
  {
    ArrayStartBounds(g, t);
    SpanPositive(g);
    var span, s, j, q := g.Span(), ArrayStart(g, t), t / g.Span(), t / g.spacing;
    assert t == span * j + t % span && t == g.spacing * q;
    var i := q - g.size * j;
    SlotArithmetic(g.spacing, g.size, q, j);
    SlotInRange(g.spacing, g.size, i, t - s);
    assert t == TickAt(g, s, i);
  }

  /** The slot holding `cur`: everything at or below it is at or below `cur`, the rest is above. */
  lemma OffsetSplits(g: Grid, start: int, cur: int, offset: int, i: int)
    requires g.Valid() && IsStart(g, start) && ArrayStart(g, cur) == start
    requires offset == (cur - start) / g.spacing
    ensures 0 <= offset < g.size
    ensures TickAt(g, start, i) <= cur <==> i <= offset
  {
    ArrayStartBounds(g, cur);
    var d := cur - start;
    assert d == g.spacing * (d / g.spacing) + d % g.spacing;
    assert g.spacing * (g.size - 1) == g.Span() - g.spacing;
    MultiplesApart(g.spacing, offset, 0);
    MultiplesApart(g.spacing, g.size - 1, offset);
    if i < offset { TickAtIncreases(g, start, i, offset); }
    if offset < i { TickAtIncreases(g, start, offset, i); }
  }

  /** A covered tick sits in a slot of the fixed array. */
  lemma SlotOf(g: Grid, nets: map<int, int>, a: TickArrayState, t: int) returns (i: int)
    requires g.Valid() && a.Fixed? && Agrees(g, nets, a)
    requires t in Covered(g, nets, a.startTick) && OnGrid(g, t)
    ensures 0 <= i < g.size && t == TickAt(g, a.startTick, i) && a.ticks[i].IsInitialized()
  {
    i :| 0 <= i < g.size && t == TickAt(g, ArrayStart(g, t), i);
    assert SlotAgrees(g, nets, a.startTick, i, a.ticks[i]);
  }

  ghost predicate GridTicks(g: Grid, nets: map<int, int>)
    requires g.Valid()
  {
    forall t :: t in nets ==> OnGrid(g, t)
  }

  method NextInitializedTick(g: Grid, ghost nets: map<int, int>, a: TickArrayState, cur: int, zeroForOne: bool)
    returns (r: Option<int>)
    requires g.Valid() && GridTicks(g, nets) && Agrees(g, nets, a)
    ensures ArrayStart(g, cur) != a.startTick ==> r.None?
    ensures r.Some? ==> IsNearest(Covered(g, nets, a.startTick), zeroForOne, cur, r.value)
    ensures r.None? && ArrayStart(g, cur) == a.startTick
            ==> NoneAhead(Covered(g, nets, a.startTick), zeroForOne, cur)
  {
    match a
    case Dynamic(start, ticks, nextIndex, _, _) =>
      var index := nextIndex(cur, zeroForOne);
      if index.None? { return None; }
      return Some(ticks[index.value].tick);
    case Fixed(start, ticks) =>
      if ArrayStart(g, cur) != start { return None; }
      ghost var here := (cur - start) / g.spacing;
      var offset := (cur - start) / g.spacing;
      OffsetSplits(g, start, cur, here, here);
      if zeroForOne {
        while offset >= 0
          invariant -1 <= offset <= here
          invariant forall j :: offset < j <= here ==> !ticks[j].IsInitialized()
        {
          if ticks[offset].IsInitialized() {
            SlotHit(g, nets, a, cur, zeroForOne, here, offset);
            return Some(ticks[offset].tick);
          }
          offset := offset - 1;
        }
      } else {
        offset := offset + 1;
        while offset < g.size
          invariant here < offset <= g.size
          invariant forall j :: here < j < offset ==> !ticks[j].IsInitialized()
        {
          if ticks[offset].IsInitialized() {
            SlotHit(g, nets, a, cur, zeroForOne, here, offset);
            return Some(ticks[offset].tick);
          }
          offset := offset + 1;
        }
      }
      SlotMiss(g, nets, a, cur, zeroForOne, here);
      return None;
  }

  /** The first initialized slot met by the scan holds the nearest covered tick. */
  lemma SlotHit(g: Grid, nets: map<int, int>, a: TickArrayState, cur: int, zeroForOne: bool, here: int, hit: int)
    requires g.Valid() && GridTicks(g, nets) && a.Fixed? && Agrees(g, nets, a)
    requires ArrayStart(g, cur) == a.startTick && here == (cur - a.startTick) / g.spacing
    requires 0 <= hit < g.size && a.ticks[hit].IsInitialized() && Ahead(zeroForOne, here, hit)
    requires forall j :: 0 <= j < g.size && Ahead(zeroForOne, here, j) && a.ticks[j].IsInitialized()
               ==> NotBefore(zeroForOne, hit, j)
    ensures IsNearest(Covered(g, nets, a.startTick), zeroForOne, cur, a.ticks[hit].tick)
  {
    var start := a.startTick;
    assert SlotAgrees(g, nets, start, hit, a.ticks[hit]);
    TickAtInArray(g, start, hit);
    OffsetSplits(g, start, cur, here, hit);
    forall u | u in Covered(g, nets, start) && Ahead(zeroForOne, cur, u)
      ensures NotBefore(zeroForOne, a.ticks[hit].tick, u)
    {
      var j := SlotOf(g, nets, a, u);
      OffsetSplits(g, start, cur, here, j);
      if j < hit { TickAtIncreases(g, start, j, hit); }
      if hit < j { TickAtIncreases(g, start, hit, j); }
    }
  }

  lemma SlotMiss(g: Grid, nets: map<int, int>, a: TickArrayState, cur: int, zeroForOne: bool, here: int)
    requires g.Valid() && GridTicks(g, nets) && a.Fixed? && Agrees(g, nets, a)
    requires ArrayStart(g, cur) == a.startTick && here == (cur - a.startTick) / g.spacing
    requires forall j :: 0 <= j < g.size && Ahead(zeroForOne, here, j) ==> !a.ticks[j].IsInitialized()
    ensures NoneAhead(Covered(g, nets, a.startTick), zeroForOne, cur)
  {
    forall u | u in Covered(g, nets, a.startTick)
      ensures !Ahead(zeroForOne, cur, u)
    {
      var j := SlotOf(g, nets, a, u);
      OffsetSplits(g, a.startTick, cur, here, j);
    }
  }

  method FirstInitializedTick(g: Grid, ghost nets: map<int, int>, a: TickArrayState, zeroForOne: bool)
    returns (r: Option<int>)
    requires g.Valid() && GridTicks(g, nets) && Agrees(g, nets, a)
    ensures r.Some? ==> IsFirst(Covered(g, nets, a.startTick), zeroForOne, r.value)
    ensures r.None? ==> Covered(g, nets, a.startTick) == map[]
  {
    match a
    case Dynamic(start, ticks, _, firstIndex, _) =>
      var index := firstIndex(zeroForOne);
      if index.None? { return None; }
      return Some(ticks[index.value].tick);
    case Fixed(start, ticks) =>
      if zeroForOne {
        for index := g.size downto 0
          invariant forall j :: index <= j < g.size ==> !ticks[j].IsInitialized()
        {
          if ticks[index].IsInitialized() {
            FirstHit(g, nets, a, zeroForOne, index);
            return Some(ticks[index].tick);
          }
        }
      } else {
        for index := 0 to g.size
          invariant forall j :: 0 <= j < index ==> !ticks[j].IsInitialized()
        {
          if ticks[index].IsInitialized() {
            FirstHit(g, nets, a, zeroForOne, index);
            return Some(ticks[index].tick);
          }
        }
      }
      forall t | t in nets
        ensures t !in Covered(g, nets, start)
      {
        if t in Covered(g, nets, start) {
          var i := SlotOf(g, nets, a, t);
          assert false;
        }
      }
      return None;
  }

  lemma FirstHit(g: Grid, nets: map<int, int>, a: TickArrayState, zeroForOne: bool, hit: int)
    requires g.Valid() && GridTicks(g, nets) && a.Fixed? && Agrees(g, nets, a)
    requires 0 <= hit < g.size && a.ticks[hit].IsInitialized()
    requires forall j :: 0 <= j < g.size && a.ticks[j].IsInitialized() ==> NotBefore(zeroForOne, hit, j)
    ensures IsFirst(Covered(g, nets, a.startTick), zeroForOne, a.ticks[hit].tick)
  {
    var start := a.startTick;
    assert SlotAgrees(g, nets, start, hit, a.ticks[hit]);
    TickAtInArray(g, start, hit);
    forall u | u in Covered(g, nets, start)
      ensures NotBefore(zeroForOne, a.ticks[hit].tick, u)
    {
      var j := SlotOf(g, nets, a, u);
      if j < hit { TickAtIncreases(g, start, j, hit); }
      if hit < j { TickAtIncreases(g, start, hit, j); }
    }
  }

  /** `get_tick_liquidity_net`: defined for every initialized tick the array covers. */
  function LiquidityNet(g: Grid, a: TickArrayState, t: int): (r: Option<int>)
    requires g.Valid()
  {
    match a
    case Fixed(start, ticks) =>
      if ArrayStart(g, t) != start || (t - start) % g.spacing != 0 then None
      else NetAt(ticks, (t - start) / g.spacing)
    case Dynamic(_, ticks, _, _, indexOf) =>
      match indexOf(t)
      case None => None
      case Some(i) => NetAt(ticks, i)
  }

  function NetAt(ticks: seq<TickState>, i: int): Option<int> {
    if 0 <= i < |ticks| then Some(ticks[i].liquidityNet) else None
  }

  lemma LiquidityNetIsTruth(g: Grid, nets: map<int, int>, a: TickArrayState, t: int)
    requires g.Valid() && GridTicks(g, nets) && Agrees(g, nets, a)
    requires t in nets && ArrayStart(g, t) == a.startTick
    ensures LiquidityNet(g, a, t) == Some(nets[t])
  {
    assert t in Covered(g, nets, a.startTick);
    if a.Fixed? {
      var i := SlotOf(g, nets, a, t);
      ExactQuotient(g.spacing, i, t - a.startTick);
      assert SlotAgrees(g, nets, a.startTick, i, a.ticks[i]);
    }
  }
}
