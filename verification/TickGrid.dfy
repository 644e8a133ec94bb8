/**
  Geometry of the tick axis.  Ticks lie on multiples of `spacing`; `size`
  consecutive ones form a tick array named by its floor-aligned start index.
  A swap walks down the axis when `zeroForOne` holds and up otherwise, so every
  order relation is stated relative to that direction.
*/
module TickGrid {
  import opened Common

  datatype Grid = Grid(spacing: int, size: int) {
    ghost predicate Valid() {
      spacing > 0 && size > 0
    }

    function Span(): int {
      spacing * size
    }
  }

  lemma SpanPositive(g: Grid)
    requires g.Valid()
    ensures g.Span() > 0
  {
  }

  /** `TickUtils::get_array_start_index`: floor alignment to a whole array. */
  function ArrayStart(g: Grid, tick: int): int
    requires g.Valid()
  {
    SpanPositive(g);
    tick - tick % g.Span()
  }

  predicate IsStart(g: Grid, s: int)
    requires g.Valid()
  {
    ArrayStart(g, s) == s
  }

  lemma MultiplesApart(span: int, j: int, k: int)
    requires span > 0
    ensures j < k ==> span * j + span <= span * k
  {
    if j < k {
      var gap := k - j - 1;
      assert span * gap >= 0;
      assert k == j + 1 + gap;
      assert span * (j + 1 + gap) == span * j + span + span * gap;
    }
  }

  lemma FloorUnique(span: int, j: int, k: int, s: int, t: int)
    requires span > 0 && s == span * j && span * k <= t < span * k + span && s <= t < s + span
    ensures j == k
  {
    MultiplesApart(span, j, k);
    MultiplesApart(span, k, j);
  }

  lemma ExactQuotient(spacing: int, i: int, d: int)
    requires spacing > 0 && d == i * spacing
    ensures d / spacing == i && d % spacing == 0
  {
    assert d == spacing * (d / spacing) + d % spacing;
    MultiplesApart(spacing, i, d / spacing);
    MultiplesApart(spacing, d / spacing, i);
  }

  lemma ArrayStartBounds(g: Grid, t: int)
    requires g.Valid()
    ensures ArrayStart(g, t) <= t < ArrayStart(g, t) + g.Span()
    ensures IsStart(g, ArrayStart(g, t))
  {
    var span := g.Span();
    SpanPositive(g);
    var s := ArrayStart(g, t);
    assert t == span * (t / span) + t % span;
    assert s == span * (t / span);
    assert s == span * (s / span) + s % span;
    FloorUnique(span, t / span, s / span, s, s);
  }

  lemma ArrayStartUnique(g: Grid, s: int, t: int)
    requires g.Valid() && IsStart(g, s) && s <= t < s + g.Span()
    ensures ArrayStart(g, t) == s
  {
    var span := g.Span();
    assert s == span * (s / span) + s % span;
    assert t == span * (t / span) + t % span;
    FloorUnique(span, s / span, t / span, s, t);
  }

  lemma StartsApart(g: Grid, s: int, u: int)
    requires g.Valid() && IsStart(g, s) && IsStart(g, u) && s < u
    ensures s + g.Span() <= u
  {
    if u < s + g.Span() {
      ArrayStartUnique(g, s, u);
    }
  }

  lemma NeighbourIsStart(g: Grid, s: int)
    requires g.Valid() && IsStart(g, s)
    ensures IsStart(g, s + g.Span()) && IsStart(g, s - g.Span())
  {
    var span := g.Span();
    SpanPositive(g);
    var q := s / span;
    assert s == span * q + s % span;
    var up, down := s + span, s - span;
    assert up == span * (up / span) + up % span;
    assert down == span * (down / span) + down % span;
    assert up == span * (q + 1) && down == span * (q - 1);
    FloorUnique(span, q + 1, up / span, up, up);
    FloorUnique(span, q - 1, down / span, down, down);
  }

  lemma ArrayStartMonotone(g: Grid, t: int, u: int)
    requires g.Valid() && t <= u
    ensures ArrayStart(g, t) <= ArrayStart(g, u)
  {
    ArrayStartBounds(g, t);
    ArrayStartBounds(g, u);
    if ArrayStart(g, u) < ArrayStart(g, t) {
      StartsApart(g, ArrayStart(g, u), ArrayStart(g, t));
    }
  }

  // --- direction-relative order ---

  /** Tick `t` is still to be met by a swap whose current tick is `cur`. */
  predicate Ahead(zeroForOne: bool, cur: int, t: int) {
    if zeroForOne then t <= cur else t > cur
  }

  predicate Beyond(zeroForOne: bool, a: int, b: int) {
    if zeroForOne then b < a else b > a
  }

  predicate NotBefore(zeroForOne: bool, a: int, b: int) {
    if zeroForOne then b <= a else b >= a
  }

  // --- nearest initialized tick ---

  /** `t` is the initialized tick a swap at `cur` meets first. */
  ghost predicate IsNearest(nets: map<int, int>, zeroForOne: bool, cur: int, t: int) {
    && t in nets
    && Ahead(zeroForOne, cur, t)
    && forall u :: u in nets && Ahead(zeroForOne, cur, u) ==> NotBefore(zeroForOne, t, u)
  }

  ghost predicate IsFirst(nets: map<int, int>, zeroForOne: bool, t: int) {
    && t in nets
    && forall u :: u in nets ==> NotBefore(zeroForOne, t, u)
  }

  ghost predicate NoneAhead(nets: map<int, int>, zeroForOne: bool, cur: int) {
    forall u :: u in nets ==> !Ahead(zeroForOne, cur, u)
  }

  ghost function TicksAhead(nets: map<int, int>, zeroForOne: bool, cur: int): set<int> {
    set u | u in nets && Ahead(zeroForOne, cur, u)
  }

  ghost function NextTick(nets: map<int, int>, zeroForOne: bool, cur: int): (r: Option<int>)
  {
    if exists t :: IsNearest(nets, zeroForOne, cur, t)
    then var t :| IsNearest(nets, zeroForOne, cur, t); Some(t)
    else None
  }

  lemma EmptyOrInhabited(s: set<int>)
    ensures s == {} || exists x :: x in s
  {
    if !exists x :: x in s {
      assert s == {};
    }
  }

  lemma {:induction false} ExtremeExists(s: set<int>, zeroForOne: bool) returns (t: int)
    requires s != {}
    ensures t in s && forall u :: u in s ==> NotBefore(zeroForOne, t, u)
    decreases |s|
  {
    EmptyOrInhabited(s);
    var x :| x in s;
    t := x;
    var rest := s - {x};
    assert s == rest + {x};
    if rest != {} {
      var best := ExtremeExists(rest, zeroForOne);
      t := if NotBefore(zeroForOne, x, best) then x else best;
    }
  }

  /** The search answers exactly when a tick lies ahead, and its answer is unique. */
  lemma NextTickCharacterized(nets: map<int, int>, zeroForOne: bool, cur: int)
    ensures NextTick(nets, zeroForOne, cur).None? <==> NoneAhead(nets, zeroForOne, cur)
    ensures forall t :: NextTick(nets, zeroForOne, cur) == Some(t) <==> IsNearest(nets, zeroForOne, cur, t)
  {
    var ahead := TicksAhead(nets, zeroForOne, cur);
    if ahead != {} {
      var t := ExtremeExists(ahead, zeroForOne);
      assert IsNearest(nets, zeroForOne, cur, t);
    } else {
      forall u | u in nets
        ensures !Ahead(zeroForOne, cur, u)
      {
        assert u !in ahead;
      }
    }
  }
}
