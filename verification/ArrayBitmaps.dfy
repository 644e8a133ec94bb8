/**
  The two-level search for the next initialized tick array: the pool's default
  bitmap covers the array starts in `[lo, hi)`, the extension account covers the
  rest in further windows, and the search alternates between the two.
*/
module ArrayBitmaps {
  import opened Common
  import opened TickGrid
  import opened SwapErrors

  /**
    `defaultFlags` and `extensionFlags` are the flagged array starts on chain.
    `checkDefault` and `checkExtension` look up one array start, `searchDefault`
    and `searchExtension` search one window; they belong to the CLMM crate, and
    `Sound` states what is trusted of them.
  */
  datatype Bitmaps = Bitmaps(
    lo: int, hi: int,
    minTick: int, maxTick: int,
    defaultFlags: set<int>,
    extensionFlags: set<int>,
    extensionLoaded: bool,
    checkDefault: int -> Option<bool>,
    checkExtension: int -> Option<bool>,
    searchDefault: (int, bool) -> (bool, int),
    searchExtension: (int, bool) -> Option<(bool, int)>)
  {
    function Flagged(): set<int> {
      defaultFlags + extensionFlags
    }

    predicate InDefault(s: int) {
      lo <= s < hi
    }

    ghost predicate ExtensionAnswers() {
      extensionLoaded && forall s, dir :: searchExtension(s, dir).Some?
    }

    ghost predicate ChecksAnswer() {
      forall s :: checkDefault(s).Some? && checkExtension(s).Some?
    }

    /** Whether array start `s` is flagged, asked of the bitmap that covers it. */
    function Check(s: int): Option<bool> {
      if InDefault(s) then checkDefault(s)
      else if extensionLoaded then checkExtension(s)
      else None
    }
  }

  function Neighbour(g: Grid, s: int, zeroForOne: bool): int {
    if zeroForOne then s - g.Span() else s + g.Span()
  }

  /** Geometry of a pair of bitmaps, leaving the search functions aside. */
  ghost predicate WellPlaced(g: Grid, b: Bitmaps)
    requires g.Valid()
  {
    && IsStart(g, b.lo) && IsStart(g, b.hi) && b.lo < b.hi
    && (forall s :: s in b.Flagged() ==>
          IsStart(g, s) && ArrayStart(g, b.minTick) <= s <= ArrayStart(g, b.maxTick))
    && (forall s :: s in b.defaultFlags ==> b.InDefault(s))
    && (forall s :: s in b.extensionFlags ==> !b.InDefault(s))
  }

  ghost predicate Sound(g: Grid, b: Bitmaps)
    requires g.Valid()
  {
    && WellPlaced(g, b)
    && (forall s :: IsStart(g, s) && b.Check(s).Some? ==> (b.Check(s).value <==> s in b.Flagged()))
    && (forall s, dir :: IsStart(g, s) ==> SoundDefault(g, b, s, dir, b.searchDefault(s, dir)))
    && (forall s, dir :: IsStart(g, s) && !b.InDefault(Neighbour(g, s, dir)) ==> SoundExtension(g, b, s, dir))
  }

  /** Searches its own window from the neighbour of `last`, or gives up in place outside it. */
  ghost predicate SoundDefault(g: Grid, b: Bitmaps, last: int, dir: bool, answer: (bool, int)) {
    var (found, s) := answer;
    if !b.InDefault(Neighbour(g, last, dir)) then
      !found && s == last
    else if found then
      && s in b.defaultFlags && Beyond(dir, last, s)
      && forall u :: u in b.defaultFlags && Beyond(dir, last, u) ==> NotBefore(dir, s, u)
    else
      && s == (if dir then b.lo else b.hi - g.Span())
      && forall u :: u in b.defaultFlags ==> !Beyond(dir, last, u)
  }

  /** Searches one extension window, which never overlaps the default one, and always advances. */
  ghost predicate SoundExtension(g: Grid, b: Bitmaps, last: int, dir: bool)
    requires g.Valid()
  {
    match b.searchExtension(last, dir)
    case None => true
    case Some((found, s)) =>
      && IsStart(g, s) && Beyond(dir, last, s)
      && (forall u :: u in b.defaultFlags && Beyond(dir, last, u) ==> Beyond(dir, s, u))
      && (found ==> s in b.extensionFlags
                    && forall u :: u in b.extensionFlags && Beyond(dir, last, u) ==> NotBefore(dir, s, u))
      && (!found ==> forall u :: u in b.extensionFlags && Beyond(dir, last, u) ==> Beyond(dir, s, u))
  }

  ghost predicate IsNextFlagged(flags: set<int>, zeroForOne: bool, last: int, s: int) {
    && s in flags && Beyond(zeroForOne, last, s)
    && forall u :: u in flags && Beyond(zeroForOne, last, u) ==> NotBefore(zeroForOne, s, u)
  }

  ghost predicate NoneFlaggedBeyond(flags: set<int>, zeroForOne: bool, last: int) {
    forall u :: u in flags ==> !Beyond(zeroForOne, last, u)
  }

  ghost function FlagsBeyond(flags: set<int>, dir: bool, last: int): set<int> {
    set s | s in flags && Beyond(dir, last, s)
  }

  /** Nothing flagged lies in the stretch from `origin` up to and including `last`. */
  ghost predicate Swept(flags: set<int>, zeroForOne: bool, origin: int, last: int) {
    forall u :: u in flags && Beyond(zeroForOne, origin, u) ==> Beyond(zeroForOne, last, u)
  }

  predicate InTickRange(g: Grid, b: Bitmaps, start: int)
    requires g.Valid()
  {
    ArrayStart(g, b.minTick) <= start <= ArrayStart(g, b.maxTick)
  }

  /** What alternating the two bitmaps from `last` answers; errors are those of the extension. */
  ghost function Search(g: Grid, b: Bitmaps, last: int, zeroForOne: bool): (r: Result<Option<int>, SwapError>)
    requires g.Valid() && Sound(g, b) && IsStart(g, last)
    ensures r.Err? ==> r.error.IsBitmapError()
    ensures b.ExtensionAnswers() ==> r.Ok?
    decreases if zeroForOne then last - b.minTick else b.maxTick - last
  {
    var (found, start) := b.searchDefault(last, zeroForOne);
    if found then Ok(Some(start))
    else if !b.extensionLoaded then Err(MissingBitmapExtension)
    else
      DefaultMiss(g, b, zeroForOne, last, start);
      assert SoundExtension(g, b, start, zeroForOne);
      match b.searchExtension(start, zeroForOne)
      case None => Err(BitmapSearchFailed)
      case Some((foundExt, startExt)) =>
        if foundExt then Ok(Some(startExt))
        else if startExt < b.minTick || startExt > b.maxTick then Ok(None)
        else Search(g, b, startExt, zeroForOne)
  }

  /** `next_initialized_tick_array_start_index`. */
  method NextInitializedArrayStart(g: Grid, b: Bitmaps, from: int, zeroForOne: bool)
    returns (r: Result<Option<int>, SwapError>)
    requires g.Valid() && Sound(g, b)
    ensures r.Ok? && r.value.Some? ==>
              IsNextFlagged(b.Flagged(), zeroForOne, ArrayStart(g, from), r.value.value)
    ensures r.Ok? && r.value.None? && InTickRange(g, b, ArrayStart(g, from)) ==>
              NoneFlaggedBeyond(b.Flagged(), zeroForOne, ArrayStart(g, from))
    ensures r.Err? ==> r.error.IsBitmapError()
    ensures b.ExtensionAnswers() ==> r.Ok?
    ensures r.Err? && b.extensionLoaded ==> r.error.BitmapSearchFailed? && exists s :: b.searchExtension(s, zeroForOne).None?
    ensures !b.extensionLoaded ==>
              && (r.Err? <==> || !b.InDefault(Neighbour(g, ArrayStart(g, from), zeroForOne))
                              || NoneFlaggedBeyond(b.defaultFlags, zeroForOne, ArrayStart(g, from)))
              && (r.Err? ==> r.error.MissingBitmapExtension?)
    ensures IsStart(g, ArrayStart(g, from)) && r == Search(g, b, ArrayStart(g, from), zeroForOne)
  {
    var last := ArrayStart(g, from);
    ghost var origin := last;
    ArrayStartBounds(g, from);
    SpanPositive(g);
    while true
      invariant IsStart(g, last) && NotBefore(zeroForOne, origin, last)
      invariant IsStart(g, origin) && Search(g, b, last, zeroForOne) == Search(g, b, origin, zeroForOne)
      invariant Swept(b.Flagged(), zeroForOne, origin, last)
      invariant !b.extensionLoaded ==> last == origin
      decreases if zeroForOne then last - b.minTick else b.maxTick - last
    {
      var (found, start) := b.searchDefault(last, zeroForOne);
      if found {
        DefaultHit(g, b, zeroForOne, last, start);
        return Ok(Some(start));
      }
      DefaultMiss(g, b, zeroForOne, last, start);
      last := start;

      if !b.extensionLoaded {
        return Err(MissingBitmapExtension);
      }
      assert SoundExtension(g, b, last, zeroForOne);
      var ext := b.searchExtension(last, zeroForOne);
      if ext.None? {
        return Err(BitmapSearchFailed);
      }
      var (foundExt, startExt) := ext.value;
      if foundExt {
        return Ok(Some(startExt));
      }
      last := startExt;

      if last < b.minTick || last > b.maxTick {
        if InTickRange(g, b, origin) { LeftTickRange(g, b, zeroForOne, origin, last); }
        return Ok(None);
      }
    }
  }

  /** A hit in the default window beats every extension flag: nothing outside the window is nearer. */
  lemma DefaultHit(g: Grid, b: Bitmaps, zeroForOne: bool, last: int, s: int)
    requires g.Valid() && Sound(g, b) && IsStart(g, last)
    requires b.searchDefault(last, zeroForOne) == (true, s)
    ensures IsNextFlagged(b.Flagged(), zeroForOne, last, s)
  {
    assert SoundDefault(g, b, last, zeroForOne, b.searchDefault(last, zeroForOne));
    forall u | u in b.extensionFlags && Beyond(zeroForOne, last, u)
      ensures NotBefore(zeroForOne, s, u)
    {
      assert u in b.Flagged();
      if zeroForOne { StartsApart(g, u, last); } else { StartsApart(g, last, u); }
    }
  }

  /** A miss sweeps the window and leaves a position whose neighbour the extension can answer for. */
  lemma DefaultMiss(g: Grid, b: Bitmaps, zeroForOne: bool, last: int, s: int)
    requires g.Valid() && Sound(g, b) && IsStart(g, last)
    requires b.searchDefault(last, zeroForOne) == (false, s)
    ensures IsStart(g, s) && NotBefore(zeroForOne, last, s) && !b.InDefault(Neighbour(g, s, zeroForOne))
    ensures Swept(b.Flagged(), zeroForOne, last, s)
  {
    assert SoundDefault(g, b, last, zeroForOne, b.searchDefault(last, zeroForOne));
    SpanPositive(g);
    NeighbourIsStart(g, b.hi);
    NeighbourIsStart(g, last);
    if b.InDefault(Neighbour(g, last, zeroForOne)) {
      var next := Neighbour(g, last, zeroForOne);
      assert IsStart(g, next);
      StartsApart(g, next, b.hi);
      StartsApart(g, b.lo, b.hi);
      forall u | u in b.Flagged() && Beyond(zeroForOne, last, u)
        ensures Beyond(zeroForOne, s, u)
      {
        assert u in b.extensionFlags && !b.InDefault(u);
        if !zeroForOne {
          StartsApart(g, last, u);
        } else {
          StartsApart(g, u, last);
        }
      }
    }
  }

  /** Once the sweep leaves the tick range on its own side, every flagged array has been passed. */
  lemma LeftTickRange(g: Grid, b: Bitmaps, zeroForOne: bool, origin: int, last: int)
    requires g.Valid() && Sound(g, b) && IsStart(g, origin) && IsStart(g, last)
    requires InTickRange(g, b, origin) && Beyond(zeroForOne, origin, last)
    requires last < b.minTick || last > b.maxTick
    requires Swept(b.Flagged(), zeroForOne, origin, last)
    ensures NoneFlaggedBeyond(b.Flagged(), zeroForOne, origin)
  {
    ArrayStartBounds(g, b.minTick);
    ArrayStartBounds(g, b.maxTick);
    if zeroForOne {
      ArrayStartMonotone(g, last, b.minTick);
    } else {
      StartsApart(g, origin, last);
    }
  }

  // --- the contract can be met ---

  /** A direct search of the default window. */
  ghost function DirectDefault(g: Grid, b: Bitmaps, last: int, dir: bool): (r: (bool, int))
    ensures SoundDefault(g, b, last, dir, r)
  {
    if !b.InDefault(Neighbour(g, last, dir)) then (false, last)
    else if exists t :: IsNextFlagged(b.defaultFlags, dir, last, t)
      then var t :| IsNextFlagged(b.defaultFlags, dir, last, t); (true, t)
    else
      NoneAheadIfNoNext(b.defaultFlags, dir, last);
      (false, if dir then b.lo else b.hi - g.Span())
  }

  lemma NoneAheadIfNoNext(flags: set<int>, dir: bool, last: int)
    requires !exists t :: IsNextFlagged(flags, dir, last, t)
    ensures forall u :: u in flags ==> !Beyond(dir, last, u)
  {
    var ahead := FlagsBeyond(flags, dir, last);
    if ahead != {} {
      var t := ExtremeExists(ahead, dir);
      assert IsNextFlagged(flags, dir, last, t);
      assert false;
    }
    forall u | u in flags
      ensures !Beyond(dir, last, u)
    {
      assert u !in ahead;
    }
  }

  /** Looking at the neighbouring array only is a sound extension search. */
  lemma NeighbourIsNext(g: Grid, b: Bitmaps, s: int, dir: bool)
    requires g.Valid() && WellPlaced(g, b) && IsStart(g, s)
    ensures IsStart(g, Neighbour(g, s, dir)) && Beyond(dir, s, Neighbour(g, s, dir))
    ensures forall u :: u in b.Flagged() && Beyond(dir, s, u) ==> NotBefore(dir, Neighbour(g, s, dir), u)
  {
    SpanPositive(g);
    NeighbourIsStart(g, s);
    forall u | u in b.Flagged() && Beyond(dir, s, u)
      ensures NotBefore(dir, Neighbour(g, s, dir), u)
    {
      if dir { StartsApart(g, u, s); } else { StartsApart(g, s, u); }
    }
  }

  /** Direct searches of one window each satisfy the contract, for every placement of flags. */
  lemma SearchesExist(g: Grid, b: Bitmaps) returns (b': Bitmaps)
    requires g.Valid() && WellPlaced(g, b)
    ensures Sound(g, b')
    ensures b' == b.(checkDefault := b'.checkDefault, checkExtension := b'.checkExtension,
                     searchDefault := b'.searchDefault, searchExtension := b'.searchExtension)
    ensures b'.ChecksAnswer()
  {
    b' := b.(checkDefault := s => Some(s in b.defaultFlags), checkExtension := s => Some(s in b.extensionFlags),
             searchDefault := (s, d) => DirectDefault(g, b, s, d),
             searchExtension := (s, d) => Some((Neighbour(g, s, d) in b.extensionFlags, Neighbour(g, s, d))));
    SpanPositive(g);
    forall s, dir | IsStart(g, s)
      ensures SoundDefault(g, b', s, dir, b'.searchDefault(s, dir))
    {
      assert SoundDefault(g, b, s, dir, DirectDefault(g, b, s, dir));
    }
    forall s, dir | IsStart(g, s) && !b'.InDefault(Neighbour(g, s, dir))
      ensures SoundExtension(g, b', s, dir)
    {
      NeighbourIsNext(g, b, s, dir);
    }
  }
}
