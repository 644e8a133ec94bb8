/**
  Boundary search over a quoting oracle: exponential search for a first valid
  power of two and for the first failure above it, then two binary searches that
  stop once their interval is at most 100 atoms wide.
*/
module Bounds {
  import opened Common
  import opened TickGrid

  datatype QuoteResult = QuoteResult(
    inputMint: Pubkey, outputMint: Pubkey,
    amount: nat, expectedOutput: nat, notEnoughLiquidity: bool, price: real)

  datatype BoundsError = BoundarySearchFailed | NoQuotableValue

  type Oracle<!E> = nat -> Result<QuoteResult, E>

  /** `valid_quote`, with an error counted as invalid as every caller does. */
  predicate ValidQuote<E>(q: Result<QuoteResult, E>) {
    q.Ok? && !(q.value.notEnoughLiquidity || q.value.expectedOutput == 0)
  }

  predicate Valid<E>(f: Oracle<E>, x: nat) {
    ValidQuote(f(x))
  }

  function SaturatingDouble(x: nat): nat {
    if 2 * x > U64_MAX then U64_MAX else 2 * x
  }

  // --- powers of two ---

  function Pow2(k: nat): (r: nat)
    ensures r >= 1
  {
    if k == 0 then 1 else 2 * Pow2(k - 1)
  }

  lemma {:induction false} Pow2Adds(a: nat, b: nat)
    ensures Pow2(a + b) == Pow2(a) * Pow2(b)
  {
    if b == 0 {
    } else {
      Pow2Adds(a, b - 1);
      assert Pow2(a) * (2 * Pow2(b - 1)) == 2 * (Pow2(a) * Pow2(b - 1));
    }
  }

  lemma {:induction false} Pow2Monotone(a: nat, b: nat)
    requires a <= b
    ensures Pow2(a) <= Pow2(b)
    ensures a < b ==> 2 * Pow2(a) <= Pow2(b)
    decreases b - a
  {
    if a < b {
      Pow2Monotone(a, b - 1);
    }
  }

  lemma Pow2Constants()
    ensures Pow2(6) == 64 && Pow2(7) == 128
    ensures Pow2(63) == 0x8000_0000_0000_0000
  {
    assert Pow2(3) == 8;
    assert Pow2(5) == 32;
    assert Pow2(7) == 128;
    assert Pow2(14) == 0x4000 by { Pow2Adds(7, 7); }
    assert Pow2(28) == 0x1000_0000 by { Pow2Adds(14, 14); }
    assert Pow2(56) == 0x100_0000_0000_0000 by { Pow2Adds(28, 28); }
    Pow2Adds(56, 7);
  }

  /** The power probed just before `Pow2(k)`. */
  function HalfPower(k: nat): nat {
    if k == 0 then 0 else Pow2(k - 1)
  }

  lemma HalfOfNext(k: nat)
    ensures HalfPower(k + 1) == Pow2(k) && HalfPower(k) < Pow2(k)
  {
  }

  /** `Pow2(k)` is the first power of two the oracle accepts. */
  ghost predicate FirstValidPower<E>(f: Oracle<E>, k: nat) {
    k <= 63 && Valid(f, Pow2(k)) && forall j :: 0 <= j < k ==> !Valid(f, Pow2(j))
  }

  ghost predicate NoValidPower<E>(f: Oracle<E>) {
    forall j :: 0 <= j <= 63 ==> !Valid(f, Pow2(j))
  }

  // --- coarse search ---

  /** The powers of two in order, then the saturated top. */
  function Rung(j: nat): nat {
    if j <= 63 then Pow2(j) else U64_MAX
  }

  /**
    The bracketing promised of the four coarse bounds.  The upper pair is two
    neighbouring rungs; the top one goes unprobed when the search climbed to it.
  */
  ghost predicate CoarseBrackets<E>(f: Oracle<E>, k: nat, j: nat, lowerLow: nat, lowerHigh: nat, upperLow: nat, upperHigh: nat) {
    && FirstValidPower(f, k)
    && lowerHigh == Pow2(k)
    && lowerLow == HalfPower(k)
    && k <= j <= 64 && upperLow == Rung(j) && upperHigh == Rung(j + 1)
    && Valid(f, upperLow)
    && (j < 63 || (j == 63 && k == 63) ==> !Valid(f, upperHigh))
    && (j == 64 ==> k == 63)
  }

  lemma DoublingStep(k: nat)
    requires k <= 63
    ensures Pow2(k) <= Pow2(63) < U64_MAX <= 2 * Pow2(63)
    ensures var d := SaturatingDouble(Pow2(k));
            if k < 63 then d == Pow2(k + 1) && Pow2(k) < d < U64_MAX else d == U64_MAX
  {
    Pow2Constants();
    Pow2Monotone(k, 63);
    if k < 63 { Pow2Monotone(k + 1, 63); }
  }

  /** The first `k` powers of two were all refused. */
  ghost predicate PowersFail<E>(f: Oracle<E>, k: nat) {
    forall j :: 0 <= j < k ==> !Valid(f, Pow2(j))
  }

  lemma PowerDecides<E>(f: Oracle<E>, k: nat)
    requires k <= 63 && PowersFail(f, k)
    ensures if Valid(f, Pow2(k)) then FirstValidPower(f, k) && !NoValidPower(f) else PowersFail(f, k + 1)
    ensures k == 63 && !Valid(f, Pow2(k)) ==> NoValidPower(f)
  {
    hide Pow2, ValidQuote;
  }

  /** Phase 1: double from 1 until a quote is valid or the amount saturates. */
  method FindFirstValid<E>(f: Oracle<E>) returns (lowerLow: nat, lowerHigh: nat, ghost k: nat, ghost probes: nat)
    ensures lowerHigh == U64_MAX <==> NoValidPower(f)
    ensures lowerHigh != U64_MAX ==> lowerLow < lowerHigh && Valid(f, lowerHigh)
    ensures k <= 63 && probes == k + 1
    ensures if lowerHigh == U64_MAX then NoValidPower(f) && lowerLow == Pow2(63)
            else FirstValidPower(f, k) && lowerHigh == Pow2(k) && lowerLow == HalfPower(k)
  {
    assert Pow2(0) == 1 && HalfPower(0) == 0 && PowersFail(f, 0);
    hide Pow2, HalfPower, ValidQuote, PowersFail, FirstValidPower, NoValidPower;
    lowerLow, lowerHigh := 0, 1;
    k, probes := 0, 0;
    while true
      invariant k <= 63 && lowerHigh == Pow2(k) && lowerLow == HalfPower(k)
      invariant PowersFail(f, k)
      invariant probes == k
      decreases 63 - k
    {
      DoublingStep(k);
      HalfOfNext(k);
      PowerDecides(f, k);
      probes := probes + 1;
      var probe := f(lowerHigh);
      if ValidQuote(probe) {
        return;
      }
      lowerLow := lowerHigh;
      lowerHigh := SaturatingDouble(lowerHigh);
      if lowerHigh <= lowerLow || lowerHigh == U64_MAX {
        lowerHigh := U64_MAX;
        return;
      }
      k := k + 1;
    }
  }

  /** Phase 2: keep doubling from a valid amount until a quote fails or the amount saturates. */
  method FindFirstInvalid<E>(f: Oracle<E>, start: nat, ghost k: nat)
    returns (upperLow: nat, upperHigh: nat, ghost rung: nat, ghost probes: nat)
    requires start == U64_MAX || (FirstValidPower(f, k) && start == Pow2(k))
    ensures start == U64_MAX ==> upperLow == upperHigh == U64_MAX
    ensures start != U64_MAX ==>
              && k <= rung <= 64 && upperLow == Rung(rung) && upperHigh == Rung(rung + 1) && Valid(f, upperLow)
              && (rung < 63 || (rung == 63 && k == 63) ==> !Valid(f, upperHigh))
              && (rung == 64 ==> k == 63)
    ensures if start == U64_MAX then probes == 0 else k + 1 + probes <= 65
  {
    upperLow, upperHigh, rung, probes := start, SaturatingDouble(start), k, 0;
    if start != U64_MAX { DoublingStep(k); }
    if upperHigh <= upperLow {
      upperHigh := upperLow;
    } else {
      while true
        invariant k <= rung <= 63 && upperLow == Pow2(rung) && upperHigh == SaturatingDouble(upperLow)
        invariant Valid(f, upperLow)
        invariant probes == rung - k && (rung == 63 ==> k == 63)
        decreases 63 - rung
      {
        DoublingStep(rung);
        if rung < 63 { DoublingStep(rung + 1); }
        probes := probes + 1;
        var probe := f(upperHigh);
        if !ValidQuote(probe) {
          assert !Valid(f, upperHigh);
          break;
        }
        assert Valid(f, upperHigh);
        upperLow := upperHigh;
        upperHigh := SaturatingDouble(upperHigh);
        rung := rung + 1;
        if upperHigh <= upperLow || upperHigh == U64_MAX {
          upperHigh := U64_MAX;
          break;
        }
      }
    }
  }

  /** `find_boundaries_coarse`. */
  method FindBoundariesCoarse<E>(f: Oracle<E>)
    returns (lowerLow: nat, lowerHigh: nat, upperLow: nat, upperHigh: nat, ghost k: nat, ghost j: nat, ghost probes: nat)
    ensures NoValidPower(f) ==> lowerLow == Pow2(63) && lowerHigh == upperLow == upperHigh == U64_MAX
    ensures !NoValidPower(f) ==> CoarseBrackets(f, k, j, lowerLow, lowerHigh, upperLow, upperHigh)
    ensures probes <= 65
  {
    lowerLow, lowerHigh, k, probes := FindFirstValid(f);
    ghost var more;
    upperLow, upperHigh, j, more := FindFirstInvalid(f, lowerHigh, k);
    probes := probes + more;
    DoublingStep(k);
  }

  // --- refinement ---

  /** The width a search may still have after so many probes, once it started no wider than `Pow2(63) + 2`. */
  ghost predicate WithinBudget(width: nat, probes: nat) {
    probes <= 57 && width <= Pow2(63 - probes) + 2
  }

  /** Probing the middle of a wide interval halves it, up to one atom, and fits the probe budget. */
  lemma ProbeHalves(lo: nat, hi: nat, probes: nat)
    requires lo <= hi && hi - lo > 100
    ensures var mid := hi / 2 + lo / 2;
            && lo < mid < hi
            && (WithinBudget(hi - lo, probes) ==>
                  WithinBudget(mid - lo, probes + 1) && WithinBudget(hi - mid, probes + 1))
  {
    WideLeavesProbes(hi - lo, probes);
  }

  lemma WideLeavesProbes(width: nat, probes: nat)
    requires width > 100
    ensures WithinBudget(width, probes) ==> probes <= 56
  {
    Pow2Constants();
  }

  // --- the grid the probes fall on ---

  /** Two neighbouring multiples of `Pow2(m)`. */
  ghost predicate Cell(lo: nat, hi: nat, m: nat) {
    hi == lo + Pow2(m) && lo % Pow2(m) == 0
  }

  lemma EvenMultiple(x: nat, p: nat)
    requires p > 0 && x % (2 * p) == 0
    ensures x % 2 == 0 && x % p == 0 && (x + p) % p == 0 && (x + p) % (2 * p) == p
  {
    var q := x / (2 * p);
    assert x == (2 * p) * q;
    assert x == p * (2 * q) && x + p == p * (2 * q + 1);
    ExactQuotient(2, p * q, x);
    ExactQuotient(p, 2 * q, x);
    ExactQuotient(p, 2 * q + 1, x + p);
    var y := x + p;
    assert y == (2 * p) * (y / (2 * p)) + y % (2 * p);
    FloorUnique(2 * p, q, y / (2 * p), x, y);
  }

  /** A wide cell splits into two cells at the very amount the search probes. */
  lemma CellHalves(lo: nat, hi: nat, m: nat)
    requires m >= 6 && Cell(lo, hi, m) && hi - lo > 100
    ensures m >= 7
    ensures var mid := hi / 2 + lo / 2; Cell(lo, mid, m - 1) && Cell(mid, hi, m - 1)
  {
    Pow2Constants();
    assert Pow2(m) == 2 * Pow2(m - 1);
    EvenMultiple(lo, Pow2(m - 1));
    assert Pow2(m - 1) == 2 * Pow2(m - 2);
  }

  lemma NarrowCell(lo: nat, hi: nat, m: nat)
    requires m >= 6 && Cell(lo, hi, m) && hi - lo <= 100
    ensures m == 6
  {
    Pow2Constants();
    if m >= 7 { Pow2Monotone(7, m); }
  }

  const TWO63: nat := 0x8000_0000_0000_0000
  const TWO64: nat := 0x1_0000_0000_0000_0000

  /**
    The saturated bracket ends one short of a power of two, so halving drifts off
    the multiples of 64: the probe for multiple `a` is one atom below it when `a`
    lies a power of two above `TWO63`, and two atoms below it otherwise.
  */
  ghost function Drift(a: nat): nat {
    if a == TWO63 then 0
    else if exists i :: 6 <= i <= 63 && a == TWO63 + Pow2(i) then 1
    else 2
  }

  ghost predicate DriftCell(a: nat, lo: nat, hi: nat, m: nat) {
    && m <= 63 && a % Pow2(m) == 0 && TWO63 <= a && a + Pow2(m) <= TWO64
    && lo + Drift(a) == a && hi + Drift(a + Pow2(m)) == a + Pow2(m)
  }

  lemma ProductIsMultiple(p: nat, q: nat)
    requires p > 0
    ensures (p * q) % p == 0
  {
    ExactQuotient(p, q, p * q);
  }

  lemma Pow2Divides(a: nat, b: nat)
    requires a <= b
    ensures Pow2(b) % Pow2(a) == 0
  {
    Pow2Adds(a, b - a);
    assert a + (b - a) == b;
    ProductIsMultiple(Pow2(a), Pow2(b - a));
    hide Pow2;
  }

  /** An odd multiple of `p` is not a multiple of `2 * p`. */
  lemma OddMultipleIsNoPower(a: nat, m: nat, i: nat)
    requires 1 <= m <= 63 && a % Pow2(m) == 0 && TWO63 < a
    ensures a + Pow2(m - 1) != TWO63 + Pow2(i)
  {
    Pow2Constants();
    var p := Pow2(m - 1);
    Pow2Divides(m, 63);
    if a + p == TWO63 + Pow2(i) {
      DifferenceIsMultiple(a, TWO63, 2 * p);
      EvenMultiple(a - TWO63, p);
      if i < m {
        Pow2Monotone(i, m - 1);
      } else {
        Pow2Divides(m, i);
      }
      assert false;
    }
  }

  lemma DifferenceIsMultiple(x: nat, y: nat, p: nat)
    requires p > 0 && y <= x && x % p == 0 && y % p == 0
    ensures (x - y) % p == 0
  {
    assert x == p * (x / p) && y == p * (y / p);
    assert x - y == p * (x / p - y / p);
    ExactQuotient(p, x / p - y / p, x - y);
  }

  /** The drift of a cell's middle follows from that of its ends. */
  lemma DriftOfMiddle(a: nat, m: nat)
    requires 7 <= m <= 63 && a % Pow2(m) == 0 && TWO63 <= a
    ensures Drift(a + Pow2(m - 1)) == (Drift(a) + 1) / 2 + (Drift(a + Pow2(m)) + 1) / 2
  {
    if a == TWO63 {
      assert a + Pow2(m) == TWO63 + Pow2(m) && a + Pow2(m - 1) == TWO63 + Pow2(m - 1);
    } else {
      forall i: nat
        ensures a + Pow2(m - 1) != TWO63 + Pow2(i)
      {
        OddMultipleIsNoPower(a, m, i);
      }
    }
  }

  /** The probed amount of a drifted cell is its middle with the middle's own drift. */
  lemma DriftedMiddle(a: nat, lo: nat, hi: nat, m: nat)
    requires 7 <= m && DriftCell(a, lo, hi, m)
    ensures hi / 2 + lo / 2 + Drift(a + Pow2(m - 1)) == a + Pow2(m - 1)
  {
    var half, quarter := Pow2(m - 1), Pow2(m - 2);
    assert Pow2(m) == 2 * half && half == 2 * quarter;
    EvenMultiple(a, half);
    DriftOfMiddle(a, m);
    DriftRange(a);
    DriftRange(a + Pow2(m));
    hide Pow2, Drift;
    HalvesOfDrifted(a, Drift(a), quarter, Drift(a + Pow2(m)));
  }

  lemma DriftCellHalves(a: nat, lo: nat, hi: nat, m: nat)
    requires m >= 6 && DriftCell(a, lo, hi, m) && hi - lo > 100
    ensures m >= 7
    ensures var mid := hi / 2 + lo / 2; DriftCell(a, lo, mid, m - 1) && DriftCell(a + Pow2(m - 1), mid, hi, m - 1)
  {
    WideDriftCell(a, lo, hi, m);
    DriftedMiddle(a, lo, hi, m);
    var half := Pow2(m - 1);
    assert Pow2(m) == 2 * half;
    EvenMultiple(a, half);
    hide Pow2, Drift;
    assert a + half + half == a + Pow2(m);
  }

  lemma WideDriftCell(a: nat, lo: nat, hi: nat, m: nat)
    requires m >= 6 && DriftCell(a, lo, hi, m) && hi - lo > 100
    ensures m >= 7
  {
    Pow2Constants();
    DriftRange(a);
    hide Drift;
  }

  lemma DriftRange(a: nat)
    ensures Drift(a) <= 2
  {
  }

  lemma HalvesOfDrifted(a: nat, d: nat, quarter: nat, e: nat)
    requires a % 2 == 0 && d <= a && e <= a
    ensures (a + 4 * quarter - e) / 2 + (a - d) / 2 == a + 2 * quarter - ((d + 1) / 2 + (e + 1) / 2)
  {
  }

  lemma NarrowDriftCell(a: nat, lo: nat, hi: nat, m: nat)
    requires m >= 6 && DriftCell(a, lo, hi, m) && hi - lo <= 100
    ensures m == 6
  {
    Pow2Constants();
    if m >= 7 { Pow2Monotone(7, m); }
  }

  /** The whole saturated bracket is the first such cell. */
  lemma TopIsDriftCell()
    ensures DriftCell(TWO63, TWO63, U64_MAX, 63)
  {
    Pow2Constants();
    ExactQuotient(TWO63, 1, TWO63);
    assert TWO63 + Pow2(63) == TWO64;
  }

  method RefineLower<E>(f: Oracle<E>, low: nat, high: nat, ghost m: nat) returns (r: nat, ghost floor: nat, ghost probes: nat)
    requires low <= high <= U64_MAX
    ensures low <= floor <= r <= high && r - floor <= 100 && (low < high ==> floor < r)
    ensures floor == low || !Valid(f, floor)
    ensures r == high || Valid(f, r)
    ensures high - low <= 100 ==> r == high && probes == 0
    ensures m >= 6 && Cell(low, high, m) ==> Cell(floor, r, 6)
    ensures WithinBudget(high - low, 0) ==> probes <= 57
  {
    hide Cell, Pow2;
    var lo, hi := low, high;
    ghost var j := m;
    probes := 0;
    while hi - lo > 100
      invariant low <= lo <= hi <= high && (low < high ==> lo < hi)
      invariant lo == low || !Valid(f, lo)
      invariant hi == high || Valid(f, hi)
      invariant high - low <= 100 ==> hi == high && lo == low && probes == 0
      invariant m >= 6 && Cell(low, high, m) ==> j >= 6 && Cell(lo, hi, j)
      invariant WithinBudget(high - low, 0) ==> WithinBudget(hi - lo, probes)
    {
      ProbeHalves(lo, hi, probes);
      if m >= 6 && Cell(low, high, m) {
        CellHalves(lo, hi, j);
        j := j - 1;
      }
      probes := probes + 1;
      var mid := hi / 2 + lo / 2;
      var probe := f(mid);
      if ValidQuote(probe) {
        hi := mid;
      } else {
        lo := mid;
      }
    }
    if m >= 6 && Cell(low, high, m) { NarrowCell(lo, hi, j); }
    r, floor := hi, lo;
  }

  method RefineUpper<E>(f: Oracle<E>, low: nat, high: nat, ghost m: nat)
    returns (r: nat, ghost ceiling: nat, ghost a: nat, ghost probes: nat)
    requires low <= high <= U64_MAX
    ensures low <= r <= ceiling <= high && ceiling - r <= 100 && (low < high ==> r < ceiling)
    ensures ceiling == high || !Valid(f, ceiling)
    ensures r == low || Valid(f, r)
    ensures high - low <= 100 ==> r == low && probes == 0
    ensures m >= 6 && Cell(low, high, m) ==> Cell(r, ceiling, 6)
    ensures low == TWO63 && high == U64_MAX ==> DriftCell(a, r, ceiling, 6)
    ensures WithinBudget(high - low, 0) ==> probes <= 57
  {
    TopIsDriftCell();
    hide Cell, DriftCell, Pow2;
    var lo, hi := low, high;
    ghost var j, top := m, 63;
    a, probes := TWO63, 0;
    while hi - lo > 100
      invariant low <= lo <= hi <= high && (low < high ==> lo < hi)
      invariant hi == high || !Valid(f, hi)
      invariant lo == low || Valid(f, lo)
      invariant high - low <= 100 ==> hi == high && lo == low && probes == 0
      invariant m >= 6 && Cell(low, high, m) ==> j >= 6 && Cell(lo, hi, j)
      invariant low == TWO63 && high == U64_MAX ==> top >= 6 && DriftCell(a, lo, hi, top)
      invariant WithinBudget(high - low, 0) ==> WithinBudget(hi - lo, probes)
    {
      ProbeHalves(lo, hi, probes);
      if m >= 6 && Cell(low, high, m) {
        CellHalves(lo, hi, j);
        j := j - 1;
      }
      if low == TWO63 && high == U64_MAX {
        DriftCellHalves(a, lo, hi, top);
        top := top - 1;
      }
      probes := probes + 1;
      var mid := hi / 2 + lo / 2;
      var probe := f(mid);
      if ValidQuote(probe) {
        lo := mid;
        a := a + Pow2(Max(top, 0));
      } else {
        hi := mid;
      }
    }
    if m >= 6 && Cell(low, high, m) { NarrowCell(lo, hi, j); }
    if low == TWO63 && high == U64_MAX { NarrowDriftCell(a, lo, hi, top); }
    r, ceiling := lo, hi;
  }

  // --- the ends the search reports ---

  ghost predicate IsPow2(x: nat) {
    exists j: nat :: x == Pow2(j)
  }

  /** The oracle accepts exactly the amounts in `[lowest, highest]`. */
  ghost predicate AcceptsInterval<E>(f: Oracle<E>, lowest: nat, highest: nat) {
    && lowest <= highest <= U64_MAX
    && forall x: nat :: x <= U64_MAX ==> (Valid(f, x) <==> lowest <= x <= highest)
  }

  /** The lower end for amounts valid from `lowest` on: the next power of two up to 64, the next multiple of 64 above. */
  ghost predicate LowerEndFor(lowest: nat, lo: nat) {
    if lowest <= 64 then IsPow2(lo) && lowest <= lo && (lo == 1 || lo / 2 < lowest)
    else lo == (lowest + 63) / 64 * 64
  }

  /** `a` is a multiple of 64 whose probe may become the saturated upper end. */
  predicate TopMultiple(a: nat) {
    a % 64 == 0 && TWO63 <= a && a + 64 <= TWO64
  }

  /** The last drifted multiple of 64 that is still valid; the one at the very top is never probed. */
  ghost predicate SaturatedEnd(highest: nat, hi: nat) {
    exists a: nat :: TopMultiple(a) && hi + Drift(a) == a && hi <= highest
                     && (a + 64 == TWO64 || highest + Drift(a + 64) < a + 64)
  }

  /**
    The upper end for amounts valid from `lowest` to `highest`: the last power
    of two below 64, the last multiple of 64 below `TWO63`, and a drifted one
    above.  Only a search that starts at `TWO63` probes the very top.
  */
  ghost predicate UpperEndFor(lowest: nat, highest: nat, hi: nat) {
    if highest < 64 then IsPow2(hi) && hi <= highest < 2 * hi
    else if highest < TWO63 then hi == highest / 64 * 64
    else if highest == U64_MAX && 2 * lowest > TWO63 then hi == U64_MAX
    else SaturatedEnd(highest, hi)
  }

  /** Should the oracle accept an interval, these are the ends reported for it. */
  ghost predicate ExactEnds<E>(f: Oracle<E>, lo: nat, hi: nat) {
    forall lowest: nat, highest: nat :: AcceptsInterval(f, lowest, highest) ==>
      LowerEndFor(lowest, lo) && UpperEndFor(lowest, highest, hi)
  }

  ghost predicate OnLowerGrid(lowest: nat) {
    if lowest <= 64 then IsPow2(lowest) else lowest % 64 == 0
  }

  ghost predicate OnUpperGrid(lowest: nat, highest: nat) {
    if highest < 64 then IsPow2(highest)
    else if highest < TWO63 then highest % 64 == 0
    else (highest == U64_MAX && 2 * lowest > TWO63) || exists a: nat :: TopMultiple(a) && highest + Drift(a) == a
  }

  /** The lower end is at most 63 atoms inside, and exact if and only if `lowest` is on the grid. */
  lemma LowerEndExact(lowest: nat, lo: nat)
    requires LowerEndFor(lowest, lo)
    ensures lowest <= lo <= lowest + 63
    ensures lo == lowest <==> OnLowerGrid(lowest)
  {
    if lowest <= 64 {
      var j: nat :| lo == Pow2(j);
      Pow2Constants();
      if j >= 7 { Pow2Monotone(7, j); }
      if j >= 6 && lo != 64 { Pow2Monotone(6, j); }
      forall i: nat | lowest == Pow2(i)
        ensures lo == lowest
      {
        if i < j { Pow2Monotone(i, j); }
        if j < i { Pow2Monotone(j, i); }
      }
    }
  }

  lemma DriftedIncrease(a: nat, b: nat)
    requires a + 64 <= b
    ensures a - Drift(a) < b - Drift(b)
  {
  }

  /** The upper end is at most 65 atoms inside, and exact if and only if `highest` is on the grid. */
  lemma UpperEndExact(lowest: nat, highest: nat, hi: nat)
    requires lowest <= highest <= U64_MAX && UpperEndFor(lowest, highest, hi)
    ensures highest - 65 <= hi <= highest
    ensures hi == highest <==> OnUpperGrid(lowest, highest)
  {
    if highest < 64 {
      var j: nat :| hi == Pow2(j);
      forall i: nat | highest == Pow2(i)
        ensures hi == highest
      {
        if i < j { Pow2Monotone(i, j); }
        if j < i { Pow2Monotone(j, i); }
      }
    } else if highest >= TWO63 && !(highest == U64_MAX && 2 * lowest > TWO63) {
      SaturatedEndExact(highest, hi);
    }
  }

  lemma SaturatedEndExact(highest: nat, hi: nat)
    requires TWO63 <= highest <= U64_MAX && SaturatedEnd(highest, hi)
    ensures highest - 65 <= hi <= highest
    ensures hi == highest <==> exists a: nat :: TopMultiple(a) && highest + Drift(a) == a
  {
    var a: nat :| TopMultiple(a) && hi + Drift(a) == a && hi <= highest && (a + 64 == TWO64 || highest + Drift(a + 64) < a + 64);
    DriftRange(a);
    hide Drift;
    forall b: nat | TopMultiple(b) && highest + Drift(b) == b
      ensures hi == highest
    {
      DriftedIsUnique(highest, hi, a, b);
    }
  }

  /** Only one drifted multiple sits at or just below an amount. */
  lemma DriftedIsUnique(highest: nat, hi: nat, a: nat, b: nat)
    requires TopMultiple(a) && hi + Drift(a) == a && hi <= highest && (a + 64 == TWO64 || highest + Drift(a + 64) < a + 64)
    requires TopMultiple(b) && highest + Drift(b) == b
    ensures hi == highest
  {
    hide Drift;
    DriftedOrder(a, b);
    DriftedOrder(b, a);
    DriftedOrder(a + 64, b);
  }

  lemma DriftedOrder(a: nat, b: nat)
    requires a % 64 == 0 && b % 64 == 0
    ensures a < b <==> a - Drift(a) < b - Drift(b)
  {
    if a < b { DriftedIncrease(a, b); }
    if b < a { DriftedIncrease(b, a); }
  }

  // --- the search ---

  /**
    `find_boundaries`.  For every oracle: it fails exactly when no power of two
    is quotable, never reports a collapsed search, and otherwise returns two
    quotable ends.  For an interval oracle the two ends are given outright.
  */
  method FindBoundaries<E>(f: Oracle<E>) returns (r: Result<(nat, nat), BoundsError>, ghost probes: nat)
    ensures r.Err? <==> NoValidPower(f)
    ensures r.Err? ==> r.error == NoQuotableValue
    ensures r.Ok? ==> var (lo, hi) := r.value;
                      1 <= lo <= hi <= U64_MAX && Valid(f, lo) && Valid(f, hi)
    ensures r.Ok? ==> ExactEnds(f, r.value.0, r.value.1)
    ensures r.Ok? ==> forall k: nat :: FirstValidPower(f, k) && k <= 7 ==> r.value.0 == Pow2(k)
    ensures r.Ok? && AcceptsInterval(f, r.value.0, r.value.1) <==> FindsMaximalRange(f)
    ensures probes <= 65 + 57 + 57
  {
    var lowerLow, lowerHigh, upperLow, upperHigh, k, j, coarse := FindBoundariesCoarse(f);
    hide Pow2, ValidQuote;
    CoarseNeverCollapses(f, k, j, lowerLow, lowerHigh, upperLow, upperHigh);
    probes := coarse;
    if lowerLow == upperHigh {
      r := Err(BoundarySearchFailed);
    } else if lowerHigh == U64_MAX {
      r := Err(NoQuotableValue);
    } else {
      var lo, floor, p := RefineLower(f, lowerLow, lowerHigh, SaturatingSub(k, 1));
      var hi, ceiling, a, q := RefineUpper(f, upperLow, upperHigh, j);
      probes := probes + p + q;
      r := Ok((lo, hi));
      hide Rung, Cell, DriftCell, LowerEndFor, UpperEndFor;
      forall lowest: nat, highest: nat | AcceptsInterval(f, lowest, highest)
        ensures LowerEndFor(lowest, lo) && UpperEndFor(lowest, highest, hi)
      {
        LowerEndFound(f, lowest, highest, k, floor, lo);
        UpperEndFound(f, lowest, highest, k, j, hi, ceiling, a);
      }
      forall i: nat | FirstValidPower(f, i) && i <= 7
        ensures lo == Pow2(i)
      {
        SmallPowerIsKept(f, i, k);
      }
    }
    hide FindsMaximalRange, NoValidPower, ExactEnds;
    MaximalRangeIff(f, r);
  }

  /** A first valid power up to 128 is reported as it is, for any oracle. */
  lemma SmallPowerIsKept<E>(f: Oracle<E>, j: nat, k: nat)
    requires FirstValidPower(f, j) && FirstValidPower(f, k) && j <= 7
    ensures j == k && Pow2(k) - HalfPower(k) <= 100
  {
    assert !(j < k) && !(k < j);
    Pow2Constants();
    if k > 0 { Pow2Monotone(k - 1, 6); }
  }

  /** The coarse bracket of the lower end is a cell of the grid. */
  lemma LowerBracketIsCell(k: nat)
    requires 7 <= k
    ensures Cell(HalfPower(k), Pow2(k), k - 1) && HalfPower(k) >= 64
  {
    Pow2Constants();
    Pow2Monotone(6, k - 1);
    Pow2Divides(k - 1, k - 1);
  }

  lemma LowerPower(lowest: nat, k: nat)
    requires k <= 6 && lowest <= Pow2(k) && (k > 0 ==> HalfPower(k) < lowest)
    ensures LowerEndFor(lowest, Pow2(k))
  {
    Pow2Constants();
    Pow2Monotone(k, 6);
    assert Pow2(0) == 1;
    assert k > 0 ==> Pow2(k) == 2 * Pow2(k - 1);
  }

  lemma LowerMultiple(lowest: nat, floor: nat, lo: nat)
    requires 64 <= floor < lowest <= lo && floor % 64 == 0 && lo == floor + 64
    ensures LowerEndFor(lowest, lo)
  {
  }

  lemma LowerEndFound<E>(f: Oracle<E>, lowest: nat, highest: nat, k: nat, floor: nat, lo: nat)
    requires AcceptsInterval(f, lowest, highest) && FirstValidPower(f, k)
    requires HalfPower(k) <= floor <= lo <= Pow2(k) && (floor == HalfPower(k) || !Valid(f, floor)) && Valid(f, lo)
    requires Pow2(k) - HalfPower(k) <= 100 ==> lo == Pow2(k)
    requires SaturatingSub(k, 1) >= 6 && Cell(HalfPower(k), Pow2(k), SaturatingSub(k, 1)) ==> Cell(floor, lo, 6)
    ensures LowerEndFor(lowest, lo)
  {
    Pow2Constants();
    DoublingStep(k);
    assert k > 0 ==> !Valid(f, HalfPower(k)) && HalfPower(k) == Pow2(k - 1);
    if k > 0 { Pow2Monotone(k - 1, k); }
    hide LowerEndFor, ValidQuote, HalfPower;
    if k <= 6 {
      Pow2Monotone(k, 6);
      hide Pow2;
      LowerPower(lowest, k);
    } else {
      LowerBracketIsCell(k);
      hide Pow2;
      LowerMultiple(lowest, floor, lo);
    }
  }

  /** Below `TWO63` the bracket is a cell, narrow or wide. */
  lemma UpperBelowTop(lowest: nat, highest: nat, j: nat, hi: nat, ceiling: nat)
    requires j < 63 && Pow2(j) <= hi <= highest < ceiling <= Pow2(j + 1)
    requires Pow2(j + 1) - Pow2(j) <= 100 ==> hi == Pow2(j)
    requires j >= 6 && Cell(Pow2(j), Pow2(j + 1), j) ==> Cell(hi, ceiling, 6)
    ensures UpperEndFor(lowest, highest, hi)
  {
    Pow2Constants();
    Pow2Monotone(j + 1, 63);
    assert Pow2(j + 1) == 2 * Pow2(j);
    if j < 6 {
      Pow2Monotone(j + 1, 6);
      hide Pow2;
    } else {
      Pow2Monotone(6, j);
      Pow2Divides(j, j);
      hide Pow2;
      UpperMultiple(highest, hi, ceiling);
    }
  }

  lemma UpperMultiple(highest: nat, hi: nat, ceiling: nat)
    requires Cell(hi, ceiling, 6) && hi <= highest < ceiling
    ensures hi == highest / 64 * 64
  {
    Pow2Constants();
    hide Pow2;
  }

  lemma UpperSaturated(lowest: nat, highest: nat, hi: nat, ceiling: nat, a: nat)
    requires TWO63 <= highest <= U64_MAX && !(highest == U64_MAX && 2 * lowest > TWO63)
    requires DriftCell(a, hi, ceiling, 6) && hi <= highest && (highest < ceiling || ceiling == U64_MAX)
    ensures UpperEndFor(lowest, highest, hi)
  {
    Pow2Constants();
    DriftRange(a + 64);
    hide Pow2, Drift;
    assert TopMultiple(a);
  }

  lemma UpperEndFound<E>(f: Oracle<E>, lowest: nat, highest: nat, k: nat, j: nat, hi: nat, ceiling: nat, a: nat)
    requires AcceptsInterval(f, lowest, highest) && FirstValidPower(f, k)
    requires k <= j <= 64 && Valid(f, Rung(j)) && (j == 64 ==> k == 63)
    requires j < 63 || (j == 63 && k == 63) ==> !Valid(f, Rung(j + 1))
    requires Rung(j) <= hi <= ceiling <= Rung(j + 1) && (ceiling == Rung(j + 1) || !Valid(f, ceiling)) && Valid(f, hi)
    requires hi < ceiling || j == 64
    requires Rung(j + 1) - Rung(j) <= 100 ==> hi == Rung(j)
    requires j >= 6 && Cell(Rung(j), Rung(j + 1), j) ==> Cell(hi, ceiling, 6)
    requires Rung(j) == TWO63 && Rung(j + 1) == U64_MAX ==> DriftCell(a, hi, ceiling, 6)
    ensures UpperEndFor(lowest, highest, hi)
  {
    Pow2Constants();
    hide Pow2, ValidQuote, Cell, DriftCell, SaturatedEnd;
    if j < 63 {
      DoublingStep(j);
      hide UpperEndFor;
      UpperBelowTop(lowest, highest, j, hi, ceiling);
    } else {
      StartOfTop(f, lowest, highest, k);
      if j == 63 {
        hide UpperEndFor;
        UpperSaturated(lowest, highest, hi, ceiling, a);
      }
    }
  }

  /** Whether the search started at the highest power decides whether it probes the very top. */
  lemma StartOfTop<E>(f: Oracle<E>, lowest: nat, highest: nat, k: nat)
    requires AcceptsInterval(f, lowest, highest) && FirstValidPower(f, k) && TWO63 <= highest
    ensures k == 63 <==> 2 * lowest > TWO63
  {
    Pow2Constants();
    assert Pow2(63) == 2 * Pow2(62);
    if k < 63 {
      Pow2Monotone(k, 62);
    } else {
      assert !Valid(f, Pow2(62));
    }
  }

  /** An oracle that accepts everything between two accepted amounts accepts an interval. */
  lemma ConvexIsInterval<E>(f: Oracle<E>, some: nat) returns (lowest: nat, highest: nat)
    requires some <= U64_MAX && Valid(f, some)
    requires forall x: nat, y: nat, z: nat :: x <= y <= z <= U64_MAX && Valid(f, x) && Valid(f, z) ==> Valid(f, y)
    ensures AcceptsInterval(f, lowest, highest)
  {
    var accepted := set x: int | 0 <= x <= U64_MAX && Valid(f, x);
    assert some in accepted;
    lowest := ExtremeExists(accepted, false);
    highest := ExtremeExists(accepted, true);
    forall x: nat | x <= U64_MAX
      ensures Valid(f, x) <==> lowest <= x <= highest
    {
      assert Valid(f, x) ==> x in accepted;
      assert lowest in accepted && highest in accepted;
    }
  }

  lemma CoarseNeverCollapses<E>(f: Oracle<E>, k: nat, j: nat, lowerLow: nat, lowerHigh: nat, upperLow: nat, upperHigh: nat)
    requires NoValidPower(f) ==> lowerLow == Pow2(63) && lowerHigh == upperLow == upperHigh == U64_MAX
    requires !NoValidPower(f) ==> CoarseBrackets(f, k, j, lowerLow, lowerHigh, upperLow, upperHigh)
    ensures lowerLow != upperHigh
    ensures lowerHigh == U64_MAX <==> NoValidPower(f)
    ensures lowerLow < lowerHigh && lowerHigh - lowerLow <= Pow2(63) + 2
    ensures lowerHigh <= upperLow <= upperHigh <= U64_MAX && (!NoValidPower(f) && j < 64 ==> upperLow < upperHigh)
    ensures upperHigh - upperLow <= Pow2(63) + 2
  {
    Pow2Constants();
    Pow2Monotone(Min(k, 63), 63);
    if 0 < k <= 63 { Pow2Monotone(k - 1, k); }
    if !NoValidPower(f) && j <= 63 {
      Pow2Monotone(k, j);
      DoublingStep(j);
    }
  }

  /** The search finds nothing in an interval without a power of two up to 2^63, however many amounts are valid. */
  ghost predicate HoldsPower(lowest: nat, highest: nat) {
    exists k :: 0 <= k <= 63 && lowest <= Pow2(k) <= highest
  }

  lemma IntervalHasValidPower<E>(f: Oracle<E>, lowest: nat, highest: nat)
    requires AcceptsInterval(f, lowest, highest)
    ensures NoValidPower(f) <==> !HoldsPower(lowest, highest)
  {
    hide ValidQuote, Pow2;
    forall k | 0 <= k <= 63
      ensures Valid(f, Pow2(k)) <==> lowest <= Pow2(k) <= highest
    {
      DoublingStep(k);
    }
  }

  /** The oracles for which the documented result is the actual one. */
  ghost predicate FindsMaximalRange<E>(f: Oracle<E>) {
    exists lowest, highest :: AcceptsInterval(f, lowest, highest)
                              && OnLowerGrid(lowest) && OnUpperGrid(lowest, highest) && HoldsPower(lowest, highest)
  }

  /** A search whose failures and ends are as `FindBoundaries` states them. */
  ghost predicate SearchOutcome<E>(f: Oracle<E>, r: Result<(nat, nat), BoundsError>) {
    (r.Err? <==> NoValidPower(f)) && (r.Ok? ==> ExactEnds(f, r.value.0, r.value.1))
  }

  /**
    The documented promise of a maximal valid range, decided on the outcome of
    the search: it is kept exactly for the oracles that accept an interval with
    both ends on the grid and a power of two inside.
  */
  lemma MaximalRangeIff<E>(f: Oracle<E>, r: Result<(nat, nat), BoundsError>)
    requires SearchOutcome(f, r)
    ensures r.Ok? && AcceptsInterval(f, r.value.0, r.value.1) <==> FindsMaximalRange(f)
  {
    hide LowerEndFor, UpperEndFor, OnLowerGrid, OnUpperGrid, NoValidPower, HoldsPower, ValidQuote;
    forall lowest: nat, highest: nat | AcceptsInterval(f, lowest, highest)
      ensures r.Err? <==> !HoldsPower(lowest, highest)
      ensures r.Ok? ==> (r.value.0 == lowest <==> OnLowerGrid(lowest)) && (r.value.1 == highest <==> OnUpperGrid(lowest, highest))
    {
      IntervalHasValidPower(f, lowest, highest);
      if r.Ok? {
        LowerEndExact(lowest, r.value.0);
        UpperEndExact(lowest, highest, r.value.1);
      }
    }
  }

  /** How far inside the true ends a reported range can lie. */
  lemma EndsAreClose<E>(f: Oracle<E>, lo: nat, hi: nat, lowest: nat, highest: nat)
    requires ExactEnds(f, lo, hi) && AcceptsInterval(f, lowest, highest)
    ensures lowest <= lo <= lowest + 63 && highest - 65 <= hi <= highest
  {
    LowerEndExact(lowest, lo);
    UpperEndExact(lowest, highest, hi);
  }

  /**
    The documented promise that everything below the lower end is invalid does
    not hold: a pool quoting exactly from 70 atoms up gets the lower end 128.
  */
  method LowerEndCanOvershoot() returns (f: Oracle<bool>, r: Result<(nat, nat), BoundsError>)
    ensures AcceptsInterval(f, 70, U64_MAX)
    ensures r.Ok? && r.value.0 == 128 && Valid(f, r.value.0 - 58)
  {
    var key := Pubkey(0);
    f := (x: nat) => Ok(QuoteResult(key, key, x, 1, x < 70, 0.0));
    ghost var probes;
    r, probes := FindBoundaries(f);
    Pow2Constants();
    assert Valid(f, Pow2(7));
    assert AcceptsInterval(f, 70, U64_MAX);
  }

  /**
    Nor does the documented failure mean that no input is quotable: an oracle
    that quotes 192 alone, both its ends on the grid, is found to quote nothing.
  */
  method QuotableValueCanBeMissed() returns (f: Oracle<bool>, r: Result<(nat, nat), BoundsError>)
    ensures AcceptsInterval(f, 192, 192) && OnLowerGrid(192) && OnUpperGrid(192, 192)
    ensures r == Err(NoQuotableValue) && Valid(f, 192)
  {
    var key := Pubkey(0);
    f := (x: nat) => Ok(QuoteResult(key, key, x, 1, x != 192, 0.0));
    ghost var probes;
    r, probes := FindBoundaries(f);
    assert AcceptsInterval(f, 192, 192);
    IntervalHasValidPower(f, 192, 192);
    forall k | 0 <= k <= 63
      ensures Pow2(k) != 192
    {
      NoPowerIs192(k);
    }
  }

  lemma NoPowerIs192(k: nat)
    ensures Pow2(k) != 192
  {
    Pow2Constants();
    if k <= 7 { Pow2Monotone(k, 7); } else { Pow2Monotone(8, k); }
  }
}
