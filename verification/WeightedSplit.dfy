/** The weight arithmetic of a leg and the error it accumulates over a split. */
module WeightedSplit {
  import opened Common

  const NANOS: nat := 1_000_000_000

  /** `product.saturating_div(1e9) as u64` of a saturated `u128` product. */
  function ScaleDown(product: nat): nat {
    Min(product, U128_MAX) / NANOS % (U64_MAX + 1)
  }

  /** `(available as u128).saturating_mul(weight).saturating_div(1e9) as u64`. */
  function LegInput(balance: nat, reserved: nat, weightNanos: nat): nat {
    ScaleDown(SaturatingSub(balance, reserved) * Min(weightNanos, NANOS))
  }

  lemma ScaleDownExact(product: nat, available: nat)
    requires available <= U64_MAX && product <= available * NANOS
    ensures ScaleDown(product) == product / NANOS <= available
    ensures product == available * NANOS ==> ScaleDown(product) == available
  {
  }

  lemma WeightedProduct(available: nat, weight: nat)
    requires weight <= NANOS
    ensures available * weight <= available * NANOS
  {
    assert available * NANOS - available * weight == available * (NANOS - weight);
  }

  /** The product never saturates and the cast never truncates. */
  lemma LegInputExact(balance: nat, reserved: nat, weightNanos: nat)
    requires balance <= U64_MAX
    ensures LegInput(balance, reserved, weightNanos)
         == SaturatingSub(balance, reserved) * Min(weightNanos, 1_000_000_000) / 1_000_000_000
    ensures LegInput(balance, reserved, weightNanos) <= SaturatingSub(balance, reserved)
    ensures weightNanos >= 1_000_000_000 ==> LegInput(balance, reserved, weightNanos) == SaturatingSub(balance, reserved)
  {
    hide ScaleDown;
    var available, weight := SaturatingSub(balance, reserved), Min(weightNanos, NANOS);
    WeightedProduct(available, weight);
    ScaleDownExact(available * weight, available);
  }

  /** What an exactly-consuming leg leaves of an available amount. */
  function AfterLeg(available: nat, weight: nat): nat {
    SaturatingSub(available, LegInput(available, 0, weight))
  }

  /** Unspent amount after consecutive legs that each consume exactly their input. */
  function Unspent(available: nat, weights: seq<nat>): nat
    decreases |weights|
  {
    if weights == [] then available
    else Unspent(AfterLeg(available, weights[0]), weights[1..])
  }

  function KeptShare(weight: nat): real {
    (NANOS - Min(weight, NANOS)) as real / NANOS as real
  }

  ghost function Scale(x: real, share: real): real {
    x * share
  }

  /** The unspent share in exact arithmetic. */
  ghost function Ideal(available: real, weights: seq<nat>): real
    decreases |weights|
  {
    if weights == [] then available
    else Ideal(Scale(available, KeptShare(weights[0])), weights[1..])
  }

  /** A leg of weight `w` keeps the rest of one billion parts. */
  lemma KeptShareRange(weight: nat)
    ensures 0.0 <= KeptShare(weight) <= 1.0
    ensures KeptShare(weight) == (1_000_000_000 - Min(weight, 1_000_000_000)) as real / 1_000_000_000.0
  {
  }

  /** In nanos: one leg keeps its exact share rounded up. */
  lemma LegRoundsUpNanos(before: nat, weight: nat)
    requires before <= U64_MAX
    ensures var kept := before * (NANOS - Min(weight, NANOS));
            kept <= AfterLeg(before, weight) * NANOS < kept + NANOS
  {
    LegInputExact(before, 0, weight);
    var w := Min(weight, NANOS);
    assert before * (NANOS - w) == before * NANOS - before * w;
    RoundsDown(before * w);
  }

  lemma RoundsDown(product: nat)
    ensures product - NANOS < product / NANOS * NANOS <= product
  {
  }

  lemma ShareOf(before: nat, kept: nat)
    ensures before as real * (kept as real / NANOS as real) == (before * kept) as real / NANOS as real
  {
  }

  /** One leg keeps the exact share rounded up. */
  lemma LegRoundsUp(before: nat, weight: nat)
    requires before <= U64_MAX
    ensures Scale(before as real, KeptShare(weight)) <= AfterLeg(before, weight) as real
    ensures (AfterLeg(before, weight) as real) < Scale(before as real, KeptShare(weight)) + 1.0
  {
    hide AfterLeg;
    var kept := NANOS - Min(weight, NANOS);
    ShareOf(before, kept);
    assert before * kept <= AfterLeg(before, weight) * NANOS < before * kept + NANOS by {
      LegRoundsUpNanos(before, weight);
    }
    DividedBounds(before * kept, AfterLeg(before, weight));
  }

  lemma DividedBounds(exact: nat, after: nat)
    requires exact <= after * NANOS < exact + NANOS
    ensures exact as real / NANOS as real <= after as real < exact as real / NANOS as real + 1.0
  {
  }

  lemma ProductNonNegative(x: real, y: real)
    requires x >= 0.0 && y >= 0.0
    ensures x * y >= 0.0
  {
  }

  lemma ErrorGrowsByOne(before: real, ideal: real, share: real, k: real, after: real)
    requires 0.0 <= share <= 1.0 && k >= 0.0
    requires ideal <= before <= ideal + k
    requires Scale(before, share) <= after < Scale(before, share) + 1.0
    ensures Scale(ideal, share) <= after < Scale(ideal, share) + k + 1.0
  {
    ProductNonNegative(before - ideal, share);
    ProductNonNegative(ideal + k - before, share);
    ProductNonNegative(k, 1.0 - share);
  }

  lemma ExtendSplit(before: nat, ideal: real, k: nat, weight: nat)
    requires before <= U64_MAX && ideal <= before as real <= ideal + k as real
    ensures Scale(ideal, KeptShare(weight)) <= AfterLeg(before, weight) as real
    ensures (AfterLeg(before, weight) as real) < Scale(ideal, KeptShare(weight)) + k as real + 1.0
  {
    LegRoundsUp(before, weight);
    KeptShareRange(weight);
    var share, after := KeptShare(weight), AfterLeg(before, weight) as real;
    ErrorGrowsByOne(before as real, ideal, share, k as real, after);
  }

  lemma {:induction false} SplitErrorGrows(before: nat, ideal: real, k: nat, weights: seq<nat>)
    requires before <= U64_MAX && ideal <= before as real <= ideal + k as real
    ensures Ideal(ideal, weights) <= Unspent(before, weights) as real
    ensures Unspent(before, weights) as real <= Ideal(ideal, weights) + (k + |weights|) as real
    ensures weights != [] ==> (Unspent(before, weights) as real) < Ideal(ideal, weights) + (k + |weights|) as real
    decreases |weights|
  {
    if weights != [] {
      ExtendSplit(before, ideal, k, weights[0]);
      var before', ideal' := AfterLeg(before, weights[0]), Scale(ideal, KeptShare(weights[0]));
      if |weights| > 1 {
        SplitErrorGrows(before', ideal', k + 1, weights[1..]);
      }
    }
  }

  /**
    The split error: after k legs the unspent amount is the ideal share rounded
    up by less than k atoms in all.
  */
  lemma SplitErrorBound(available: nat, weights: seq<nat>)
    requires available <= U64_MAX && weights != []
    ensures Ideal(available as real, weights) <= Unspent(available, weights) as real
    ensures (Unspent(available, weights) as real) < Ideal(available as real, weights) + |weights| as real
  {
    SplitErrorGrows(available, available as real, 0, weights);
  }

  /** A full-weight leg spends everything above the reserve. */
  lemma FullWeightEmpties(available: nat, weight: nat)
    requires available <= U64_MAX && weight >= NANOS
    ensures AfterLeg(available, weight) == 0
  {
    LegInputExact(available, 0, weight);
  }
}
