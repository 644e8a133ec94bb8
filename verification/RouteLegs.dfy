/**
  Off-chain leg assembly against the program's slicing of its remaining
  accounts: what goes in as a list of venue instructions comes out leg by leg.
*/
module RouteLegs {
  import opened Common
  import opened RouteTypes
  import opened RouteSpec
  import opened RouteLedger
  import opened TickArrayCollector
  import opened TickGrid
  import Wire

  /** A venue's raw swap instruction with the leg's route parameters. */
  datatype Leg = Leg(accounts: seq<AccountMeta>, program: Pubkey, venue: Venue, from: nat, to: nat, weightNanos: nat)

  /** `assemble_leg_accounts`: TitanPDA's signer flag is cleared, the program id is appended. */
  function AssembleLegAccounts(leg: Leg, titan: Pubkey): seq<AccountMeta> {
    seq(|leg.accounts|, i requires 0 <= i < |leg.accounts| =>
      if leg.accounts[i].pubkey == titan then leg.accounts[i].(isSigner := false) else leg.accounts[i])
    + [AccountMeta(leg.program, false, false)]
  }

  /** `build_swap_leg`: the count is cast to a byte. */
  function SpecOf(leg: Leg, titan: Pubkey): SwapSpec {
    SwapSpec(leg.venue, leg.from, leg.to, leg.weightNanos, |AssembleLegAccounts(leg, titan)| % 256)
  }

  function Specs(legs: seq<Leg>, titan: Pubkey): (r: seq<SwapSpec>)
    ensures |r| == |legs| && forall i :: 0 <= i < |legs| ==> r[i] == SpecOf(legs[i], titan)
  {
    seq(|legs|, i requires 0 <= i < |legs| => SpecOf(legs[i], titan))
  }

  function AllAccounts(legs: seq<Leg>, titan: Pubkey): seq<AccountMeta> {
    if legs == [] then [] else AssembleLegAccounts(legs[0], titan) + AllAccounts(legs[1..], titan)
  }

  /** Where leg `j` starts reading when the program adds up the counts it was sent. */
  function LegIndex(swaps: seq<SwapSpec>, start: nat, j: nat): nat
    requires j <= |swaps|
  {
    if j == 0 then start else LegIndex(swaps, start, j - 1) + swaps[j - 1].nAccounts
  }

  /** The CPI the venue's own instruction asked for, with TitanPDA signing. */
  function IntendedCall(leg: Leg, titan: Pubkey, amount: nat): CpiCall {
    CpiCall(leg.program, SignAsTitan(leg.accounts, titan), amount)
  }

  /** The program slices leg `j` out of its accounts and rebuilds exactly the intended CPI. */
  ghost predicate Recovers(r: Route, legs: seq<Leg>, j: nat)
    requires |r.swaps| == |legs| && j < |legs|
  {
    var index, n := LegIndex(r.swaps, 2 * r.mints, j), r.swaps[j].nAccounts;
    && 0 < n && index + n <= |r.accounts|
    && forall amount: nat :: LegCall(r, index, n, amount) == IntendedCall(legs[j], r.titan, amount)
  }

  /** The route carries these legs: decoded specs, and their accounts after the mint section. */
  ghost predicate Carries(r: Route, legs: seq<Leg>) {
    && 2 * r.mints <= |r.accounts|
    && r.swaps == Specs(legs, r.titan)
    && r.accounts[2 * r.mints..] == AllAccounts(legs, r.titan)
  }

  /** The CPI of a leg read off the accounts passed: the last one is the program, TitanPDA signs besides whoever did. */
  lemma LegCallIs(r: Route, index: nat, n: nat, amount: nat)
    requires 0 < n && index + n <= |r.accounts|
    ensures var call := LegCall(r, index, n, amount);
            && call.program == r.accounts[index + n - 1].pubkey && call.amount == amount && |call.metas| == n - 1
            && forall i :: 0 <= i < n - 1 ==>
                 && call.metas[i].pubkey == r.accounts[index + i].pubkey
                 && call.metas[i].isWritable == r.accounts[index + i].isWritable
                 && (call.metas[i].isSigner <==> r.accounts[index + i].isSigner || r.accounts[index + i].pubkey == r.titan)
  {
  }

  /** The leg's account count, program id included, survives the cast to a byte. */
  predicate Fits(leg: Leg) {
    |leg.accounts| <= 254
  }

  /** The byte sent for a leg is its true account count exactly when the leg fits. */
  lemma CountSurvivesCast(leg: Leg, titan: Pubkey)
    ensures SpecOf(leg, titan).nAccounts == |AssembleLegAccounts(leg, titan)| <==> Fits(leg)
  {
    assert |AssembleLegAccounts(leg, titan)| == |leg.accounts| + 1;
  }

  /** What travels for a leg: its accounts as they are but for TitanPDA's signer flag, then the program, read-only. */
  lemma AssembledAccounts(leg: Leg, titan: Pubkey)
    ensures var sent, n := AssembleLegAccounts(leg, titan), |leg.accounts|;
            && |sent| == n + 1 && sent[n] == AccountMeta(leg.program, false, false)
            && forall i :: 0 <= i < n ==>
                 && sent[i].pubkey == leg.accounts[i].pubkey && sent[i].isWritable == leg.accounts[i].isWritable
                 && (sent[i].isSigner <==> leg.accounts[i].isSigner && leg.accounts[i].pubkey != titan)
  {
  }

  /** Signing as TitanPDA undoes the clearing of its flag. */
  lemma SigningRestores(leg: Leg, titan: Pubkey)
    ensures var n := |leg.accounts|;
            SignAsTitan(AssembleLegAccounts(leg, titan)[..n], titan) == SignAsTitan(leg.accounts, titan)
  {
  }

  /** TitanPDA, and nobody else, signs the venue's instruction. */
  ghost predicate OnlyTitanSigns(metas: seq<AccountMeta>, titan: Pubkey) {
    forall i :: 0 <= i < |metas| ==> (metas[i].isSigner <==> metas[i].pubkey == titan)
  }

  /**
    An instruction signed by TitanPDA alone travels without any signer and is
    recovered verbatim, with TitanPDA its only signer again.
  */
  lemma SignedInstructionIsVerbatim(leg: Leg, titan: Pubkey, amount: nat)
    requires OnlyTitanSigns(leg.accounts, titan)
    ensures forall i :: 0 <= i <= |leg.accounts| ==> !AssembleLegAccounts(leg, titan)[i].isSigner
    ensures IntendedCall(leg, titan, amount) == CpiCall(leg.program, leg.accounts, amount)
  {
    assert SignAsTitan(leg.accounts, titan) == leg.accounts;
  }

  lemma Associates(x: seq<AccountMeta>, y: seq<AccountMeta>, z: seq<AccountMeta>)
    ensures x + (y + z) == (x + y) + z
  {
  }

  lemma {:induction false} AccountsConcatenate(a: seq<Leg>, b: seq<Leg>, titan: Pubkey)
    ensures AllAccounts(a + b, titan) == AllAccounts(a, titan) + AllAccounts(b, titan)
  {
    hide AssembleLegAccounts;
    if a == [] {
      assert a + b == b;
    } else {
      AccountsConcatenate(a[1..], b, titan);
      assert (a + b)[1..] == a[1..] + b;
      var head, x, y := AssembleLegAccounts(a[0], titan), AllAccounts(a[1..], titan), AllAccounts(b, titan);
      assert (a + b)[0] == a[0] && AllAccounts(a + b, titan) == head + (x + y);
      Associates(head, x, y);
    }
  }

  /** While every earlier leg fits, the running index is the true start of the leg. */
  lemma {:induction false} IndexIsStart(r: Route, legs: seq<Leg>, j: nat)
    requires Carries(r, legs) && j <= |legs|
    requires forall i :: 0 <= i < j ==> Fits(legs[i])
    ensures LegIndex(r.swaps, 2 * r.mints, j) == 2 * r.mints + |AllAccounts(legs[..j], r.titan)|
  {
    if j > 0 {
      IndexIsStart(r, legs, j - 1);
      CountSurvivesCast(legs[j - 1], r.titan);
      assert legs[..j] == legs[..j - 1] + [legs[j - 1]];
      AccountsConcatenate(legs[..j - 1], [legs[j - 1]], r.titan);
      assert AllAccounts([legs[j - 1]], r.titan) == AssembleLegAccounts(legs[j - 1], r.titan) + [];
    }
  }

  /** The accounts of a route's legs around leg `j`. */
  lemma AccountsAround(legs: seq<Leg>, j: nat, titan: Pubkey)
    requires j < |legs|
    ensures AllAccounts(legs, titan)
         == AllAccounts(legs[..j], titan) + (AssembleLegAccounts(legs[j], titan) + AllAccounts(legs[j + 1..], titan))
  {
    assert legs == legs[..j] + legs[j..] && legs[j..][1..] == legs[j + 1..];
    AccountsConcatenate(legs[..j], legs[j..], titan);
    hide AssembleLegAccounts;
  }

  /** A part of a sequence that starts `n` elements in, sliced by position. */
  lemma MiddleSlice(all: seq<AccountMeta>, n: nat, before: seq<AccountMeta>, middle: seq<AccountMeta>, after: seq<AccountMeta>)
    requires n <= |all| && all[n..] == before + (middle + after)
    ensures n + |before| + |middle| <= |all| && all[n + |before|..n + |before| + |middle|] == middle
  {
    var tail := all[n..];
    assert |tail| == |before| + |middle| + |after|;
    forall i | 0 <= i < |middle|
      ensures all[n + |before| + i] == middle[i]
    {
      assert tail[|before| + i] == all[n + |before| + i];
    }
  }

  lemma SliceAt(r: Route, legs: seq<Leg>, j: nat)
    requires Carries(r, legs) && j < |legs|
    ensures var start, leg := 2 * r.mints + |AllAccounts(legs[..j], r.titan)|, AssembleLegAccounts(legs[j], r.titan);
            start + |leg| <= |r.accounts| && r.accounts[start..start + |leg|] == leg
  {
    AccountsAround(legs, j, r.titan);
    hide AllAccounts, AssembleLegAccounts;
    MiddleSlice(r.accounts, 2 * r.mints, AllAccounts(legs[..j], r.titan), AssembleLegAccounts(legs[j], r.titan),
                AllAccounts(legs[j + 1..], r.titan));
  }

  lemma FittingLegRecovers(r: Route, legs: seq<Leg>, j: nat)
    requires Carries(r, legs) && j < |legs|
    requires forall i :: 0 <= i <= j ==> Fits(legs[i])
    ensures Recovers(r, legs, j)
  {
    IndexIsStart(r, legs, j);
    SliceAt(r, legs, j);
    CountSurvivesCast(legs[j], r.titan);
    SigningRestores(legs[j], r.titan);
    hide AllAccounts, LegIndex;
    var index, n := LegIndex(r.swaps, 2 * r.mints, j), r.swaps[j].nAccounts;
    forall amount: nat
      ensures LegCall(r, index, n, amount) == IntendedCall(legs[j], r.titan, amount)
    {
      assert r.accounts[index..index + n] == AssembleLegAccounts(legs[j], r.titan);
    }
  }

  /** A leg whose count does not fit a byte is never recovered, whatever precedes it. */
  lemma OversizedLegIsLost(r: Route, legs: seq<Leg>, j: nat)
    requires Carries(r, legs) && j < |legs| && !Fits(legs[j])
    ensures !Recovers(r, legs, j)
  {
    var index, n := LegIndex(r.swaps, 2 * r.mints, j), r.swaps[j].nAccounts;
    if 0 < n && index + n <= |r.accounts| {
      assert |LegCall(r, index, n, 0).metas| == n - 1;
      assert |IntendedCall(legs[j], r.titan, 0).metas| == |legs[j].accounts|;
    }
  }

  /** Slicing recovers every leg exactly when every leg has at most 254 venue accounts. */
  lemma SlicingRoundTrip(r: Route, legs: seq<Leg>)
    requires Carries(r, legs)
    ensures (forall j :: 0 <= j < |legs| ==> Recovers(r, legs, j)) <==> (forall j :: 0 <= j < |legs| ==> Fits(legs[j]))
  {
    if forall j :: 0 <= j < |legs| ==> Fits(legs[j]) {
      forall j | 0 <= j < |legs|
        ensures Recovers(r, legs, j)
      {
        FittingLegRecovers(r, legs, j);
      }
    } else {
      var j :| 0 <= j < |legs| && !Fits(legs[j]);
      OversizedLegIsLost(r, legs, j);
    }
  }

  // --- what the executor issues ---

  /** After legs `0..j` the program goes on with leg `j` at `LegIndex`. */
  lemma {:induction false} LegsContinue(w: World, r: Route, reserved: seq<nat>, l: Ledger, j: nat)
    requires r.WellFormed() && |reserved| == r.mints && j <= |r.swaps|
    ensures var done := RunLegs(w, r, reserved, l, 0, j, 2 * r.mints);
            RunLegs(w, r, reserved, l, 0, |r.swaps|, 2 * r.mints)
            == if done.Err? then done
               else RunLegs(w, r, reserved, done.value, j, |r.swaps|, LegIndex(r.swaps, 2 * r.mints, j))
  {
    LegsSplit(w, r, reserved, l, 0, j, |r.swaps|);
  }

  /** A run of legs `a..c` is the run of `a..b` followed by that of `b..c`, each from its own index. */
  lemma {:induction false} LegsSplit(w: World, r: Route, reserved: seq<nat>, l: Ledger, a: nat, b: nat, c: nat)
    requires r.WellFormed() && |reserved| == r.mints && a <= b <= c <= |r.swaps|
    ensures var done := RunLegs(w, r, reserved, l, a, b, LegIndex(r.swaps, 2 * r.mints, a));
            RunLegs(w, r, reserved, l, a, c, LegIndex(r.swaps, 2 * r.mints, a))
            == if done.Err? then done
               else RunLegs(w, r, reserved, done.value, b, c, LegIndex(r.swaps, 2 * r.mints, b))
    decreases b - a
  {
    hide RunLeg;
    if a < b {
      var after := RunLeg(w, r, reserved, l, a, LegIndex(r.swaps, 2 * r.mints, a));
      if after.Ok? {
        LegsSplit(w, r, reserved, after.value, a + 1, b, c);
      }
    }
  }

  /** The legs from `j` on with no account index at all: each venue receives the CPI it asked for. */
  function RunIntended(w: World, r: Route, legs: seq<Leg>, reserved: seq<nat>, l: Ledger, j: nat): Result<Ledger, RouteError>
    requires r.WellFormed() && |reserved| == r.mints && |r.swaps| == |legs| && j <= |legs|
    decreases |legs| - j
  {
    if j == |legs| then Ok(l)
    else if TokenAmount(l, r.Key(r.swaps[j].from)).None? then Err(InvalidAccountData)
    else
      var amount := LegOffer(r, reserved, l, j);
      if amount == 0 then RunIntended(w, r, legs, reserved, l, j + 1)
      else
        match w.cpi(j, IntendedCall(legs[j], r.titan, amount), l)
        case None => Err(VenueFailed(j))
        case Some(after) => RunIntended(w, r, legs, reserved, after, j + 1)
  }

  /** One leg of a recovered route is one intended call. */
  lemma LegIsIntended(w: World, r: Route, legs: seq<Leg>, reserved: seq<nat>, l: Ledger, j: nat)
    requires r.WellFormed() && |reserved| == r.mints && |r.swaps| == |legs| && j < |legs| && Recovers(r, legs, j)
    ensures var leg := RunLeg(w, r, reserved, l, j, LegIndex(r.swaps, 2 * r.mints, j));
            RunIntended(w, r, legs, reserved, l, j)
            == if leg.Err? then leg else RunIntended(w, r, legs, reserved, leg.value, j + 1)
  {
    hide LegCall, IntendedCall, LegIndex, LegOffer;
    var amount := LegOffer(r, reserved, l, j);
    assert LegCall(r, LegIndex(r.swaps, 2 * r.mints, j), r.swaps[j].nAccounts, amount) == IntendedCall(legs[j], r.titan, amount);
  }

  lemma {:induction false} LegsAreIntended(w: World, r: Route, legs: seq<Leg>, reserved: seq<nat>, l: Ledger, j: nat)
    requires r.WellFormed() && |reserved| == r.mints && |r.swaps| == |legs| && j <= |legs|
    requires forall i :: 0 <= i < |legs| ==> Recovers(r, legs, i)
    ensures RunLegs(w, r, reserved, l, j, |r.swaps|, LegIndex(r.swaps, 2 * r.mints, j))
         == RunIntended(w, r, legs, reserved, l, j)
    decreases |legs| - j
  {
    hide RunLeg, Recovers;
    if j < |legs| {
      LegIsIntended(w, r, legs, reserved, l, j);
      var leg := RunLeg(w, r, reserved, l, j, LegIndex(r.swaps, 2 * r.mints, j));
      if leg.Ok? {
        LegsAreIntended(w, r, legs, reserved, leg.value, j + 1);
      }
    }
  }

  /**
    The executor's leg loop over a carried route issues exactly the intended
    CPIs: with legs that fit, its moving index never shows in the outcome.
  */
  lemma ExecutorIssuesIntended(w: World, r: Route, legs: seq<Leg>, reserved: seq<nat>, l: Ledger)
    requires r.WellFormed() && |reserved| == r.mints && Carries(r, legs)
    requires forall j :: 0 <= j < |legs| ==> Fits(legs[j])
    ensures RunLegs(w, r, reserved, l, 0, |r.swaps|, 2 * r.mints) == RunIntended(w, r, legs, reserved, l, 0)
  {
    SlicingRoundTrip(r, legs);
    LegsAreIntended(w, r, legs, reserved, l, 0);
  }

  /** A whole route over legs that fit trades by the venues' own calls, out of what was deposited above the reserves. */
  lemma RouteTradesIntended(w: World, r: Route, l: Ledger, legs: seq<Leg>)
    requires r.WellFormed() && Execute(w, r, l).Ok? && Carries(r, legs) && forall j :: 0 <= j < |legs| ==> Fits(legs[j])
    ensures var p := Execute(w, r, l).value;
            && |p.reserved| == r.mints && (forall i :: 0 <= i < r.mints ==> p.reserved[i] == AmountOrZero(p.snapshot, r.Key(i)))
            && |r.swaps| == |legs| && RunIntended(w, r, legs, p.reserved, p.deposited, 0) == Ok(p.traded)
  {
    var p := Execute(w, r, l).value;
    assert RunLegs(w, r, p.reserved, p.deposited, 0, |r.swaps|, 2 * r.mints) == Ok(p.traded) && p.reserved == Reserved(r, p.snapshot);
    hide Execute, RunLegs, RunIntended;
    ExecutorIssuesIntended(w, r, legs, p.reserved, p.deposited);
  }

  predicate FieldsFit(leg: Leg) {
    Fits(leg) && leg.from < 256 && leg.to < 256 && leg.weightNanos < 0x1_0000_0000
  }

  /** The route the program sees: instruction data as decoded, accounts as passed. */
  function Received(base: Route, accounts: seq<AccountMeta>, d: Wire.Decoded): Route {
    base.(accounts := accounts, mints := d.mints, swaps := d.swaps)
  }

  /**
    The full path: build legs, encode the instruction, decode it on chain, slice
    the remaining accounts.  Every leg's CPI is the one its venue asked for.
  */
  lemma WireToCpi(base: Route, mintSection: seq<AccountMeta>, legs: seq<Leg>, amount: u64, mints: nat)
    requires mints < 256 && |mintSection| == 2 * mints && |legs| < 0x1_0000_0000
    requires forall j :: 0 <= j < |legs| ==> FieldsFit(legs[j])
    ensures Wire.Encodable(amount, mints, Specs(legs, base.titan))
    ensures var d := Wire.DecodeRoute(Wire.EncodeRoute(amount, mints, Specs(legs, base.titan)));
            && d.Some? && d.value.amount == amount && d.value.mints == mints && d.value.swaps == Specs(legs, base.titan)
            && var r := Received(base, mintSection + AllAccounts(legs, base.titan), d.value);
               |r.swaps| == |legs| && forall j :: 0 <= j < |legs| ==> Recovers(r, legs, j)
  {
    hide Recovers;
    var specs := Specs(legs, base.titan);
    forall s | s in specs
      ensures s.Valid()
    {
      var i :| 0 <= i < |specs| && s == specs[i];
      assert FieldsFit(legs[i]);
    }
    var data := Wire.EncodeRoute(amount, mints, specs);
    Wire.RouteRoundTrip(amount, mints, specs, []);
    assert data + [] == data;
    var r := Received(base, mintSection + AllAccounts(legs, base.titan), Wire.DecodeRoute(data).value);
    assert Carries(r, legs);
    SlicingRoundTrip(r, legs);
    assert forall j :: 0 <= j < |legs| ==> FieldsFit(legs[j]);
  }

  /** The same path up to the leg loop: the decoded route runs as if every venue were called directly. */
  lemma WireToExecution(w: World, base: Route, mintSection: seq<AccountMeta>, legs: seq<Leg>, amount: u64, mints: nat,
                        reserved: seq<nat>, l: Ledger)
    requires mints < 256 && |mintSection| == 2 * mints && |legs| < 0x1_0000_0000 && |reserved| == mints
    requires forall j :: 0 <= j < |legs| ==> FieldsFit(legs[j])
    ensures Wire.Encodable(amount, mints, Specs(legs, base.titan))
    ensures var d := Wire.DecodeRoute(Wire.EncodeRoute(amount, mints, Specs(legs, base.titan)));
            && d.Some? && d.value.mints == mints
            && var r := Received(base, mintSection + AllAccounts(legs, base.titan), d.value);
               |r.swaps| == |legs|
               && (forall j :: 0 <= j < |legs| ==>
                     && r.swaps[j].venue == legs[j].venue && r.swaps[j].from == legs[j].from && r.swaps[j].to == legs[j].to
                     && r.swaps[j].weightNanos == legs[j].weightNanos)
               && (r.WellFormed() ==>
                 RunLegs(w, r, reserved, l, 0, |r.swaps|, 2 * r.mints) == RunIntended(w, r, legs, reserved, l, 0))
  {
    WireToCpi(base, mintSection, legs, amount, mints);
    var d := Wire.DecodeRoute(Wire.EncodeRoute(amount, mints, Specs(legs, base.titan))).value;
    var r := Received(base, mintSection + AllAccounts(legs, base.titan), d);
    if r.WellFormed() {
      LegsAreIntended(w, r, legs, reserved, l, 0);
    }
  }

  // --- the Byreal venue's own instruction ---

  /** The fixed addresses of a pool and the programs its swap names. */
  datatype PoolKeys = PoolKeys(
    ammConfig: Pubkey, market: Pubkey, observation: Pubkey, bitmapExtension: Pubkey,
    vault0: Pubkey, vault1: Pubkey, mint0: Pubkey, mint1: Pubkey,
    splToken: Pubkey, token2022: Pubkey, memo: Pubkey)

  function ReadOnly(k: Pubkey): AccountMeta {
    AccountMeta(k, false, false)
  }

  function Writable(k: Pubkey): AccountMeta {
    AccountMeta(k, false, true)
  }

  /** `build_swap_instruction`: thirteen fixed accounts, the bitmap extension, the live arrays, the oracles. */
  function SwapInstructionAccounts(p: PoolKeys, user: Pubkey, source: Pubkey, destination: Pubkey, zeroForOne: bool,
                                   live: seq<Pubkey>, oracles: seq<Pubkey>): (r: seq<AccountMeta>)
    ensures |r| == 14 + |live| + |oracles|
    ensures r[0] == AccountMeta(user, true, false) && forall i :: 1 <= i < |r| ==> !r[i].isSigner
  {
    [AccountMeta(user, true, false), ReadOnly(p.ammConfig), Writable(p.market), Writable(source), Writable(destination),
     Writable(if zeroForOne then p.vault0 else p.vault1), Writable(if zeroForOne then p.vault1 else p.vault0),
     Writable(p.observation), ReadOnly(p.splToken), ReadOnly(p.token2022), ReadOnly(p.memo),
     ReadOnly(if zeroForOne then p.mint0 else p.mint1), ReadOnly(if zeroForOne then p.mint1 else p.mint0),
     ReadOnly(p.bitmapExtension)]
    + seq(|live|, i requires 0 <= i < |live| => Writable(live[i]))
    + seq(|oracles|, i requires 0 <= i < |oracles| => ReadOnly(oracles[i]))
  }

  /**
    A Byreal swap, account by account: the user, the pool, the user's and the
    pool's accounts for the input before those for the output, the programs, the
    two mints in the same order, the bitmap extension, the tick arrays, the
    oracles.
  */
  predicate IsSwapLayout(r: seq<AccountMeta>, p: PoolKeys, user: Pubkey, source: Pubkey, destination: Pubkey, zeroForOne: bool,
                         live: seq<Pubkey>, oracles: seq<Pubkey>)
  {
    && |r| == 14 + |live| + |oracles|
    && r[0] == AccountMeta(user, true, false) && r[1] == AccountMeta(p.ammConfig, false, false)
    && r[2] == AccountMeta(p.market, false, true)
    && r[3] == AccountMeta(source, false, true) && r[4] == AccountMeta(destination, false, true)
    && (zeroForOne ==>
          && r[5] == AccountMeta(p.vault0, false, true) && r[6] == AccountMeta(p.vault1, false, true)
          && r[11] == AccountMeta(p.mint0, false, false) && r[12] == AccountMeta(p.mint1, false, false))
    && (!zeroForOne ==>
          && r[5] == AccountMeta(p.vault1, false, true) && r[6] == AccountMeta(p.vault0, false, true)
          && r[11] == AccountMeta(p.mint1, false, false) && r[12] == AccountMeta(p.mint0, false, false))
    && r[7] == AccountMeta(p.observation, false, true)
    && r[8] == AccountMeta(p.splToken, false, false) && r[9] == AccountMeta(p.token2022, false, false)
    && r[10] == AccountMeta(p.memo, false, false) && r[13] == AccountMeta(p.bitmapExtension, false, false)
    && (forall i :: 0 <= i < |live| ==> r[14 + i] == AccountMeta(live[i], false, true))
    && (forall i :: 0 <= i < |oracles| ==> r[14 + |live| + i] == AccountMeta(oracles[i], false, false))
  }

  lemma SwapIsLaidOut(p: PoolKeys, user: Pubkey, source: Pubkey, destination: Pubkey, zeroForOne: bool,
                      live: seq<Pubkey>, oracles: seq<Pubkey>)
    ensures IsSwapLayout(SwapInstructionAccounts(p, user, source, destination, zeroForOne, live, oracles),
                         p, user, source, destination, zeroForOne, live, oracles)
  {
  }

  /**
    A Byreal leg carries the accounts of its swap, with the loaded ones of the
    listed arrays in swap order.  It always fits: at most 23 accounts with the
    program id, and only the user signs.
  */
  method ByrealLegAccounts(w: Walk, g: Grid, tickCurrent: int, zeroForOne: bool, loaded: set<int>, address: int -> Pubkey,
                           p: PoolKeys, user: Pubkey, source: Pubkey, destination: Pubkey, oracles: seq<Pubkey>)
    returns (r: Option<seq<AccountMeta>>, ghost starts: seq<int>, ghost live: seq<int>)
    requires WalkOk(w) && g.Valid() && (|oracles| == 0 || |oracles| == 2)
    ensures 1 <= |starts| <= 6
    ensures w.first(zeroForOne).Some? ==> starts[0] == w.first(zeroForOne).value && Consecutive(w.flags, zeroForOne, starts)
    ensures r.Some? <==> starts[0] in loaded
    ensures r.Some? ==> 15 <= |r.value| <= 22 && forall i :: 0 <= i < |r.value| ==> (r.value[i].isSigner <==> i == 0)
    ensures r.Some? ==> r.value[0].pubkey == user
    ensures r.Some? ==>
              && IsLive(starts, loaded, live)
              && IsSwapLayout(r.value, p, user, source, destination, zeroForOne, Addresses(live, address), oracles)
    ensures r.Some? ==> (OnlyTitanSigns(r.value, user) <==> forall i :: 1 <= i < |r.value| ==> r.value[i].pubkey != user)
    ensures r.Some? ==> forall leg: Leg :: leg.accounts == r.value ==> Fits(leg)
  {
    hide IsLive, IsSwapLayout;
    var listed := GetSwapTickArrays(w, g, tickCurrent, zeroForOne);
    starts := listed;
    var selected := LiveDirectional(listed, loaded);
    if selected.None? {
      r, live := None, [];
      return;
    }
    live := selected.value;
    var addresses := Addresses(selected.value, address);
    SwapIsLaidOut(p, user, source, destination, zeroForOne, addresses, oracles);
    hide SwapInstructionAccounts;
    r := Some(SwapInstructionAccounts(p, user, source, destination, zeroForOne, addresses, oracles));
  }

  function Addresses(starts: seq<int>, address: int -> Pubkey): (r: seq<Pubkey>)
    ensures |r| == |starts| && forall i :: 0 <= i < |starts| ==> r[i] == address(starts[i])
  {
    seq(|starts|, i requires 0 <= i < |starts| => address(starts[i]))
  }
}
