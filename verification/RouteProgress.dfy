/**
  When a route succeeds: exactly which instructions are accepted, and that an
  accepted one goes through when its funds suffice, token programs and venues
  cooperate, and every leg finds its accounts.
*/
module RouteProgress {
  import opened Common
  import opened RouteTypes
  import opened RouteLedger
  import opened WeightedSplit
  import opened RouteSpec
  import opened RouteSafety
  import opened RouteLegs

  // --- which instructions are accepted ---

  /** The instruction's own shape, as the program requires it. */
  predicate Acceptable(r: Route) {
    && 2 <= r.mints <= 12 && 1 <= |r.swaps| <= 12 && |r.accounts| >= 2 * r.mints
    && r.swaps[0].from == 0
    && forall i :: 0 <= i < |r.swaps| ==> r.swaps[i].from < r.mints && r.swaps[i].to < r.mints
  }

  /** An instruction passes validation exactly when it is acceptable; only a short account list has its own error. */
  lemma ValidateIff(r: Route)
    ensures Validate(r).Ok? <==> Acceptable(r)
    ensures Validate(r) == Err(MissingRemainingAccount) <==>
            2 <= r.mints <= 12 && 1 <= |r.swaps| <= 12 && |r.accounts| < 2 * r.mints
    ensures Validate(r).Err? ==> Validate(r).error.InvalidSwapInput? || Validate(r).error.MissingRemainingAccount?
  {
  }

  /** The token ledger, if passed, is long enough and speaks of the input account. */
  predicate LedgerReadable(r: Route) {
    r.tokenLedger.Some? ==> r.tokenLedger.value.dataLen >= 48 && r.tokenLedger.value.tokenAccount == r.inputAccount
  }

  lemma TokenLedgerIff(r: Route)
    ensures ReadTokenLedger(r).Ok? <==> LedgerReadable(r)
    ensures ReadTokenLedger(r).Err? ==> ReadTokenLedger(r).error == InvalidAccountData
    ensures LedgerReadable(r) ==>
            ReadTokenLedger(r).value == if r.tokenLedger.None? then None else Some(r.tokenLedger.value.amount)
  {
  }

  /** An account a token program owns, long enough for a token account, with TitanPDA as its authority. */
  predicate IsTitans(a: Account, titan: Pubkey) {
    a.tokenOwned && a.dataLen >= 165 && a.authority == titan
  }

  /** Only acceptable routes with readable mints and TitanPDA mint accounts get past the snapshot. */
  lemma SuccessNeeds(w: World, r: Route, l: Ledger)
    requires Execute(w, r, l).Ok?
    ensures Acceptable(r) && LedgerReadable(r)
    ensures var out := r.swaps[|r.swaps| - 1].to;
            Get(l, r.Key(r.mints)).dataLen > 44 && Get(l, r.Key(r.mints + out)).dataLen > 44
    ensures forall i :: 0 <= i < r.mints ==> IsTitans(Get(Execute(w, r, l).value.snapshot, r.Key(i)), r.titan)
    ensures r.tokenLedger.Some? || (r.amount > 0 && !r.inputIsNative) ==>
              var input := Get(Execute(w, r, l).value.snapshot, r.inputAccount);
              input.dataLen >= 72 && input.authority == r.user
  {
    hide CreateMissing, Deposit, RunLegs, Payout, CloseCreated, Validate, ReadTokenLedger, ReservesKept, Reserved;
    ValidateIff(r);
    TokenLedgerIff(r);
    var p := Execute(w, r, l).value;
    assert Deposit(w, r, p.snapshot, ReadTokenLedger(r).value) == Ok(p.deposited);
    DepositNeeds(w, r, p.snapshot);
  }

  lemma DepositNeeds(w: World, r: Route, l: Ledger)
    requires r.WellFormed() && LedgerReadable(r) && Deposit(w, r, l, ReadTokenLedger(r).value).Ok?
    ensures r.tokenLedger.Some? || (r.amount > 0 && !r.inputIsNative) ==>
              Get(l, r.inputAccount).dataLen >= 72 && Get(l, r.inputAccount).authority == r.user
  {
  }

  // --- cooperation ---

  /** The user's output account can take what is on the output account. */
  predicate Payable(r: Route, l: Ledger)
    requires r.WellFormed()
  {
    var output := r.Key(r.OutputIndex());
    && (Exists(l, r.outputAccount) ==> Get(l, r.outputAccount).dataLen >= 72)
    && (output == r.outputAccount || AmountOrZero(l, output) + AmountOrZero(l, r.outputAccount) <= U64_MAX)
  }

  /** Token programs accept, and every venue answers, honestly and without taking away room for the payout. */
  ghost predicate Cooperates(w: World, r: Route)
    requires r.WellFormed()
  {
    && (forall op, l :: w.accepts(op, l))
    && HonestVenues(w, r)
    && (forall leg: nat, call: CpiCall, l: Ledger :: leg < |r.swaps| ==>
          w.cpi(leg, call, l).Some? && (Payable(r, l) ==> Payable(r, w.cpi(leg, call, l).value)))
  }

  function DepositAmount(r: Route, l: Ledger): nat {
    match r.tokenLedger
    case None => r.amount
    case Some(t) => SaturatingSub(AmountOrZero(l, r.inputAccount), t.amount)
  }

  /** The user can pay the deposit, and the first TitanPDA account can take it. */
  predicate Funded(r: Route, l: Ledger)
    requires r.WellFormed()
  {
    var input := Get(l, r.inputAccount);
    && AmountOrZero(l, r.Key(0)) + DepositAmount(r, l) <= U64_MAX
    && (|| (input.dataLen >= 72 && input.authority == r.user)
        || (r.tokenLedger.None? && (if r.inputIsNative then input.dataLen == 0 else r.amount == 0)))
    && (r.tokenLedger.Some? ==> DepositAmount(r, l) > 0)
    && (r.tokenLedger.None? && !r.inputIsNative ==> r.amount == 0 || r.amount <= input.amount)
  }

  /** Every leg names at least its program, and the accounts suffice for all of them. */
  predicate LegsHaveAccounts(r: Route) {
    && (forall i :: 0 <= i < |r.swaps| ==> r.swaps[i].nAccounts > 0)
    && LegIndex(r.swaps, 2 * r.mints, |r.swaps|) <= |r.accounts|
  }

  // --- phase by phase ---

  lemma {:induction false} CreationSucceeds(w: World, r: Route, l: Ledger, i: nat, created: set<nat>)
    requires r.WellFormed() && i <= r.mints && (forall op, l :: w.accepts(op, l))
    requires forall j :: 0 <= j < r.mints && (j < i || Exists(l, r.Key(j))) ==> IsTitanAccount(l, r.titan, r.Key(j))
    ensures CreateMissing(w, r, l, i, created).Ok?
    ensures var after := CreateMissing(w, r, l, i, created).value.0;
            && SnapshotReadable(r, after)
            && forall k :: (forall j :: 0 <= j < r.mints ==> r.Key(j) != k) ==> Get(after, k) == Get(l, k)
    ensures forall k :: AmountOrZero(CreateMissing(w, r, l, i, created).value.0, k) == AmountOrZero(l, k)
    decreases r.mints - i
  {
    if i < r.mints {
      if Exists(l, r.Key(i)) {
        CreationSucceeds(w, r, l, i + 1, created);
      } else {
        var next := Created(l, r.Key(i), r.titan, 0);
        assert forall k :: AmountOrZero(next, k) == AmountOrZero(l, k);
        CreationSucceeds(w, r, next, i + 1, created + {i});
      }
    }
  }

  lemma DepositSucceeds(w: World, r: Route, l: Ledger)
    requires r.WellFormed() && (forall op, l :: w.accepts(op, l)) && r.inputAccount != r.Key(0)
    requires LedgerReadable(r) && SnapshotReadable(r, l) && Funded(r, l)
    ensures Deposit(w, r, l, ReadTokenLedger(r).value).Ok?
  {
    TokenLedgerIff(r);
    assert IsTitanAccount(l, r.titan, r.Key(0));
  }

  lemma DepositKeepsPayable(w: World, r: Route, l: Ledger)
    requires r.WellFormed() && r.inputAccount != r.Key(0) && LedgerReadable(r)
    requires Deposit(w, r, l, ReadTokenLedger(r).value).Ok?
    requires var output := r.Key(r.OutputIndex());
             output == r.outputAccount || AmountOrZero(l, output) + AmountOrZero(l, r.outputAccount) + DepositAmount(r, l) <= U64_MAX
    requires Exists(l, r.outputAccount) ==> Get(l, r.outputAccount).dataLen >= 72
    ensures Payable(r, Deposit(w, r, l, ReadTokenLedger(r).value).value)
  {
    hide Deposit, ReadTokenLedger;
    TokenLedgerIff(r);
    DepositCreditsInput(w, r, l, ReadTokenLedger(r).value);
    DepositKeepsReadable(w, r, l, ReadTokenLedger(r).value, r.outputAccount);
  }

  /** An account that is there after the deposit and was readable, or not there, before is readable. */
  lemma DepositKeepsReadable(w: World, r: Route, l: Ledger, stored: Option<nat>, k: Pubkey)
    requires r.WellFormed() && Deposit(w, r, l, stored).Ok?
    requires Exists(l, k) ==> Get(l, k).dataLen >= 72
    ensures var after := Deposit(w, r, l, stored).value;
            Exists(after, k) ==> Get(after, k).dataLen >= 72
  {
  }

  lemma {:induction false} IndexGrows(swaps: seq<SwapSpec>, start: nat, i: nat, j: nat)
    requires i <= j <= |swaps|
    ensures LegIndex(swaps, start, i) <= LegIndex(swaps, start, j)
    decreases j - i
  {
    if i < j {
      IndexGrows(swaps, start, i, j - 1);
    }
  }

  lemma LegSucceeds(w: World, r: Route, snapshot: Ledger, l: Ledger, leg: nat)
    requires r.WellFormed() && Cooperates(w, r) && LegsHaveAccounts(r) && leg < |r.swaps|
    requires SnapshotReadable(r, snapshot) && Guarded(r, snapshot, l) && Payable(r, l)
    ensures var after := RunLeg(w, r, Reserved(r, snapshot), l, leg, LegIndex(r.swaps, 2 * r.mints, leg));
            after.Ok? && Payable(r, after.value)
  {
    hide HonestVenues, Payable, LegOffer, LegCall;
    IndexGrows(r.swaps, 2 * r.mints, leg + 1, |r.swaps|);
    var from := r.Key(r.swaps[leg].from);
    assert IsTitanAccount(snapshot, r.titan, from);
    assert TokenAmount(l, from).Some?;
    hide Guarded, IsTitanAccount, SnapshotReadable;
  }

  lemma {:induction false} LegsSucceed(w: World, r: Route, snapshot: Ledger, reserved: seq<nat>, l: Ledger, leg: nat)
    requires r.WellFormed() && Cooperates(w, r) && LegsHaveAccounts(r) && leg <= |r.swaps| && reserved == Reserved(r, snapshot)
    requires SnapshotReadable(r, snapshot) && Guarded(r, snapshot, l) && Payable(r, l)
    ensures var after := RunLegs(w, r, reserved, l, leg, |r.swaps|, LegIndex(r.swaps, 2 * r.mints, leg));
            after.Ok? && Guarded(r, snapshot, after.value) && Payable(r, after.value)
    decreases |r.swaps| - leg
  {
    hide RunLeg, Payable, HonestVenues;
    if leg < |r.swaps| {
      var index := LegIndex(r.swaps, 2 * r.mints, leg);
      LegSucceeds(w, r, snapshot, l, leg);
      var after := RunLeg(w, r, reserved, l, leg, index).value;
      LegKeepsGuard(w, r, snapshot, l, leg, index);
      LegsSucceed(w, r, snapshot, reserved, after, leg + 1);
    }
  }

  lemma PayoutSucceeds(w: World, r: Route, snapshot: Ledger, l: Ledger)
    requires r.WellFormed() && (forall op, l :: w.accepts(op, l))
    requires SnapshotReadable(r, snapshot) && Guarded(r, snapshot, l) && Payable(r, l)
    ensures Payout(w, r, Reserved(r, snapshot), l).Ok?
  {
    assert IsTitanAccount(snapshot, r.titan, r.Key(r.OutputIndex()));
  }

  lemma {:induction false} ClosingSucceeds(w: World, r: Route, l: Ledger, i: nat, created: set<nat>)
    requires r.WellFormed() && i <= r.mints && (forall op, l :: w.accepts(op, l))
    ensures CloseCreated(w, r, l, i, created).Ok?
    decreases r.mints - i
  {
    if i < r.mints {
      if i !in created || AmountOrZero(l, r.Key(i)) > 0 {
        ClosingSucceeds(w, r, l, i + 1, created);
      } else {
        ClosingSucceeds(w, r, Close(w, l, r.Key(i)).value, i + 1, created);
      }
    }
  }

  /** Everything a route asks of the ledger it meets. */
  predicate Ready(r: Route, l: Ledger)
    requires r.WellFormed()
  {
    var output := r.Key(r.OutputIndex());
    && Get(l, r.Key(r.mints)).dataLen > 44 && Get(l, r.Key(r.mints + r.OutputIndex())).dataLen > 44
    && (forall i :: 0 <= i < r.mints ==> r.inputAccount != r.Key(i) && (Exists(l, r.Key(i)) ==> IsTitans(Get(l, r.Key(i)), r.titan)))
    && Funded(r, l)
    && (Exists(l, r.outputAccount) ==> Get(l, r.outputAccount).dataLen >= 72)
    && (output == r.outputAccount || AmountOrZero(l, output) + AmountOrZero(l, r.outputAccount) + DepositAmount(r, l) <= U64_MAX)
  }

  /** An acceptable route that is ready succeeds in a cooperating world. */
  lemma RouteSucceeds(w: World, r: Route, l: Ledger)
    requires Acceptable(r) && LedgerReadable(r) && r.user != r.titan && Ready(r, l) && LegsHaveAccounts(r) && Cooperates(w, r)
    ensures Execute(w, r, l).Ok?
  {
    ValidateIff(r);
    TokenLedgerIff(r);
    var stored := ReadTokenLedger(r).value;
    CreationSucceeds(w, r, l, 0, {});
    var (snapshot, created) := CreateMissing(w, r, l, 0, {}).value;
    ReadySnapshot(r, l, snapshot);
    DepositSucceeds(w, r, snapshot);
    DepositKeepsPayable(w, r, snapshot);
    DepositKeepsGuard(w, r, snapshot, stored);
    var deposited := Deposit(w, r, snapshot, stored).value;
    var reserved := Reserved(r, snapshot);
    LegsSucceed(w, r, snapshot, reserved, deposited, 0);
    var traded := RunLegs(w, r, reserved, deposited, 0, |r.swaps|, 2 * r.mints).value;
    PayoutSucceeds(w, r, snapshot, traded);
    PayoutKeepsGuard(w, r, snapshot, traded);
    var paid := Payout(w, r, reserved, traded).value;
    ClosingSucceeds(w, r, paid, 0, created);
    GuardSettles(w, r, snapshot, paid, created);
    hide CreateMissing, Deposit, RunLegs, Payout, CloseCreated, Validate, ReadTokenLedger, Guarded, Payable, Cooperates, Ready, ReservesKept;
  }

  /** Creating the missing accounts leaves a ready route ready. */
  lemma ReadySnapshot(r: Route, l: Ledger, snapshot: Ledger)
    requires r.WellFormed() && Ready(r, l)
    requires forall k :: AmountOrZero(snapshot, k) == AmountOrZero(l, k)
    requires forall k :: (forall j :: 0 <= j < r.mints ==> r.Key(j) != k) ==> Get(snapshot, k) == Get(l, k)
    requires SnapshotReadable(r, snapshot)
    ensures Funded(r, snapshot) && DepositAmount(r, snapshot) == DepositAmount(r, l)
    ensures Exists(snapshot, r.outputAccount) ==> Get(snapshot, r.outputAccount).dataLen >= 72
  {
    assert Get(snapshot, r.inputAccount) == Get(l, r.inputAccount);
    if exists j :: 0 <= j < r.mints && r.Key(j) == r.outputAccount {
      var j :| 0 <= j < r.mints && r.Key(j) == r.outputAccount;
      assert IsTitanAccount(snapshot, r.titan, r.Key(j));
    }
  }
}
