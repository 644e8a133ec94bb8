/** What every successful route guarantees, and when a route cannot be refused for its reserves. */
module RouteSafety {
  import opened Common
  import opened RouteLedger
  import opened WeightedSplit
  import opened RouteSpec

  // --- against any venue ---

  /** Accounts created by the route start empty, and nothing else has changed by the snapshot. */
  lemma {:induction false} CreationIsNeutral(w: World, r: Route, l: Ledger, i: nat, created: set<nat>)
    requires r.WellFormed() && i <= r.mints && CreateMissing(w, r, l, i, created).Ok?
    requires forall j :: j in created ==> j < r.mints && TokenAmount(l, r.Key(j)) == Some(0)
    ensures var (after, all) := CreateMissing(w, r, l, i, created).value;
            && (forall k :: Exists(l, k) ==> Get(after, k) == Get(l, k))
            && (forall j :: j in all ==> j < r.mints && TokenAmount(after, r.Key(j)) == Some(0))
            && (forall k :: AmountOrZero(after, k) == AmountOrZero(l, k) || !Exists(l, k))
    decreases r.mints - i
  {
    if i < r.mints {
      if Exists(l, r.Key(i)) {
        CreationIsNeutral(w, r, l, i + 1, created);
      } else {
        var next := Created(l, r.Key(i), r.titan, 0);
        assert forall k :: Exists(l, k) ==> Get(next, k) == Get(l, k);
        CreationIsNeutral(w, r, next, i + 1, created + {i});
      }
    }
  }

  /** Mint account `j` is missing, and no earlier one from `i` on is the same account. */
  predicate FirstMissing(r: Route, l: Ledger, i: nat, j: nat)
    requires r.WellFormed()
  {
    i <= j < r.mints && !Exists(l, r.Key(j)) && forall n :: i <= n < j ==> r.Key(n) != r.Key(j)
  }

  /** Afterwards every mint account exists, and the recorded ones are exactly those that were missing. */
  lemma {:induction false} CreationIsExact(w: World, r: Route, l: Ledger, i: nat, created: set<nat>)
    requires r.WellFormed() && i <= r.mints && CreateMissing(w, r, l, i, created).Ok?
    ensures var (after, all) := CreateMissing(w, r, l, i, created).value;
            && (forall k :: Exists(l, k) ==> Exists(after, k))
            && (forall j :: i <= j < r.mints ==> Exists(after, r.Key(j)))
            && (forall j :: j in all <==> j in created || FirstMissing(r, l, i, j))
    decreases r.mints - i
  {
    if i < r.mints {
      if Exists(l, r.Key(i)) {
        CreationIsExact(w, r, l, i + 1, created);
      } else {
        var next := Created(l, r.Key(i), r.titan, 0);
        assert forall k :: Exists(next, k) <==> Exists(l, k) || k == r.Key(i);
        CreationIsExact(w, r, next, i + 1, created + {i});
        hide CreateMissing, Exists;
        forall j
          ensures j in created + {i} || FirstMissing(r, next, i + 1, j) <==> j in created || FirstMissing(r, l, i, j)
        {
        }
      }
    }
  }

  /**
    Reserve safety: a TitanPDA token account listed within the bitmap's reach
    ends a successful route with at least the balance it had before the route,
    and with at least its snapshot balance if the route created it.
  */
  lemma ReserveSafety(w: World, r: Route, l: Ledger, i: nat)
    requires i < |r.accounts| && i < 256
    ensures Execute(w, r, l).Ok? ==>
            var p := Execute(w, r, l).value;
            && (IsTitanAccount(l, r.titan, r.Key(i)) ==> AmountOrZero(l, r.Key(i)) <= AmountOrZero(p.settled, r.Key(i)))
            && (IsTitanAccount(p.snapshot, r.titan, r.Key(i)) ==>
                  AmountOrZero(p.snapshot, r.Key(i)) <= AmountOrZero(p.settled, r.Key(i)))
  {
    hide CreateMissing, Deposit, RunLegs, Payout, CloseCreated;
    if Execute(w, r, l).Ok? {
      CreationIsNeutral(w, r, l, 0, {});
    }
  }

  /**
    The deposit, by where its amount comes from.  Without a token ledger it is
    the instruction's amount; with one that recorded `before` it is what the
    input account gained since, so that account ends where the ledger saw it.  A
    wrapped input short of the amount is topped up first and so ends empty, and
    one created for the wrap is gone.
  */
  lemma DepositCreditsInput(w: World, r: Route, l: Ledger, stored: Option<nat>)
    requires r.WellFormed() && Deposit(w, r, l, stored).Ok? && r.inputAccount != r.Key(0)
    ensures var after := Deposit(w, r, l, stored).value;
            && (forall k :: k != r.inputAccount && k != r.Key(0) ==> Get(after, k) == Get(l, k))
            && match stored
               case Some(before) =>
                 && before < AmountOrZero(l, r.inputAccount) && AmountOrZero(after, r.inputAccount) == before
                 && AmountOrZero(after, r.Key(0)) == AmountOrZero(l, r.Key(0)) + (AmountOrZero(l, r.inputAccount) - before)
               case None =>
                 && AmountOrZero(after, r.Key(0)) == AmountOrZero(l, r.Key(0)) + r.amount
                 && (if r.inputIsNative then
                       && AmountOrZero(after, r.inputAccount) == SaturatingSub(AmountOrZero(l, r.inputAccount), r.amount)
                       && (Exists(after, r.inputAccount) <==> Exists(l, r.inputAccount))
                     else
                       AmountOrZero(after, r.inputAccount) + r.amount == AmountOrZero(l, r.inputAccount))
  {
  }

  /** The same for a whole route, with the stored amount read off its token ledger. */
  lemma RouteDeposits(w: World, r: Route, l: Ledger)
    requires r.WellFormed() && Execute(w, r, l).Ok? && r.inputAccount != r.Key(0)
    ensures var p := Execute(w, r, l).value;
            match r.tokenLedger
            case Some(t) =>
              && t.dataLen >= 48 && t.tokenAccount == r.inputAccount
              && t.amount < AmountOrZero(p.snapshot, r.inputAccount) && AmountOrZero(p.deposited, r.inputAccount) == t.amount
              && AmountOrZero(p.deposited, r.Key(0))
                 == AmountOrZero(p.snapshot, r.Key(0)) + (AmountOrZero(p.snapshot, r.inputAccount) - t.amount)
            case None =>
              AmountOrZero(p.deposited, r.Key(0)) == AmountOrZero(p.snapshot, r.Key(0)) + r.amount
  {
    var p := Execute(w, r, l).value;
    assert Deposit(w, r, p.snapshot, ReadTokenLedger(r).value) == Ok(p.deposited);
    hide Execute, Deposit;
    DepositCreditsInput(w, r, p.snapshot, ReadTokenLedger(r).value);
  }

  /** Closing only removes empty accounts, so it changes no balance. */
  lemma {:induction false} ClosingKeepsAmounts(w: World, r: Route, l: Ledger, i: nat, created: set<nat>, k: Pubkey)
    requires r.WellFormed() && i <= r.mints && CloseCreated(w, r, l, i, created).Ok?
    ensures AmountOrZero(CloseCreated(w, r, l, i, created).value, k) == AmountOrZero(l, k)
    decreases r.mints - i
  {
    if i < r.mints {
      if i !in created || AmountOrZero(l, r.Key(i)) > 0 {
        ClosingKeepsAmounts(w, r, l, i + 1, created, k);
      } else {
        var closed := Close(w, l, r.Key(i)).value;
        assert AmountOrZero(closed, k) == AmountOrZero(l, k);
        ClosingKeepsAmounts(w, r, closed, i + 1, created, k);
      }
    }
  }

  /** An account this route created, at some index from `i` on, that holds nothing. */
  ghost predicate EmptyCreated(r: Route, l: Ledger, i: nat, created: set<nat>, k: Pubkey)
    requires r.WellFormed()
  {
    AmountOrZero(l, k) == 0 && exists j :: i <= j < r.mints && j in created && r.Key(j) == k
  }

  /** Exactly the created accounts that are empty are gone; every other account is as it was. */
  lemma {:induction false} ClosingRemovesEmptied(w: World, r: Route, l: Ledger, i: nat, created: set<nat>, k: Pubkey)
    requires r.WellFormed() && i <= r.mints && CloseCreated(w, r, l, i, created).Ok?
    ensures var after := CloseCreated(w, r, l, i, created).value;
            if EmptyCreated(r, l, i, created, k) then !Exists(after, k) else Get(after, k) == Get(l, k)
    decreases r.mints - i
  {
    if i < r.mints {
      if i !in created || AmountOrZero(l, r.Key(i)) > 0 {
        ClosingRemovesEmptied(w, r, l, i + 1, created, k);
      } else {
        var closed := Close(w, l, r.Key(i)).value;
        assert AmountOrZero(closed, k) == AmountOrZero(l, k);
        ClosingRemovesEmptied(w, r, closed, i + 1, created, k);
      }
    }
  }

  /**
    The accounts of a whole route: those it created are the mint accounts that
    were missing, and of these exactly the ones that ended empty are gone again.
  */
  lemma RouteCreatesAndCloses(w: World, r: Route, l: Ledger)
    requires r.WellFormed() && Execute(w, r, l).Ok?
    ensures var p := Execute(w, r, l).value;
            && (forall j :: j in p.created <==> FirstMissing(r, l, 0, j))
            && (forall j :: 0 <= j < r.mints ==> Exists(p.snapshot, r.Key(j)))
            && (forall k :: Exists(l, k) ==> Get(p.snapshot, k) == Get(l, k))
            && (forall k :: if EmptyCreated(r, p.paid, 0, p.created, k) then !Exists(p.settled, k)
                            else Get(p.settled, k) == Get(p.paid, k))
  {
    var p := Execute(w, r, l).value;
    var setup := CreateMissing(w, r, l, 0, {});
    assert setup.Ok? && setup.value.0 == p.snapshot && setup.value.1 == p.created;
    assert CloseCreated(w, r, p.paid, 0, p.created) == Ok(p.settled);
    hide Execute, CreateMissing, CloseCreated;
    CreationIsExact(w, r, l, 0, {});
    CreationIsNeutral(w, r, l, 0, {});
    forall k
      ensures if EmptyCreated(r, p.paid, 0, p.created, k) then !Exists(p.settled, k) else Get(p.settled, k) == Get(p.paid, k)
    {
      ClosingRemovesEmptied(w, r, p.paid, 0, p.created, k);
    }
  }

  /** The payout moves exactly the surplus, or nothing when there is none. */
  lemma PayoutMovesSurplus(w: World, r: Route, reserved: seq<nat>, l: Ledger)
    requires r.WellFormed() && |reserved| == r.mints && Payout(w, r, reserved, l).Ok?
    requires r.outputAccount != r.Key(r.OutputIndex())
    ensures var output := r.Key(r.OutputIndex());
            var surplus := SaturatingSub(AmountOrZero(l, output), reserved[r.OutputIndex()]);
            var paid := Payout(w, r, reserved, l).value;
            && AmountOrZero(paid, output) + surplus == AmountOrZero(l, output)
            && AmountOrZero(paid, r.outputAccount) == AmountOrZero(l, r.outputAccount) + surplus
            && Exists(paid, r.outputAccount) && (!Exists(l, r.outputAccount) ==> Get(paid, r.outputAccount).authority == r.user)
            && (forall k :: k != output && k != r.outputAccount ==> Get(paid, k) == Get(l, k))
  {
  }

  /**
    Exact payout against any venue: the output account ends exactly at its
    snapshot balance, and the user receives exactly what the trades left above it.
  */
  lemma ExactPayout(w: World, r: Route, l: Ledger)
    requires r.WellFormed() && r.outputAccount != r.Key(r.swaps[|r.swaps| - 1].to)
    ensures Execute(w, r, l).Ok? ==>
            var p := Execute(w, r, l).value;
            var output := r.Key(r.swaps[|r.swaps| - 1].to);
            && AmountOrZero(p.settled, output) == AmountOrZero(p.snapshot, output)
            && AmountOrZero(p.snapshot, output) <= AmountOrZero(p.traded, output)
            && AmountOrZero(p.settled, r.outputAccount)
               == AmountOrZero(p.traded, r.outputAccount) + (AmountOrZero(p.traded, output) - AmountOrZero(p.snapshot, output))
  {
    hide CreateMissing, Deposit, RunLegs;
    if Execute(w, r, l).Ok? {
      var p := Execute(w, r, l).value;
      var output := r.Key(r.OutputIndex());
      PayoutMovesSurplus(w, r, p.reserved, p.traded);
      ClosingKeepsAmounts(w, r, p.paid, 0, p.created, output);
      ClosingKeepsAmounts(w, r, p.paid, 0, p.created, r.outputAccount);
      assert IsTitanAccount(p.snapshot, r.titan, output);
      ReserveSafety(w, r, l, r.OutputIndex());
    }
  }

  // --- with honest venues ---

  /**
    An honest venue takes at most what it was offered from the leg's own input
    account and leaves every other TitanPDA account at least as full.
  */
  ghost predicate HonestVenues(w: World, r: Route)
    requires r.WellFormed()
  {
    forall leg: nat, call: CpiCall, l: Ledger, k: Pubkey ::
      leg < |r.swaps| && w.cpi(leg, call, l).Some? && IsTitanAccount(l, r.titan, k) ==>
        && IsTitanAccount(w.cpi(leg, call, l).value, r.titan, k)
        && AmountOrZero(l, k) <= AmountOrZero(w.cpi(leg, call, l).value, k)
                                 + (if k == r.Key(r.swaps[leg].from) then call.amount else 0)
  }

  /** Every account that was TitanPDA's at the snapshot still is, with its reserve intact. */
  ghost predicate Guarded(r: Route, snapshot: Ledger, l: Ledger) {
    forall k :: IsTitanAccount(snapshot, r.titan, k) ==>
      IsTitanAccount(l, r.titan, k) && AmountOrZero(snapshot, k) <= AmountOrZero(l, k)
  }

  /** A transfer signed by anyone but TitanPDA cannot lower a TitanPDA account. */
  lemma TransferKeepsGuard(w: World, r: Route, snapshot: Ledger, l: Ledger, from: Pubkey, to: Pubkey, authority: Pubkey, amount: nat)
    requires Guarded(r, snapshot, l) && authority != r.titan
    requires TransferTokens(w, l, from, to, authority, amount).Ok?
    ensures Guarded(r, snapshot, TransferTokens(w, l, from, to, authority, amount).value)
  {
  }

  lemma DepositKeepsGuard(w: World, r: Route, l: Ledger, stored: Option<nat>)
    requires r.WellFormed() && r.user != r.titan && Deposit(w, r, l, stored).Ok?
    ensures Guarded(r, l, Deposit(w, r, l, stored).value)
  {
    var amount := EffectiveAmount(r, stored, l).value;
    var wrap := if stored.None? && r.inputIsNative then WrapInput(w, r, l, amount) else Ok((l, false));
    var (wrapped, created) := wrap.value;
    assert Guarded(r, l, wrapped);
    hide TransferTokens;
    var moved := TransferTokens(w, wrapped, r.inputAccount, r.Key(0), r.user, amount).value;
    TransferKeepsGuard(w, r, l, wrapped, r.inputAccount, r.Key(0), r.user, amount);
    assert created ==> !IsTitanAccount(l, r.titan, r.inputAccount);
  }

  /** The balance invariant survives every leg, whatever account the leg spends from. */
  lemma LegKeepsGuard(w: World, r: Route, snapshot: Ledger, l: Ledger, leg: nat, index: nat)
    requires r.WellFormed() && HonestVenues(w, r) && leg < |r.swaps|
    requires SnapshotReadable(r, snapshot) && Guarded(r, snapshot, l)
    requires RunLeg(w, r, Reserved(r, snapshot), l, leg, index).Ok?
    ensures Guarded(r, snapshot, RunLeg(w, r, Reserved(r, snapshot), l, leg, index).value)
  {
    var reserved, s := Reserved(r, snapshot), r.swaps[leg];
    var from := r.Key(s.from);
    LegInputExact(AmountOrZero(l, from), reserved[s.from], s.weightNanos);
    assert IsTitanAccount(snapshot, r.titan, from);
    assert LegOffer(r, reserved, l, leg) + AmountOrZero(snapshot, from) <= AmountOrZero(l, from);
  }

  lemma {:induction false} LegsKeepGuard(w: World, r: Route, snapshot: Ledger, reserved: seq<nat>, l: Ledger, end: Ledger,
                                         leg: nat, index: nat)
    requires r.WellFormed() && HonestVenues(w, r) && leg <= |r.swaps|
    requires SnapshotReadable(r, snapshot) && Guarded(r, snapshot, l) && reserved == Reserved(r, snapshot)
    requires RunLegs(w, r, reserved, l, leg, |r.swaps|, index) == Ok(end)
    ensures Guarded(r, snapshot, end)
    decreases |r.swaps| - leg
  {
    hide LegInput, RunLeg;
    if leg < |r.swaps| {
      var after := RunLeg(w, r, reserved, l, leg, index).value;
      assert Guarded(r, snapshot, after) by {
        LegKeepsGuard(w, r, snapshot, l, leg, index);
      }
      LegsKeepGuard(w, r, snapshot, reserved, after, end, leg + 1, index + r.swaps[leg].nAccounts);
    }
  }

  lemma PayoutKeepsGuard(w: World, r: Route, snapshot: Ledger, l: Ledger)
    requires r.WellFormed() && SnapshotReadable(r, snapshot) && Guarded(r, snapshot, l)
    requires Payout(w, r, Reserved(r, snapshot), l).Ok?
    ensures Guarded(r, snapshot, Payout(w, r, Reserved(r, snapshot), l).value)
  {
    var output := r.Key(r.OutputIndex());
    assert IsTitanAccount(snapshot, r.titan, output);
    assert Reserved(r, snapshot)[r.OutputIndex()] == AmountOrZero(snapshot, output);
    var start := if Exists(l, r.outputAccount) then l else Created(l, r.outputAccount, r.user, 0);
    assert Guarded(r, snapshot, start);
  }

  /** With honest venues no route is ever refused for violating its reserves. */
  lemma HonestRoutesKeepReserves(w: World, r: Route, l: Ledger)
    requires r.WellFormed() && r.user != r.titan && HonestVenues(w, r)
    ensures Execute(w, r, l) != Err(ReservedBalanceViolation)
  {
    if Validate(r).Ok? && ReadTokenLedger(r).Ok? && MintsReadable(r, l) {
      var setup := CreateMissing(w, r, l, 0, {});
      if setup.Ok? && SnapshotReadable(r, setup.value.0) {
        HonestSnapshotSettles(w, r, setup.value.0, setup.value.1, ReadTokenLedger(r).value);
      }
    }
  }

  lemma HonestSnapshotSettles(w: World, r: Route, snapshot: Ledger, created: set<nat>, stored: Option<nat>)
    requires r.WellFormed() && r.user != r.titan && HonestVenues(w, r) && SnapshotReadable(r, snapshot)
    ensures var reserved := Reserved(r, snapshot);
            var deposited := Deposit(w, r, snapshot, stored);
            deposited.Ok? ==>
              var traded := RunLegs(w, r, reserved, deposited.value, 0, |r.swaps|, 2 * r.mints);
              traded.Ok? ==>
                var paid := Payout(w, r, reserved, traded.value);
                paid.Ok? ==>
                  var settled := CloseCreated(w, r, paid.value, 0, created);
                  settled.Ok? ==> ReservesKept(r, snapshot, settled.value)
  {
    var reserved := Reserved(r, snapshot);
    var deposited := Deposit(w, r, snapshot, stored);
    if deposited.Ok? {
      DepositKeepsGuard(w, r, snapshot, stored);
      var traded := RunLegs(w, r, reserved, deposited.value, 0, |r.swaps|, 2 * r.mints);
      if traded.Ok? {
        LegsKeepGuard(w, r, snapshot, reserved, deposited.value, traded.value, 0, 2 * r.mints);
        var paid := Payout(w, r, reserved, traded.value);
        if paid.Ok? {
          PayoutKeepsGuard(w, r, snapshot, traded.value);
          if CloseCreated(w, r, paid.value, 0, created).Ok? {
            GuardSettles(w, r, snapshot, paid.value, created);
          }
        }
      }
    }
  }

  lemma GuardSettles(w: World, r: Route, snapshot: Ledger, paid: Ledger, created: set<nat>)
    requires r.WellFormed() && Guarded(r, snapshot, paid) && CloseCreated(w, r, paid, 0, created).Ok?
    ensures ReservesKept(r, snapshot, CloseCreated(w, r, paid, 0, created).value)
  {
    forall i | 0 <= i < |r.accounts| && IsTitanAccount(snapshot, r.titan, r.Key(i))
      ensures AmountOrZero(snapshot, r.Key(i)) <= AmountOrZero(CloseCreated(w, r, paid, 0, created).value, r.Key(i))
    {
      ClosingKeepsAmounts(w, r, paid, 0, created, r.Key(i));
    }
  }

  // --- splitting one input over several legs ---

  /** Every CPI of the legs `a..b` takes exactly what it was offered from mint `from`; later legs are free. */
  ghost predicate ExactOnInput(w: World, r: Route, from: nat, a: nat, b: nat)
    requires r.WellFormed() && from < r.mints
  {
    forall leg: nat, call: CpiCall, l: Ledger :: a <= leg < b && w.cpi(leg, call, l).Some? ==>
      && TokenAmount(w.cpi(leg, call, l).value, r.Key(from)).Some?
      && AmountOrZero(w.cpi(leg, call, l).value, r.Key(from)) == SaturatingSub(AmountOrZero(l, r.Key(from)), call.amount)
  }

  function Weights(r: Route, a: nat, b: nat): seq<nat>
    requires a <= b <= |r.swaps|
  {
    seq<nat>(b - a, i requires 0 <= i < b - a => r.swaps[a + i].weightNanos)
  }

  lemma LegSplitsInput(w: World, r: Route, reserved: seq<nat>, l: Ledger, leg: nat, index: nat)
    requires r.WellFormed() && |reserved| == r.mints && leg < |r.swaps|
    requires ExactOnInput(w, r, r.swaps[leg].from, leg, leg + 1)
    requires reserved[r.swaps[leg].from] <= AmountOrZero(l, r.Key(r.swaps[leg].from))
    requires RunLeg(w, r, reserved, l, leg, index).Ok?
    ensures var from := r.swaps[leg].from;
            AmountOrZero(RunLeg(w, r, reserved, l, leg, index).value, r.Key(from))
            == reserved[from] + AfterLeg(AmountOrZero(l, r.Key(from)) - reserved[from], r.swaps[leg].weightNanos)
  {
    var s := r.swaps[leg];
    var balance := AmountOrZero(l, r.Key(s.from));
    LegInputExact(balance, reserved[s.from], s.weightNanos);
    assert LegInput(balance, reserved[s.from], s.weightNanos) == LegInput(balance - reserved[s.from], 0, s.weightNanos);
  }

  lemma SplitUnfolds(r: Route, available: nat, a: nat, b: nat)
    requires a < b <= |r.swaps|
    ensures Unspent(available, Weights(r, a, b))
         == Unspent(AfterLeg(available, r.swaps[a].weightNanos), Weights(r, a + 1, b))
  {
    var weights := Weights(r, a, b);
    assert weights[1..] == Weights(r, a + 1, b);
  }

  /** Consecutive legs from one mint leave above its reserve exactly what `Unspent` says. */
  lemma {:induction false} LegsSplitInput(w: World, r: Route, reserved: seq<nat>, l: Ledger, end: Ledger,
                                          a: nat, b: nat, index: nat, from: nat)
    requires r.WellFormed() && |reserved| == r.mints && a <= b <= |r.swaps| && from < r.mints
    requires ExactOnInput(w, r, from, a, b)
    requires forall i :: a <= i < b ==> r.swaps[i].from == from
    requires reserved[from] <= AmountOrZero(l, r.Key(from))
    requires RunLegs(w, r, reserved, l, a, b, index) == Ok(end)
    ensures AmountOrZero(end, r.Key(from))
         == reserved[from] + Unspent(AmountOrZero(l, r.Key(from)) - reserved[from], Weights(r, a, b))
    decreases b - a
  {
    hide LegInput, RunLeg;
    if a < b {
      var after := RunLeg(w, r, reserved, l, a, index).value;
      assert reserved[from] <= AmountOrZero(after, r.Key(from)) by {
        LegSplitsInput(w, r, reserved, l, a, index);
      }
      LegsSplitInput(w, r, reserved, after, end, a + 1, b, index + r.swaps[a].nAccounts, from);
      assert AmountOrZero(after, r.Key(from)) - reserved[from]
          == AfterLeg(AmountOrZero(l, r.Key(from)) - reserved[from], r.swaps[a].weightNanos) by {
        LegSplitsInput(w, r, reserved, l, a, index);
      }
      SplitUnfolds(r, AmountOrZero(l, r.Key(from)) - reserved[from], a, b);
    }
  }

  /** The error bound on a split as the program executes it. */
  lemma LegsSplitError(w: World, r: Route, reserved: seq<nat>, l: Ledger, end: Ledger, a: nat, b: nat, index: nat, from: nat)
    requires r.WellFormed() && |reserved| == r.mints && a < b <= |r.swaps| && from < r.mints
    requires ExactOnInput(w, r, from, a, b)
    requires forall i :: a <= i < b ==> r.swaps[i].from == from
    requires reserved[from] <= AmountOrZero(l, r.Key(from))
    requires RunLegs(w, r, reserved, l, a, b, index) == Ok(end)
    ensures var key := r.Key(from);
            var left := AmountOrZero(end, key) - reserved[from];
            var ideal := Ideal((AmountOrZero(l, key) - reserved[from]) as real, Weights(r, a, b));
            ideal <= left as real < ideal + (b - a) as real
  {
    LegsSplitInput(w, r, reserved, l, end, a, b, index, from);
    SplitErrorBound(AmountOrZero(l, r.Key(from)) - reserved[from], Weights(r, a, b));
  }
}
