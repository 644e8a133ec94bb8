/**
  `SwapRouteV3::execute` as it runs: loops over the remaining accounts, a packed
  bitmap plus a dense balance vector for the snapshot, a moving account index
  for the legs.  It computes what `RouteSpec.Execute` says.
*/
module RouteExecutor {
  import opened Common
  import opened RouteTypes
  import opened RouteLedger
  import opened WeightedSplit
  import opened ReserveBitmap
  import opened RouteSpec

  // --- the compressed snapshot ---

  predicate TitanAt(r: Route, l: Ledger, i: nat)
    requires i < |r.accounts|
  {
    IsTitanAccount(l, r.titan, r.Key(i))
  }

  /** Balances of the TitanPDA accounts among the first `n`, in order. */
  function Dense(r: Route, l: Ledger, n: nat): seq<u64>
    requires n <= |r.accounts|
  {
    if n == 0 then []
    else Dense(r, l, n - 1) + (if TitanAt(r, l, n - 1) then [AmountOrZero(l, r.Key(n - 1))] else [])
  }

  ghost function TitanIndices(r: Route, l: Ledger, n: nat): set<int>
    requires n <= |r.accounts|
  {
    set i | 0 <= i < n && i < CAPACITY && TitanAt(r, l, i)
  }

  lemma TitanIndicesStep(r: Route, l: Ledger, i: nat)
    requires i < |r.accounts|
    ensures TitanIndices(r, l, i + 1)
         == TitanIndices(r, l, i) + (if i < CAPACITY && TitanAt(r, l, i) then {i as int} else {})
  {
  }

  lemma DenseStep(r: Route, l: Ledger, i: nat)
    requires i < |r.accounts|
    ensures Dense(r, l, 0) == []
    ensures Dense(r, l, i + 1) == Dense(r, l, i) + (if TitanAt(r, l, i) then [AmountOrZero(l, r.Key(i))] else [])
  {
  }

  /** An account's rank among the TitanPDA accounts is its position in the dense vector. */
  lemma {:induction false} RankIsPosition(r: Route, l: Ledger, i: nat, n: nat)
    requires i < n <= |r.accounts| && TitanAt(r, l, i)
    ensures |Dense(r, l, i)| < |Dense(r, l, n)|
    ensures Dense(r, l, n)[|Dense(r, l, i)|] == AmountOrZero(l, r.Key(i))
  {
    if i < n - 1 {
      RankIsPosition(r, l, i, n - 1);
    }
  }

  /** The mint accounts before `n` are TitanPDA's, and these are their balances. */
  ghost predicate ReservedUpTo(r: Route, l: Ledger, n: nat, reserved: seq<nat>)
    requires n <= |r.accounts|
  {
    && |reserved| == n
    && forall j :: 0 <= j < n ==> TitanAt(r, l, j) && reserved[j] == AmountOrZero(l, r.Key(j))
  }

  lemma ReservedStep(r: Route, l: Ledger, n: nat, reserved: seq<nat>)
    requires n < |r.accounts| && ReservedUpTo(r, l, n, reserved)
    ensures TitanAt(r, l, n) ==> ReservedUpTo(r, l, n + 1, reserved + [AmountOrZero(l, r.Key(n))])
  {
  }

  lemma ReservedAll(r: Route, l: Ledger, reserved: seq<nat>)
    requires r.WellFormed() && ReservedUpTo(r, l, r.mints, reserved)
    ensures SnapshotReadable(r, l) && reserved == Reserved(r, l)
  {
  }

  method TakeSnapshot(r: Route, l: Ledger)
    returns (ok: bool, reserved: seq<nat>, bitmap: TitanPdaBitmap, balances: seq<u64>)
    requires r.WellFormed()
    ensures fresh(bitmap) && fresh(bitmap.bits) && bitmap.Valid()
    ensures ok <==> SnapshotReadable(r, l)
    ensures ok ==> reserved == Reserved(r, l)
                   && bitmap.Contents() == TitanIndices(r, l, |r.accounts|)
                   && balances == Dense(r, l, |r.accounts|)
  {
    assert TitanIndices(r, l, 0) == {} && Dense(r, l, 0) == [] && ReservedUpTo(r, l, 0, []) && r.mints <= |r.accounts|;
    hide IsTitanAccount, AmountOrZero, TitanIndices, Dense, ReservedUpTo, Reserved, Marked, TitanPdaBitmap.Contents, Route.WellFormed;
    bitmap := new TitanPdaBitmap();
    balances, reserved := [], [];
    for i := 0 to |r.accounts|
      invariant fresh(bitmap) && fresh(bitmap.bits) && bitmap.Valid()
      invariant ReservedUpTo(r, l, Min(i, r.mints), reserved)
      invariant bitmap.Contents() == TitanIndices(r, l, i)
      invariant balances == Dense(r, l, i)
    {
      TitanIndicesStep(r, l, i);
      DenseStep(r, l, i);
      var key := r.Key(i);
      if i < r.mints {
        if !IsTitanAccount(l, r.titan, key) {
          ok := false;
          return;
        }
        ReservedStep(r, l, i, reserved);
        reserved := reserved + [AmountOrZero(l, key)];
        bitmap.Set(i);
        balances := balances + [AmountOrZero(l, key)];
      } else if IsTitanAccount(l, r.titan, key) {
        bitmap.Set(i);
        balances := balances + [AmountOrZero(l, key)];
      }
    }
    ReservedAll(r, l, reserved);
    ok := true;
  }

  /** The final pass over bitmap and dense vector decides exactly the plain statement. */
  method CheckReserves(r: Route, ghost snapshot: Ledger, bitmap: TitanPdaBitmap, balances: seq<u64>, l: Ledger)
    returns (ok: bool)
    requires r.WellFormed() && bitmap.Valid()
    requires bitmap.Contents() == TitanIndices(r, snapshot, |r.accounts|)
    requires balances == Dense(r, snapshot, |r.accounts|)
    ensures ok <==> ReservesKept(r, snapshot, l)
  {
    var balanceIndex := 0;
    for i := 0 to |r.accounts|
      invariant balanceIndex == |Dense(r, snapshot, Min(i, CAPACITY))|
      invariant forall j :: 0 <= j < i && j < CAPACITY && TitanAt(r, snapshot, j) ==>
                  AmountOrZero(snapshot, r.Key(j)) <= AmountOrZero(l, r.Key(j))
    {
      if bitmap.IsSet(i) {
        RankIsPosition(r, snapshot, i, |r.accounts|);
        if AmountOrZero(l, r.Key(i)) < balances[balanceIndex] {
          return false;
        }
        balanceIndex := balanceIndex + 1;
      }
    }
    return true;
  }

  // --- the other loops ---

  method CreateMissingAtas(w: World, r: Route, l: Ledger) returns (res: Result<(Ledger, set<nat>), RouteError>)
    requires r.WellFormed()
    ensures res == CreateMissing(w, r, l, 0, {})
  {
    var ledger: Ledger, created: set<nat> := l, {};
    for i := 0 to r.mints
      invariant CreateMissing(w, r, ledger, i, created) == CreateMissing(w, r, l, 0, {})
    {
      if !Exists(ledger, r.Key(i)) {
        var op := CreateAta(r.Key(i), r.titan);
        if !w.accepts(op, ledger) {
          return Err(OperationFailed(op));
        }
        ledger := Created(ledger, r.Key(i), r.titan, 0);
        created := created + {i};
      }
    }
    return Ok((ledger, created));
  }

  /** The leg loop slices each leg's accounts off the moving index. */
  method RunAllLegs(w: World, r: Route, reserved: seq<nat>, l: Ledger) returns (res: Result<Ledger, RouteError>)
    requires r.WellFormed() && |reserved| == r.mints
    ensures res == RunLegs(w, r, reserved, l, 0, |r.swaps|, 2 * r.mints)
  {
    hide LegCall, ScaleDown;
    var ledger: Ledger, index: nat := l, 2 * r.mints;
    for leg := 0 to |r.swaps|
      invariant RunLegs(w, r, reserved, ledger, leg, |r.swaps|, index)
             == RunLegs(w, r, reserved, l, 0, |r.swaps|, 2 * r.mints)
    {
      var swap := r.swaps[leg];
      if swap.nAccounts == 0 {
        return Err(InvalidSwapInput);
      }
      if index + swap.nAccounts > |r.accounts| {
        return Err(MissingRemainingAccount);
      }
      var balance := TokenAmount(ledger, r.Key(swap.from));
      if balance.None? {
        return Err(InvalidAccountData);
      }
      var amount := LegInput(balance.value, reserved[swap.from], swap.weightNanos);
      if amount > 0 {
        var after := w.cpi(leg, LegCall(r, index, swap.nAccounts, amount), ledger);
        if after.None? {
          return Err(VenueFailed(leg));
        }
        ledger := after.value;
      }
      index := index + swap.nAccounts;
    }
    return Ok(ledger);
  }

  method CloseEmptyAtas(w: World, r: Route, l: Ledger, created: set<nat>) returns (res: Result<Ledger, RouteError>)
    requires r.WellFormed()
    ensures res == CloseCreated(w, r, l, 0, created)
  {
    var ledger := l;
    for i := 0 to r.mints
      invariant CloseCreated(w, r, ledger, i, created) == CloseCreated(w, r, l, 0, created)
    {
      if i in created && AmountOrZero(ledger, r.Key(i)) == 0 {
        var closed := Close(w, ledger, r.Key(i));
        if closed.Err? {
          return Err(closed.error);
        }
        ledger := closed.value;
      }
    }
    return Ok(ledger);
  }

  method ValidateSwaps(r: Route) returns (ok: bool)
    ensures ok <==> forall i :: 0 <= i < |r.swaps| ==> r.swaps[i].from < r.mints && r.swaps[i].to < r.mints
  {
    for i := 0 to |r.swaps|
      invariant forall j :: 0 <= j < i ==> r.swaps[j].from < r.mints && r.swaps[j].to < r.mints
    {
      if !(r.swaps[i].from < r.mints && r.swaps[i].to < r.mints) {
        return false;
      }
    }
    return true;
  }

  /** The whole instruction, phase by phase. */
  method ExecuteRoute(w: World, r: Route, l: Ledger) returns (res: Result<Phases, RouteError>)
    ensures res == Execute(w, r, l)
  {
    if r.mints <= 1 || r.swaps == [] || |r.swaps| > MAX_SWAPS || r.mints > MAX_MINTS {
      return Err(InvalidSwapInput);
    }
    if |r.accounts| < 2 * r.mints {
      return Err(MissingRemainingAccount);
    }
    if r.swaps[0].from != 0 {
      return Err(InvalidSwapInput);
    }
    var swapsOk := ValidateSwaps(r);
    if !swapsOk {
      return Err(InvalidSwapInput);
    }
    assert Validate(r) == Ok(());
    var stored := ReadTokenLedger(r);
    if stored.Err? {
      return Err(stored.error);
    }
    if !MintsReadable(r, l) {
      return Err(InvalidAccountData);
    }
    var setup := CreateMissingAtas(w, r, l);
    if setup.Err? {
      return Err(setup.error);
    }
    var (snapshot, created) := setup.value;
    var readable, reserved, bitmap, balances := TakeSnapshot(r, snapshot);
    if !readable {
      return Err(InvalidAccountData);
    }
    var deposited := Deposit(w, r, snapshot, stored.value);
    if deposited.Err? {
      return Err(deposited.error);
    }
    var traded := RunAllLegs(w, r, reserved, deposited.value);
    if traded.Err? {
      return Err(traded.error);
    }
    var paid := Payout(w, r, reserved, traded.value);
    if paid.Err? {
      return Err(paid.error);
    }
    var settled := CloseEmptyAtas(w, r, paid.value, created);
    if settled.Err? {
      return Err(settled.error);
    }
    var kept := CheckReserves(r, snapshot, bitmap, balances, settled.value);
    if !kept {
      return Err(ReservedBalanceViolation);
    }
    return Ok(Phases(snapshot, created, reserved, deposited.value, traded.value, paid.value, settled.value));
  }
}
