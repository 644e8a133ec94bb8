/**
  `SwapRouteV3::execute` as a sequence of phases over the ledger.  The venue CPI
  is an arbitrary function of the leg, the call and the ledger; whether the
  token programs accept an operation is an arbitrary predicate.
*/
module RouteSpec {
  import opened Common
  import opened RouteTypes
  import opened RouteLedger
  import opened WeightedSplit

  datatype RouteError =
    | InvalidSwapInput
    | MissingRemainingAccount
    | InvalidAccountData
    | ReservedBalanceViolation
    | OperationFailed(op: Op)
    | VenueFailed(leg: nat)

  datatype TokenLedger = TokenLedger(dataLen: nat, tokenAccount: Pubkey, amount: u64)

  datatype Route = Route(
    accounts: seq<AccountMeta>, mints: nat, swaps: seq<SwapSpec>, amount: u64,
    user: Pubkey, titan: Pubkey, inputAccount: Pubkey, outputAccount: Pubkey,
    tokenLedger: Option<TokenLedger>, inputIsNative: bool)
  {
    function Key(i: nat): Pubkey
      requires i < |accounts|
    {
      accounts[i].pubkey
    }

    predicate WellFormed() {
      && 1 < mints <= MAX_MINTS && 0 < |swaps| <= MAX_SWAPS
      && 2 * mints <= |accounts|
      && forall i :: 0 <= i < |swaps| ==> swaps[i].from < mints && swaps[i].to < mints
    }

    function OutputIndex(): nat
      requires WellFormed()
    {
      swaps[|swaps| - 1].to
    }
  }

  /** A CPI as the venue receives it. */
  datatype CpiCall = CpiCall(program: Pubkey, metas: seq<AccountMeta>, amount: nat)

  datatype World = World(
    accepts: (Op, Ledger) -> bool,
    cpi: (nat, CpiCall, Ledger) -> Option<Ledger>)

  // --- phases ---

  function Validate(r: Route): Result<(), RouteError> {
    if r.mints <= 1 || r.swaps == [] || |r.swaps| > MAX_SWAPS || r.mints > MAX_MINTS then Err(InvalidSwapInput)
    else if |r.accounts| < 2 * r.mints then Err(MissingRemainingAccount)
    else if r.swaps[0].from != 0 then Err(InvalidSwapInput)
    else if exists i :: 0 <= i < |r.swaps| && !(r.swaps[i].from < r.mints && r.swaps[i].to < r.mints)
         then Err(InvalidSwapInput)
    else Ok(())
  }

  function ReadTokenLedger(r: Route): Result<Option<nat>, RouteError> {
    match r.tokenLedger
    case None => Ok(None)
    case Some(t) =>
      if t.dataLen < 48 || t.tokenAccount != r.inputAccount then Err(InvalidAccountData) else Ok(Some(t.amount))
  }

  predicate MintsReadable(r: Route, l: Ledger)
    requires r.WellFormed()
  {
    Get(l, r.Key(r.mints)).dataLen > 44 && Get(l, r.Key(r.mints + r.OutputIndex())).dataLen > 44
  }

  /** Create the missing TitanPDA token accounts from index `i` on, recording which were created. */
  function CreateMissing(w: World, r: Route, l: Ledger, i: nat, created: set<nat>)
    : (res: Result<(Ledger, set<nat>), RouteError>)
    requires r.WellFormed() && i <= r.mints
    ensures res.Err? ==> res.error.OperationFailed?
    decreases r.mints - i
  {
    if i == r.mints then Ok((l, created))
    else if Exists(l, r.Key(i)) then CreateMissing(w, r, l, i + 1, created)
    else
      var op := CreateAta(r.Key(i), r.titan);
      if !w.accepts(op, l) then Err(OperationFailed(op))
      else CreateMissing(w, r, Created(l, r.Key(i), r.titan, 0), i + 1, created + {i})
  }

  /** The first `mints` accounts must be TitanPDA token accounts. */
  predicate SnapshotReadable(r: Route, l: Ledger)
    requires r.WellFormed()
  {
    forall i :: 0 <= i < r.mints ==> IsTitanAccount(l, r.titan, r.Key(i))
  }

  function Reserved(r: Route, l: Ledger): seq<nat>
    requires r.WellFormed()
  {
    seq(r.mints, i requires 0 <= i < r.mints => AmountOrZero(l, r.Key(i)))
  }

  function EffectiveAmount(r: Route, stored: Option<nat>, l: Ledger): Result<u64, RouteError> {
    match stored
    case None => Ok(r.amount)
    case Some(before) =>
      match TokenAmount(l, r.inputAccount)
      case None => Err(InvalidAccountData)
      case Some(current) => if current <= before then Err(InvalidAccountData) else Ok(current - before)
  }

  /** `setup_wsol_input_account`: top the wrapped account up to `amount`, creating it if needed. */
  function WrapInput(w: World, r: Route, l: Ledger, amount: u64): Result<(Ledger, bool), RouteError> {
    var op := WrapSol(r.inputAccount, amount);
    if Exists(l, r.inputAccount) then
      match TokenAmount(l, r.inputAccount)
      case None => Err(InvalidAccountData)
      case Some(current) =>
        if current >= amount then Ok((l, false))
        else if !w.accepts(op, l) then Err(OperationFailed(op))
        else Ok((l[r.inputAccount := Get(l, r.inputAccount).(amount := amount)], false))
    else if !w.accepts(op, l) then Err(OperationFailed(op))
    else Ok((Created(l, r.inputAccount, r.user, amount), true))
  }

  function TransferTokens(w: World, l: Ledger, from: Pubkey, to: Pubkey, authority: Pubkey, amount: nat)
    : Result<Ledger, RouteError>
  {
    var op := Transfer(from, to, authority, amount);
    if amount == 0 then Ok(l)
    else if !w.accepts(op, l) || !TransferPossible(l, from, to, authority, amount) then Err(OperationFailed(op))
    else Ok(Moved(l, from, to, amount))
  }

  function Close(w: World, l: Ledger, k: Pubkey): Result<Ledger, RouteError> {
    if !w.accepts(CloseAccount(k), l) then Err(OperationFailed(CloseAccount(k)))
    else Ok(l[k := Account(0, false, Pubkey(0), 0)])
  }

  function Deposit(w: World, r: Route, l: Ledger, stored: Option<nat>): Result<Ledger, RouteError>
    requires r.WellFormed()
  {
    var amount :- EffectiveAmount(r, stored, l);
    var (wrapped, created) :- if stored.None? && r.inputIsNative then WrapInput(w, r, l, amount) else Ok((l, false));
    var moved :- TransferTokens(w, wrapped, r.inputAccount, r.Key(0), r.user, amount);
    if created then Close(w, moved, r.inputAccount) else Ok(moved)
  }

  /** The accounts of the leg starting at `index`: metas without the trailing program id, TitanPDA signing. */
  function LegCall(r: Route, index: nat, n: nat, amount: nat): CpiCall
    requires 0 < n && index + n <= |r.accounts|
  {
    var leg := r.accounts[index..index + n];
    CpiCall(leg[n - 1].pubkey, SignAsTitan(leg[..n - 1], r.titan), amount)
  }

  function SignAsTitan(metas: seq<AccountMeta>, titan: Pubkey): seq<AccountMeta> {
    seq(|metas|, i requires 0 <= i < |metas| =>
      metas[i].(isSigner := metas[i].pubkey == titan || metas[i].isSigner))
  }

  /** What a leg offers its venue out of the balance above the reserve. */
  function LegOffer(r: Route, reserved: seq<nat>, l: Ledger, leg: nat): nat
    requires r.WellFormed() && |reserved| == r.mints && leg < |r.swaps|
  {
    var s := r.swaps[leg];
    LegInput(AmountOrZero(l, r.Key(s.from)), reserved[s.from], s.weightNanos)
  }

  function RunLeg(w: World, r: Route, reserved: seq<nat>, l: Ledger, leg: nat, index: nat): Result<Ledger, RouteError>
    requires r.WellFormed() && |reserved| == r.mints && leg < |r.swaps|
  {
    var s := r.swaps[leg];
    if s.nAccounts == 0 then Err(InvalidSwapInput)
    else if index + s.nAccounts > |r.accounts| then Err(MissingRemainingAccount)
    else if TokenAmount(l, r.Key(s.from)).None? then Err(InvalidAccountData)
    else
      var amount := LegOffer(r, reserved, l, leg);
      if amount == 0 then Ok(l)
      else
        match w.cpi(leg, LegCall(r, index, s.nAccounts, amount), l)
        case None => Err(VenueFailed(leg))
        case Some(after) => Ok(after)
  }

  /** Legs `leg..until`, the first of them reading its accounts from `index` on. */
  function RunLegs(w: World, r: Route, reserved: seq<nat>, l: Ledger, leg: nat, until: nat, index: nat)
    : (res: Result<Ledger, RouteError>)
    requires r.WellFormed() && |reserved| == r.mints && leg <= until <= |r.swaps|
    ensures res.Err? ==> !res.error.ReservedBalanceViolation?
    decreases until - leg
  {
    if leg == until then Ok(l)
    else
      var after :- RunLeg(w, r, reserved, l, leg, index);
      RunLegs(w, r, reserved, after, leg + 1, until, index + r.swaps[leg].nAccounts)
  }

  /** Pay the surplus on the output account to the user. */
  function Payout(w: World, r: Route, reserved: seq<nat>, l: Ledger): Result<Ledger, RouteError>
    requires r.WellFormed() && |reserved| == r.mints
  {
    var output := r.Key(r.OutputIndex());
    match TokenAmount(l, output)
    case None => Err(InvalidAccountData)
    case Some(balance) =>
      var surplus := SaturatingSub(balance, reserved[r.OutputIndex()]);
      var op := CreateAta(r.outputAccount, r.user);
      if Exists(l, r.outputAccount) then TransferTokens(w, l, output, r.outputAccount, r.titan, surplus)
      else if !w.accepts(op, l) then Err(OperationFailed(op))
      else TransferTokens(w, Created(l, r.outputAccount, r.user, 0), output, r.outputAccount, r.titan, surplus)
  }

  /** Close the accounts created by this route that ended up empty, from index `i` on. */
  function CloseCreated(w: World, r: Route, l: Ledger, i: nat, created: set<nat>): (res: Result<Ledger, RouteError>)
    requires r.WellFormed() && i <= r.mints
    ensures res.Err? ==> res.error.OperationFailed?
    decreases r.mints - i
  {
    if i == r.mints then Ok(l)
    else if i !in created || AmountOrZero(l, r.Key(i)) > 0 then CloseCreated(w, r, l, i + 1, created)
    else
      var closed :- Close(w, l, r.Key(i));
      CloseCreated(w, r, closed, i + 1, created)
  }

  /** The final check as a plain statement, over the indices the bitmap can hold. */
  predicate ReservesKept(r: Route, snapshot: Ledger, l: Ledger) {
    forall i :: 0 <= i < |r.accounts| && i < 256 && IsTitanAccount(snapshot, r.titan, r.Key(i)) ==>
      AmountOrZero(snapshot, r.Key(i)) <= AmountOrZero(l, r.Key(i))
  }

  /** The ledger after each phase of a successful route. */
  datatype Phases = Phases(
    snapshot: Ledger, created: set<nat>, reserved: seq<nat>,
    deposited: Ledger, traded: Ledger, paid: Ledger, settled: Ledger)

  function Execute(w: World, r: Route, l: Ledger): Result<Phases, RouteError> {
    var _ :- Validate(r);
    var stored :- ReadTokenLedger(r);
    if !MintsReadable(r, l) then Err(InvalidAccountData)
    else
      var (snapshot, created) :- CreateMissing(w, r, l, 0, {});
      if !SnapshotReadable(r, snapshot) then Err(InvalidAccountData)
      else
        var reserved := Reserved(r, snapshot);
        var deposited :- Deposit(w, r, snapshot, stored);
        var traded :- RunLegs(w, r, reserved, deposited, 0, |r.swaps|, 2 * r.mints);
        var paid :- Payout(w, r, reserved, traded);
        var settled :- CloseCreated(w, r, paid, 0, created);
        if !ReservesKept(r, snapshot, settled) then Err(ReservedBalanceViolation)
        else Ok(Phases(snapshot, created, reserved, deposited, traded, paid, settled))
  }
}
