/**
  Token balances as the route program sees them, and the balance effect of the
  token operations it invokes.  An address without an entry is an empty account.
*/
module RouteLedger {
  import opened Common

  /** `dataLen == 0` means the account does not exist; `tokenOwned` that a token program owns it. */
  datatype Account = Account(dataLen: nat, tokenOwned: bool, authority: Pubkey, amount: u64)

  type Ledger = map<Pubkey, Account>

  const TOKEN_ACCOUNT_LEN: nat := 165

  function Get(l: Ledger, k: Pubkey): Account {
    if k in l then l[k] else Account(0, false, Pubkey(0), 0)
  }

  predicate Exists(l: Ledger, k: Pubkey) {
    Get(l, k).dataLen > 0
  }

  /** `extract_token_amount`: bytes 64..72. */
  function TokenAmount(l: Ledger, k: Pubkey): Option<u64> {
    if Get(l, k).dataLen >= 72 then Some(Get(l, k).amount) else None
  }

  function AmountOrZero(l: Ledger, k: Pubkey): u64 {
    if TokenAmount(l, k).Some? then TokenAmount(l, k).value else 0
  }

  /** `is_titan_pda_token_account`. */
  predicate IsTitanAccount(l: Ledger, titan: Pubkey, k: Pubkey) {
    var a := Get(l, k);
    a.tokenOwned && a.dataLen >= TOKEN_ACCOUNT_LEN && a.authority == titan
  }

  /** Operations of programs outside the route program. */
  datatype Op =
    | CreateAta(key: Pubkey, wallet: Pubkey)
    | Transfer(from: Pubkey, to: Pubkey, authority: Pubkey, amount: nat)
    | WrapSol(key: Pubkey, amount: nat)
    | CloseAccount(key: Pubkey)

  function Created(l: Ledger, k: Pubkey, wallet: Pubkey, amount: u64): Ledger {
    l[k := Account(TOKEN_ACCOUNT_LEN, true, wallet, amount)]
  }

  /** What a transfer does when the token program accepts it; a self-transfer moves nothing. */
  function Moved(l: Ledger, from: Pubkey, to: Pubkey, amount: nat): Ledger
    requires amount <= Get(l, from).amount && (from == to || Get(l, to).amount + amount <= U64_MAX)
  {
    if from == to then l
    else
      var debited := l[from := Get(l, from).(amount := Get(l, from).amount - amount)];
      debited[to := Get(l, to).(amount := Get(l, to).amount + amount)]
  }

  predicate TransferPossible(l: Ledger, from: Pubkey, to: Pubkey, authority: Pubkey, amount: nat) {
    && TokenAmount(l, from).Some? && TokenAmount(l, to).Some?
    && Get(l, from).authority == authority
    && amount <= Get(l, from).amount
    && (from == to || Get(l, to).amount + amount <= U64_MAX)
  }
}
