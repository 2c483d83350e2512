/**
  The effects of the token program (Token-2022) and the system program that
  the overbid instructions invoke, as updates of account values: a mint with
  its metadata, token accounts with an amount and a frozen flag, and lamport
  balances. The programs' own internals are not modelled.
 */
module Token {
  import opened Primitives
  import opened Metadata

  /** A Token-2022 mint carrying the metadata extension. */
  datatype MintAccount = MintAccount(
    decimals: nat,
    supply: U64,
    name: string,
    symbol: string,
    uri: string,
    fields: Fields)

  /** A token account of one holder for one mint. */
  datatype TokenAccount = TokenAccount(amount: U64, frozen: bool)

  /** The account an `init_if_needed` creates: empty and not frozen. */
  const EmptyAccount := TokenAccount(0, false)

  /** The token accounts of a mint that only `holder` has an account for. */
  function OnlyAccount(holder: Pubkey, a: TokenAccount): map<Pubkey, TokenAccount>
  {
    map[holder := a]
  }

  /** `thaw_account`: only a frozen account can be thawed. */
  function Thaw(a: TokenAccount): (r: Result<TokenAccount>)
    ensures r.Success? <==> a.frozen
    ensures r.Failure? ==> r.error == TokenInvalidState
    ensures r.Success? ==> !r.value.frozen && r.value.amount == a.amount
  {
    if a.frozen then Success(a.(frozen := false)) else Failure(TokenInvalidState)
  }

  /** `freeze_account`: only an account that is not frozen can be frozen. */
  function Freeze(a: TokenAccount): (r: Result<TokenAccount>)
    ensures r.Success? <==> !a.frozen
    ensures r.Failure? ==> r.error == TokenInvalidState
    ensures r.Success? ==> r.value.frozen && r.value.amount == a.amount
  {
    if a.frozen then Failure(TokenInvalidState) else Success(a.(frozen := true))
  }

  /**
    `transfer_checked` of `x` units between two accounts of one mint, with the
    token program's checks in its order: the source may not be frozen and
    must hold `x` units; a transfer to the same account then changes nothing;
    otherwise the destination may not be frozen and its amount must stay
    within 64 bits.
   */
  function TransferUnits(accounts: map<Pubkey, TokenAccount>, from: Pubkey, to: Pubkey, x: U64)
    : (r: Result<map<Pubkey, TokenAccount>>)
    requires from in accounts && to in accounts
    ensures r.Success? <==> && !accounts[from].frozen && x <= accounts[from].amount
                            && (from == to || (!accounts[to].frozen && accounts[to].amount + x <= U64_MAX))
    ensures r.Failure? ==> r.error == (if accounts[from].frozen then TokenAccountFrozen
                                       else if accounts[from].amount < x then TokenInsufficientFunds
                                       else if accounts[to].frozen then TokenAccountFrozen
                                       else TokenOverflow)
    ensures r.Success? ==> r.value.Keys == accounts.Keys
    ensures r.Success? ==> forall k | k in accounts && k != from && k != to :: r.value[k] == accounts[k]
    // the units move: the source loses what the destination gains, nothing else changes
    ensures r.Success? && from != to ==> && r.value[from] == accounts[from].(amount := accounts[from].amount - x)
                                         && r.value[to] == accounts[to].(amount := accounts[to].amount + x)
    ensures r.Success? && from == to ==> r.value == accounts
  {
    if accounts[from].frozen then Failure(TokenAccountFrozen)
    else if accounts[from].amount < x then Failure(TokenInsufficientFunds)
    else if from == to then Success(accounts)
    else if accounts[to].frozen then Failure(TokenAccountFrozen)
    else if accounts[to].amount + x > U64_MAX then Failure(TokenOverflow)
    else
      var debited := accounts[from := accounts[from].(amount := accounts[from].amount - x)];
      Success(debited[to := accounts[to].(amount := accounts[to].amount + x)])
  }

  /** `add_lamports`: checked addition to a balance. */
  function Credit(lamports: map<Pubkey, U64>, k: Pubkey, x: nat): (r: Result<map<Pubkey, U64>>)
    ensures r.Success? <==> Bal(lamports, k) + x <= U64_MAX
    ensures r.Failure? ==> r.error == ArithmeticOverflow
    ensures r.Success? ==> Bal(r.value, k) == Bal(lamports, k) + x
    ensures r.Success? ==> forall j | j != k :: Bal(r.value, j) == Bal(lamports, j)
  {
    if Bal(lamports, k) + x <= U64_MAX then Success(lamports[k := Bal(lamports, k) + x])
    else Failure(ArithmeticOverflow)
  }

  /** `sub_lamports` and the debit of a transfer: checked subtraction, failing with `e`. */
  function Debit(lamports: map<Pubkey, U64>, k: Pubkey, x: nat, e: Error): (r: Result<map<Pubkey, U64>>)
    ensures r.Success? <==> x <= Bal(lamports, k)
    ensures r.Failure? ==> r.error == e
    ensures r.Success? ==> Bal(r.value, k) + x == Bal(lamports, k)
    ensures r.Success? ==> forall j | j != k :: Bal(r.value, j) == Bal(lamports, j)
  {
    if x <= Bal(lamports, k) then Success(lamports[k := Bal(lamports, k) - x])
    else Failure(e)
  }

  /**
    The system program's `transfer` of `x` lamports: the sender must hold
    them and the receiver's balance must stay within 64 bits. Lamports move,
    they are neither created nor destroyed.
   */
  function TransferLamports(lamports: map<Pubkey, U64>, from: Pubkey, to: Pubkey, x: nat)
    : (r: Result<map<Pubkey, U64>>)
    requires from != to
    ensures r.Success? <==> x <= Bal(lamports, from) && Bal(lamports, to) + x <= U64_MAX
    ensures r.Failure? ==> r.error == (if x <= Bal(lamports, from) then ArithmeticOverflow else InsufficientLamports)
    ensures r.Success? ==> Bal(r.value, from) + x == Bal(lamports, from)
    ensures r.Success? ==> Bal(r.value, to) == Bal(lamports, to) + x
    ensures r.Success? ==> forall j | j != from && j != to :: Bal(r.value, j) == Bal(lamports, j)
  {
    match Debit(lamports, from, x, InsufficientLamports)
    case Failure(e) => Failure(e)
    case Success(debited) => Credit(debited, to, x)
  }
}
