/**
  The `initialize` instruction: create the singleton collection account.
 */
module InitializeInstruction {
  import opened Primitives
  import opened State

  /** Bytes allotted to the collection account when it is created. */
  const InitialSpace: nat := 8 + 4 + 32 + 8

  /**
    The outcome of `initialize`: the collection is created with no items, the
    address bump the runtime derived for it and `InitialSpace` bytes. The
    account is created with `init`, so it must not exist yet. Rent paid by the
    payer is not modelled.
   */
  function Initialize(c: Chain, bump: U8): (r: Result<Chain>)
    ensures r.Success? <==> c.collection.None?
    ensures r.Failure? ==> r.error == AccountAlreadyInUse
    ensures r.Success? ==> && r.value.collection == Some(Collection([], bump))
                           && r.value.Items() == [] && r.value.space == InitialSpace
                           && r.value.space >= CollectionSize(0)
                           && r.value.mints == c.mints && r.value.tokenAccounts == c.tokenAccounts
                           && r.value.lamports == c.lamports && r.value.authority == c.authority
  {
    if c.collection.Some? then Failure(AccountAlreadyInUse)
    else Success(c.(collection := Some(Collection([], bump)), space := InitialSpace))
  }

  /**
    Creates the collection account and records the bump, step by step; the
    outcome and the new chain are those of `Initialize`.
   */
  method ProcessInitialize(c: Chain, bump: U8) returns (r: Outcome, next: Chain)
    ensures (r, next) == Applied(Initialize(c, bump), c)
  {
    if c.collection.Some? {
      return Fail(AccountAlreadyInUse), c;
    }
    var account := Collection([], 0);
    account := account.(bump := bump);
    next := c.(collection := Some(account), space := InitialSpace);
    r := Pass;
  }

  /** Creating the collection keeps the invariant: it has no items and no mints refer to it. */
  lemma InitializeKeepsValid(c: Chain, holder: map<Pubkey, Pubkey>, bump: U8)
    requires Valid(c, holder) && Initialize(c, bump).Success?
    ensures Valid(Initialize(c, bump).value, holder)
  {
  }
}
