/**
  The `mint` instruction: issue a new item. A fresh Token-2022 mint gets the
  metadata `name`/`symbol` "OPOS", the caller's URI, `overbid` = "0" and
  `owner` = the payer; one unit goes into the payer's token account, which is
  then frozen; the item is appended to the collection.
 */
module MintInstruction {
  import opened Primitives
  import opened Metadata
  import opened Token
  import opened Decimal
  import opened Base58
  import opened State

  const TokenName: string := "OPOS"
  const TokenSymbol: string := "OPOS"

  /**
    The metadata list of a new item: the price "0" and the payer's key as
    owner, in the order the two `update_field` calls add them.
   */
  function InitialFields(payer: Pubkey): (f: Fields)
    ensures Lookup(f, OverbidKey) == Some("0")
    ensures Lookup(f, OwnerKey) == Some(KeyString(payer))
  {
    var f := [(OverbidKey, "0"), (OwnerKey, KeyString(payer))];
    assert OverbidKey[1] != OwnerKey[1] && f[1..] == [(OwnerKey, KeyString(payer))];
    f
  }

  /**
    The list above is what the two `update_field` calls leave in a freshly
    initialised (empty) list, the price being the text of 0.
   */
  lemma InitialFieldsByUpdates(payer: Pubkey)
    ensures InitialFields(payer)
         == SetField(SetField([], OverbidKey, U64ToString(0)), OwnerKey, KeyString(payer))
  {
    var zero := U64ToString(0);
    assert zero == "0" by {
      assert zero == [DigitChar(0)];
    }
    var priced := SetField([], OverbidKey, zero);
    assert priced == [(OverbidKey, zero)];
    assert OverbidKey != OwnerKey by {
      assert OverbidKey[1] != OwnerKey[1];
    }
    assert priced[1..] == [];
    assert SetField(priced, OwnerKey, KeyString(payer)) == [priced[0]] + SetField([], OwnerKey, KeyString(payer));
  }

  /**
    Registering a new mint, with its single unit in the payer's frozen account
    and the payer's key as its `owner`, keeps the invariant.
   */
  lemma RegisterKeepsValid(c: Chain, holder: map<Pubkey, Pubkey>, mint: Pubkey, account: MintAccount, payer: Pubkey)
    requires Valid(c, holder) && c.collection.Some? && mint !in c.mints
    requires account.supply == 1 && Lookup(account.fields, OwnerKey) == Some(KeyString(payer))
    ensures Valid(Registered(c, mint, account, payer), holder[mint := payer])
  {
    var next := Registered(c, mint, account, payer);
    var items := c.Items();
    assert Registry(next, holder[mint := payer]) by {
      AppendItem(items, Item(mint, 0));
    }
    assert Reserve(next) by {
      SumPointsAppend(items, Item(mint, 0));
    }
    AddCustody(c.mints, c.tokenAccounts, holder, mint, account, payer);
  }

  /** The chain after `mint` registered `mint` with metadata `account` for `payer`. */
  function Registered(c: Chain, mint: Pubkey, account: MintAccount, payer: Pubkey): (next: Chain)
    requires c.collection.Some?
    ensures next.Items() == c.Items() + [Item(mint, 0)]
    ensures next.space == CollectionSize(|next.Items()|)
    ensures next.mints == c.mints[mint := account]
    ensures next.tokenAccounts == c.tokenAccounts[mint := OnlyAccount(payer, TokenAccount(1, true))]
    ensures next.authority == c.authority && next.lamports == c.lamports
  {
    var items := c.collection.value.items;
    c.(collection := Some(c.collection.value.(items := items + [Item(mint, 0)])),
       // realloc = 8 + 4 + ((32 + 8) * (authority.items.len() + 1)) + 1
       space := 8 + 4 + (32 + 8) * (|items| + 1) + 1,
       mints := c.mints[mint := account],
       tokenAccounts := c.tokenAccounts[mint := OnlyAccount(payer, TokenAccount(1, true))])
  }

  /**
    The outcome of `mint` by `payer` of the new mint `mint` with metadata URI
    `uri`: the collection must exist and, since the mint and the payer's
    token account are created with `init`, the mint must not exist yet.
   */
  function Mint(c: Chain, payer: Pubkey, mint: Pubkey, uri: string): (r: Result<Chain>)
    ensures r.Success? <==> c.collection.Some? && mint !in c.mints
    ensures r.Failure? ==> r.error == (if c.collection.None? then AccountNotInitialized else AccountAlreadyInUse)
  {
    if c.collection.None? then Failure(AccountNotInitialized)
    else if mint in c.mints then Failure(AccountAlreadyInUse)
    else Success(Registered(c, mint, MintAccount(0, 1, TokenName, TokenSymbol, uri, InitialFields(payer)), payer))
  }

  /**
    Registers a new item, step by step; the outcome and the new chain are
    those of `Mint`.
   */
  method ProcessMint(c: Chain, payer: Pubkey, mint: Pubkey, uri: string) returns (r: Outcome, next: Chain)
    ensures (r, next) == Applied(Mint(c, payer, mint, uri), c)
  {
    if c.collection.None? {
      return Fail(AccountNotInitialized), c;
    }
    if mint in c.mints {
      return Fail(AccountAlreadyInUse), c;
    }

    // token_metadata_initialize, then the two update_field calls
    var account := MintAccount(0, 0, TokenName, TokenSymbol, uri, InitialFields(payer));

    // the payer's token account is created empty, receives one unit, is frozen
    var tokenAccount := EmptyAccount;
    tokenAccount := tokenAccount.(amount := 1);
    account := account.(supply := 1);
    // freezing cannot fail here: the account was just created, not frozen
    tokenAccount := Freeze(tokenAccount).value;

    var items := c.collection.value.items + [Item(mint, 0)];
    next := c.(collection := Some(c.collection.value.(items := items)),
               // realloc = 8 + 4 + ((32 + 8) * (authority.items.len() + 1)) + 1
               space := 8 + 4 + (32 + 8) * |items| + 1,
               mints := c.mints[mint := account],
               tokenAccounts := c.tokenAccounts[mint := OnlyAccount(payer, tokenAccount)]);
    r := Pass;
  }

  /**
    `mint` fails when the collection does not exist and when the mint
    already does. Otherwise it appends the new item with no points, grows the
    collection account to fit it, gives the mint the fixed name and symbol,
    the URI as given, the price "0" and the payer as owner, and puts its
    single unit in the payer's frozen account; no balance changes.
   */
  lemma MintEffect(c: Chain, payer: Pubkey, mint: Pubkey, uri: string)
    ensures c.collection.None? ==> Mint(c, payer, mint, uri) == Failure(AccountNotInitialized)
    ensures c.collection.Some? && mint in c.mints ==> Mint(c, payer, mint, uri) == Failure(AccountAlreadyInUse)
    ensures Mint(c, payer, mint, uri).Success? <==> c.collection.Some? && mint !in c.mints
    ensures Mint(c, payer, mint, uri).Success? ==>
              var next := Mint(c, payer, mint, uri).value;
              && next.Items() == c.Items() + [Item(mint, 0)]
              && next.collection.value.bump == c.collection.value.bump
              && next.space == CollectionSize(|next.Items()|)
              && mint in next.mints && next.mints[mint].name == TokenName && next.mints[mint].symbol == TokenSymbol
              && next.mints[mint].uri == uri && next.mints[mint].supply == 1
              && Lookup(next.mints[mint].fields, OverbidKey) == Some("0")
              && Lookup(next.mints[mint].fields, OwnerKey) == Some(KeyString(payer))
              && (forall m | m in c.mints :: m in next.mints && next.mints[m] == c.mints[m])
              && next.tokenAccounts == c.tokenAccounts[mint := OnlyAccount(payer, TokenAccount(1, true))]
              && next.lamports == c.lamports && next.authority == c.authority
  {
  }

  /** A new item keeps the invariant, with the payer as its holder. */
  lemma MintKeepsValid(c: Chain, holder: map<Pubkey, Pubkey>, payer: Pubkey, mint: Pubkey, uri: string)
    requires Valid(c, holder) && Mint(c, payer, mint, uri).Success?
    ensures Valid(Mint(c, payer, mint, uri).value, holder[mint := payer])
  {
    RegisterKeepsValid(c, holder, mint, MintAccount(0, 1, TokenName, TokenSymbol, uri, InitialFields(payer)), payer);
  }
}
