/**
  The program's account data (`Collection` and `Item`) and the slice of
  chain state the four instructions read and write.
 */
module State {
  import opened Primitives
  import opened Metadata
  import opened Token
  import opened Base58

  /** One registered item: its mint and the points it has accrued. */
  datatype Item = Item(mint: Pubkey, points: U64)

  /** The singleton registry: items in issuance order and the address bump. */
  datatype Collection = Collection(items: seq<Item>, bump: U8)

  /**
    Bytes a collection with `n` items takes when serialized: 8 for the
    account discriminator, 4 for the vector length, 32 + 8 per item and 1
    for the bump.
   */
  function CollectionSize(n: nat): (size: nat)
    ensures size >= 13
    ensures n >= 1 ==> size == CollectionSize(n - 1) + 32 + 8
  {
    8 + 4 + (32 + 8) * n + 1
  }

  /** Total points owed to all items. */
  function SumPoints(items: seq<Item>): nat
  {
    if items == [] then 0 else SumPoints(items[..|items| - 1]) + items[|items| - 1].points
  }

  /** The mints of the registered items. */
  function MintSet(items: seq<Item>): set<Pubkey>
  {
    if items == [] then {} else MintSet(items[..|items| - 1]) + {items[|items| - 1].mint}
  }

  /** No mint is registered twice: each item's mint differs from all earlier ones. */
  predicate DistinctMints(items: seq<Item>)
  {
    items == [] ||
    (DistinctMints(items[..|items| - 1]) && items[|items| - 1].mint !in MintSet(items[..|items| - 1]))
  }

  /**
    The custody of one item: the holder's account holds the single unit and
    is frozen, and every other account of that mint is empty.
   */
  predicate SoleCustody(accounts: map<Pubkey, TokenAccount>, holder: Pubkey)
  {
    && holder in accounts
    && accounts[holder] == TokenAccount(1, true)
    && forall k | k in accounts && k != holder :: accounts[k].amount == 0
  }

  /**
    The accounts the overbid program works on: its collection account (which
    exists once `initialize` has run) with the data size allotted to it, the
    mints it created with their metadata, the token accounts of those mints
    (mint -> holder -> account) and lamport balances. `authority` is the
    collection's program-derived address, which also holds the reserve.
   */
  datatype Chain = Chain(
    authority: Pubkey,
    collection: Option<Collection>,
    space: nat,
    mints: map<Pubkey, MintAccount>,
    tokenAccounts: map<Pubkey, map<Pubkey, TokenAccount>>,
    lamports: map<Pubkey, U64>)
  {
    /** The registered items; none before `initialize`. */
    function Items(): seq<Item>
    {
      if collection.Some? then collection.value.items else []
    }
  }

  /**
    What an instruction leaves behind: on success its new chain, on failure
    the error and the chain as it was, since the runtime discards every
    change of a failed instruction.
   */
  function Applied(res: Result<Chain>, c: Chain): (Outcome, Chain)
  {
    match res
    case Success(next) => (Pass, next)
    case Failure(e) => (Fail(e), c)
  }

  /** The chain before `initialize`: only lamport balances exist. */
  function Genesis(authority: Pubkey, lamports: map<Pubkey, U64>): (c: Chain)
    ensures Valid(c, map[])
    ensures c.Items() == [] && c.mints == map[] && c.lamports == lamports
  {
    Chain(authority, None, 0, map[], map[], lamports)
  }

  /**
    The invariant the four instructions keep, given who holds each item's unit
    (`holder`, mint -> key, kept for proof only): the registry lists each of
    the program's mints once, the account data fits its allotted size, the
    collection holds at least the lamports its items' points promise, and
    every item's single unit sits in its holder's frozen account while its
    `owner` field is the text of that holder's key.
   */
  ghost predicate Valid(c: Chain, holder: map<Pubkey, Pubkey>)
  {
    Registry(c, holder) && Reserve(c) && Custody(c.mints, c.tokenAccounts, holder)
  }

  /**
    The registry agrees with the mints: the program's mints are exactly the
    registered ones, each registered once, each with its token accounts and
    holder, none before the collection exists, and the collection account is
    large enough for its items.
   */
  ghost predicate Registry(c: Chain, holder: map<Pubkey, Pubkey>)
  {
    && c.tokenAccounts.Keys == c.mints.Keys
    && holder.Keys == c.mints.Keys
    && (c.collection.None? ==> c.mints == map[])
    && c.mints.Keys == MintSet(c.Items())
    && DistinctMints(c.Items())
    && (c.collection.Some? ==> c.space >= CollectionSize(|c.Items()|))
  }

  /** The collection account holds at least the lamports its items' points promise. */
  ghost predicate Reserve(c: Chain)
  {
    SumPoints(c.Items()) <= Bal(c.lamports, c.authority)
  }

  /**
    Every mint has a supply of one unit, held alone by its holder, and its
    `owner` field is the text of that holder's key.
   */
  ghost predicate Custody(mints: map<Pubkey, MintAccount>, tokenAccounts: map<Pubkey, map<Pubkey, TokenAccount>>,
                          holder: map<Pubkey, Pubkey>)
  {
    && (forall m | m in mints ::
          && m in tokenAccounts && m in holder
          && mints[m].supply == 1
          && SoleCustody(tokenAccounts[m], holder[m]))
    && (forall m {:trigger Lookup(mints[m].fields, OwnerKey)} | m in mints && m in holder ::
          Lookup(mints[m].fields, OwnerKey) == Some(KeyString(holder[m])))
  }

  /** A new mint whose only account holds its single unit keeps custody intact. */
  lemma AddCustody(mints: map<Pubkey, MintAccount>, tokenAccounts: map<Pubkey, map<Pubkey, TokenAccount>>,
                   holder: map<Pubkey, Pubkey>, mint: Pubkey, account: MintAccount, payer: Pubkey)
    requires Custody(mints, tokenAccounts, holder)
    requires account.supply == 1 && Lookup(account.fields, OwnerKey) == Some(KeyString(payer))
    ensures Custody(mints[mint := account], tokenAccounts[mint := OnlyAccount(payer, TokenAccount(1, true))],
                    holder[mint := payer])
  {
    var accounts := OnlyAccount(payer, TokenAccount(1, true));
    assert SoleCustody(accounts, payer) by {
      assert accounts.Keys == {payer};
    }
  }

  /** The token accounts of a mint after its unit went from `seller` to `buyer`, both frozen. */
  function HandedOver(accounts: map<Pubkey, TokenAccount>, seller: Pubkey, buyer: Pubkey): map<Pubkey, TokenAccount>
  {
    accounts[seller := TokenAccount(0, true)][buyer := TokenAccount(1, true)]
  }

  /**
    Handing an item's unit from its holder to `buyer` (the holder's account
    emptied, the buyer's account holding the unit, both frozen) while the
    `owner` field becomes the buyer's key keeps custody intact.
   */
  lemma MoveCustody(mints: map<Pubkey, MintAccount>, tokenAccounts: map<Pubkey, map<Pubkey, TokenAccount>>,
                    holder: map<Pubkey, Pubkey>, mint: Pubkey, fields: Fields, buyer: Pubkey)
    requires Custody(mints, tokenAccounts, holder) && mint in mints && holder[mint] != buyer
    requires Lookup(fields, OwnerKey) == Some(KeyString(buyer))
    ensures Custody(mints[mint := mints[mint].(fields := fields)],
                    tokenAccounts[mint := HandedOver(tokenAccounts[mint], holder[mint], buyer)],
                    holder[mint := buyer])
  {
    var accounts := HandedOver(tokenAccounts[mint], holder[mint], buyer);
    assert SoleCustody(accounts, buyer) by {
      forall k | k in accounts && k != buyer ensures accounts[k].amount == 0 {
        if k != holder[mint] {
          assert accounts[k] == tokenAccounts[mint][k];
        }
      }
    }
  }

  /** Adding one item adds its points. */
  lemma SumPointsAppend(items: seq<Item>, item: Item)
    ensures SumPoints(items + [item]) == SumPoints(items) + item.points
  {
    assert (items + [item])[..|items|] == items;
  }

  /** Replacing one item changes the total by the difference of their points. */
  lemma {:induction false} SumPointsUpdate(items: seq<Item>, i: nat, item: Item)
    requires i < |items|
    ensures SumPoints(items[i := item]) + items[i].points == SumPoints(items) + item.points
    decreases |items|
  {
    var last := |items| - 1;
    var updated := items[i := item];
    assert updated[..last] == if i < last then items[..last][i := item] else items[..last];
    if i < last {
      SumPointsUpdate(items[..last], i, item);
    }
  }

  /** Every item's points are part of the total. */
  lemma {:induction false} PointsWithinSum(items: seq<Item>, i: nat)
    requires i < |items|
    ensures items[i].points <= SumPoints(items)
    decreases |items|
  {
    if i < |items| - 1 {
      PointsWithinSum(items[..|items| - 1], i);
    }
  }

  /** A mint is registered exactly when some item carries it. */
  lemma {:induction false} MintSetIndex(items: seq<Item>, x: Pubkey)
    ensures x in MintSet(items) <==> exists i | 0 <= i < |items| :: items[i].mint == x
    decreases |items|
  {
    if items != [] {
      var init := items[..|items| - 1];
      MintSetIndex(init, x);
      if x in MintSet(init) {
        var i :| 0 <= i < |init| && init[i].mint == x;
        assert items[i].mint == x;
      }
      if exists i | 0 <= i < |items| :: items[i].mint == x {
        var i :| 0 <= i < |items| && items[i].mint == x;
        if i < |init| {
          assert init[i].mint == x;
        }
      }
    }
  }

  /** Appending a new mint keeps the registry free of duplicates and adds the mint. */
  lemma AppendItem(items: seq<Item>, item: Item)
    requires DistinctMints(items) && item.mint !in MintSet(items)
    ensures DistinctMints(items + [item])
    ensures MintSet(items + [item]) == MintSet(items) + {item.mint}
  {
    assert (items + [item])[..|items|] == items;
  }

  /** Changing only the points of items keeps the set of mints and their distinctness. */
  lemma {:induction false} SameMints(a: seq<Item>, b: seq<Item>)
    requires |a| == |b| && forall i | 0 <= i < |a| :: a[i].mint == b[i].mint
    ensures MintSet(a) == MintSet(b)
    ensures DistinctMints(a) <==> DistinctMints(b)
    decreases |a|
  {
    if a != [] {
      SameMints(a[..|a| - 1], b[..|b| - 1]);
    }
  }

  /**
    Under the invariant the `owner` text check that redemption makes is a
    custody check: the text equals a key's text exactly when that key's
    account holds the item's unit.
   */
  lemma OwnerTextIsCustody(c: Chain, holder: map<Pubkey, Pubkey>, mint: Pubkey, k: Pubkey)
    requires Valid(c, holder) && mint in c.mints
    ensures Lookup(c.mints[mint].fields, OwnerKey) == Some(KeyString(k))
        <==> k in c.tokenAccounts[mint] && c.tokenAccounts[mint][k].amount == 1
  {
    KeyStringInjective(k, holder[mint]);
  }
}
