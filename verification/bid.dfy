/**
  The `bid` instruction: buy an item from its current holder. The bid must be
  at least 0.01 SOL (10,000,000 lamports) above the item's price. The bidder
  becomes the holder and the bid the new price; the seller is paid the old
  price, and what the bid adds on top of it is shared out as points over all
  items, the collection account keeping those lamports in reserve.
 */
module BidInstruction {
  import opened Primitives
  import opened Numerals
  import opened Metadata
  import opened Token
  import opened Decimal
  import opened Base58
  import opened State

  /** The least step above the current price, in lamports. */
  const MinimumOverbid: nat := 10_000_000

  /**
    The price stored in an item's metadata: the value of the first `overbid`
    pair read as a `u64`.
   */
  function ReadOverbid(fields: Fields): (r: Result<U64>)
    ensures Lookup(fields, OverbidKey).None? ==> r == Failure(MissingOverbidField)
    ensures Lookup(fields, OverbidKey).Some? ==>
              r == (match ParseU64(Lookup(fields, OverbidKey).value)
                    case Some(v) => Success(v)
                    case None => Failure(InvalidOverbidValue))
  {
    match Lookup(fields, OverbidKey)
    case None => Failure(MissingOverbidField)
    case Some(text) =>
      match ParseU64(text)
      case None => Failure(InvalidOverbidValue)
      case Some(v) => Success(v)
  }

  /**
    The metadata after a bid: the two `update_field` calls write the bid's
    decimal text as the new price and the bidder's key as the new owner; every
    other key keeps its value.
   */
  function Repriced(fields: Fields, amount: U64, payer: Pubkey): (f: Fields)
    ensures Lookup(f, OverbidKey) == Some(U64ToString(amount))
    ensures Lookup(f, OwnerKey) == Some(KeyString(payer))
    ensures forall k | k != OverbidKey && k != OwnerKey :: Lookup(f, k) == Lookup(fields, k)
  {
    var priced := SetField(fields, OverbidKey, U64ToString(amount));
    var f := SetField(priced, OwnerKey, KeyString(payer));
    assert OverbidKey != OwnerKey by { assert OverbidKey[1] != OwnerKey[1]; }
    SetFieldLookup(fields, OverbidKey, U64ToString(amount), OverbidKey);
    SetFieldLookup(priced, OwnerKey, KeyString(payer), OverbidKey);
    SetFieldLookup(priced, OwnerKey, KeyString(payer), OwnerKey);
    forall k | k != OverbidKey && k != OwnerKey ensures Lookup(f, k) == Lookup(fields, k) {
      SetFieldLookup(fields, OverbidKey, U64ToString(amount), k);
      SetFieldLookup(priced, OwnerKey, KeyString(payer), k);
    }
    f
  }

  /** The price a bid writes is read back unchanged by the next bid. */
  lemma PriceRoundTrip(fields: Fields, amount: U64, payer: Pubkey)
    ensures ReadOverbid(Repriced(fields, amount, payer)) == Success(amount)
  {
    ParseToString(amount);
  }

  /**
    The token steps of a bid before the lamports move: thaw the seller's
    account, thaw the bidder's account when it was loaded frozen, and move the
    unit. `accounts` already holds the bidder's account. When seller and bidder
    are the same the account is thawed twice, which the token program refuses.
   */
  function MoveUnit(accounts: map<Pubkey, TokenAccount>, seller: Pubkey, buyer: Pubkey)
    : (r: Result<map<Pubkey, TokenAccount>>)
    requires seller in accounts && buyer in accounts
    ensures seller == buyer ==> r == Failure(TokenInvalidState)
    ensures r.Success? <==> && seller != buyer && accounts[seller].frozen
                            && 1 <= accounts[seller].amount && accounts[buyer].amount < U64_MAX
    ensures r.Success? ==> && r.value.Keys == accounts.Keys
                           && r.value[seller] == TokenAccount(accounts[seller].amount - 1, false)
                           && r.value[buyer] == TokenAccount(accounts[buyer].amount + 1, false)
                           && forall k | k in accounts && k != seller && k != buyer :: r.value[k] == accounts[k]
  {
    match Thaw(accounts[seller])
    case Failure(e) => Failure(e)
    case Success(source) =>
      var thawed := accounts[seller := source];
      // the bidder's frozen flag as loaded, before the seller's account was thawed
      if accounts[buyer].frozen then
        match Thaw(thawed[buyer])
        case Failure(e) => Failure(e)
        case Success(destination) => TransferUnits(thawed[buyer := destination], seller, buyer, 1)
      else TransferUnits(thawed, seller, buyer, 1)
  }

  /**
    Under sole custody the unit moves exactly when the seller is the holder
    and the bidder someone else (whose account, created when missing, is
    empty), and freezing both accounts afterwards leaves the unit with the
    bidder.
   */
  lemma MoveUnitCustody(accounts: map<Pubkey, TokenAccount>, holder: Pubkey, seller: Pubkey, buyer: Pubkey)
    requires SoleCustody(accounts, holder) && seller in accounts
    ensures MoveUnit(WithAccount(accounts, buyer), seller, buyer).Success? <==> seller == holder && buyer != holder
    ensures MoveUnit(WithAccount(accounts, buyer), seller, buyer).Success? ==>
              Refrozen(MoveUnit(WithAccount(accounts, buyer), seller, buyer).value, seller, buyer)
              == HandedOver(accounts, seller, buyer)
  {
    var loaded := WithAccount(accounts, buyer);
    assert buyer != holder ==> loaded[buyer].amount == 0;
    if MoveUnit(loaded, seller, buyer).Success? {
      var after := Refrozen(MoveUnit(loaded, seller, buyer).value, seller, buyer);
      var handed := HandedOver(accounts, seller, buyer);
      assert after.Keys == handed.Keys;
      forall k | k in after ensures after[k] == handed[k] {
        if k != seller && k != buyer {
          assert after[k] == loaded[k] == accounts[k];
        }
      }
    }
  }

  /** No item would overflow when `p` points are added to it. */
  predicate Creditable(items: seq<Item>, p: nat)
  {
    forall i | 0 <= i < |items| :: items[i].points + p <= U64_MAX
  }

  /** Every item with `p` more points, in the same order. */
  function Credited(items: seq<Item>, p: nat): (r: seq<Item>)
    requires Creditable(items, p)
    ensures |r| == |items|
    ensures forall i | 0 <= i < |items| :: r[i] == Item(items[i].mint, items[i].points + p)
  {
    if items == [] then []
    else
      var last := items[|items| - 1];
      Credited(items[..|items| - 1], p) + [Item(last.mint, last.points + p)]
  }

  /** Crediting `p` to each of `n` items adds `n * p` to the total. */
  lemma {:induction false} SumCredited(items: seq<Item>, p: nat)
    requires Creditable(items, p)
    ensures SumPoints(Credited(items, p)) == SumPoints(items) + |items| * p
    decreases |items|
  {
    if items != [] {
      var init, last := items[..|items| - 1], items[|items| - 1];
      assert Creditable(init, p) by {
        forall i | 0 <= i < |init| ensures init[i].points + p <= U64_MAX {
          assert init[i] == items[i];
        }
      }
      SumCredited(init, p);
      SumPointsAppend(Credited(init, p), Item(last.mint, last.points + p));
      MulSucc(|init|, p);
    }
  }

  lemma MulSucc(n: nat, p: nat)
    ensures (n + 1) * p == n * p + p
  {
  }

  /**
    The loop that adds `p` to every item's points. An item whose points would
    pass 64 bits makes the addition panic and aborts the instruction.
   */
  method CreditAll(items: seq<Item>, p: U64) returns (r: Result<seq<Item>>)
    ensures r.Success? <==> Creditable(items, p)
    ensures r.Failure? ==> r.error == OverflowPanic
    ensures r.Success? ==> r.value == Credited(items, p)
  {
    var out := [];
    var i := 0;
    while i < |items|
      invariant 0 <= i <= |items|
      invariant Creditable(items[..i], p)
      invariant out == Credited(items[..i], p)
    {
      if items[i].points + p > U64_MAX {
        return Failure(OverflowPanic);
      }
      assert items[..i + 1][..i] == items[..i];
      out := out + [Item(items[i].mint, items[i].points + p)];
      i := i + 1;
    }
    assert items[..i] == items;
    return Success(out);
  }



  /**
    Each item's share of a bid's excess `diff` over the price when there are
    `n` items: the quotient of a division that rounds down.
   */
  function Share(diff: nat, n: nat): (share: nat)
    requires n >= 1
    ensures share <= diff
  {
    DivIdentity(diff, n);
    MulMonotone(1, n, diff / n);
    diff / n
  }

  /** What the shares leave of the excess, which goes to the seller. */
  function Remainder(diff: nat, n: nat): (remainder: nat)
    requires n >= 1
    ensures remainder < n && remainder <= diff
  {
    DivIdentity(diff, n);
    diff % n
  }

  /** The shares and the remainder make up the excess: nothing is lost in the division. */
  lemma ShareRemainder(diff: nat, n: nat)
    requires n >= 1
    ensures n * Share(diff, n) + Remainder(diff, n) == diff
    ensures Share(diff, n) == diff / n && Remainder(diff, n) == diff % n
  {
    DivIdentity(diff, n);
  }

  /** The accounts a bid loads exist: the collection, the mint and the seller's token account. */
  predicate Loaded(c: Chain, owner: Pubkey, mint: Pubkey)
  {
    c.collection.Some? && mint in c.mints && mint in c.tokenAccounts && owner in c.tokenAccounts[mint]
  }

  /** The price the item `mint` is currently on sale for, when it can be read. */
  function PriceOf(c: Chain, mint: Pubkey): Result<U64>
  {
    if mint in c.mints then ReadOverbid(c.mints[mint].fields) else Failure(MissingOverbidField)
  }

  /** `init_if_needed`: the bidder's token account as loaded, created empty when missing. */
  function WithAccount(accounts: map<Pubkey, TokenAccount>, k: Pubkey): (r: map<Pubkey, TokenAccount>)
    ensures r.Keys == accounts.Keys + {k}
    ensures k in accounts ==> r == accounts
    ensures k !in accounts ==> r[k] == EmptyAccount
  {
    if k in accounts then accounts else accounts[k := EmptyAccount]
  }

  /** The seller's and the bidder's accounts frozen again once the unit has moved. */
  function Refrozen(moved: map<Pubkey, TokenAccount>, seller: Pubkey, buyer: Pubkey): (r: map<Pubkey, TokenAccount>)
    requires seller != buyer && seller in moved && buyer in moved && !moved[seller].frozen && !moved[buyer].frozen
    ensures r.Keys == moved.Keys
    ensures r[seller] == TokenAccount(moved[seller].amount, true) && r[buyer] == TokenAccount(moved[buyer].amount, true)
    ensures forall k | k in moved && k != seller && k != buyer :: r[k] == moved[k]
  {
    var frozen := moved[seller := Freeze(moved[seller]).value];
    frozen[buyer := Freeze(frozen[buyer]).value]
  }

  /**
    The chain after a sale of `mint`: the new metadata, every item credited
    `share` points, the item's token accounts and the new balances.
   */
  function Sold(c: Chain, mint: Pubkey, fields: Fields, accounts: map<Pubkey, TokenAccount>, share: nat,
                lamports: map<Pubkey, U64>): (next: Chain)
    requires c.collection.Some? && mint in c.mints && Creditable(c.Items(), share)
    ensures next.Items() == Credited(c.Items(), share)
  {
    c.(collection := Some(c.collection.value.(items := Credited(c.Items(), share))),
       mints := c.mints[mint := c.mints[mint].(fields := fields)],
       tokenAccounts := c.tokenAccounts[mint := accounts],
       lamports := lamports)
  }

  /**
    The checks a bid passes before it changes anything: the accounts it loads
    exist, the item's price can be read, and the bid clears the price by the
    minimum step (an addition that panics when it overflows). The result is
    the price.
   */
  function Checked(c: Chain, owner: Pubkey, mint: Pubkey, amount: U64): (r: Result<U64>)
    ensures !Loaded(c, owner, mint) ==> r == Failure(AccountNotInitialized)
    ensures Loaded(c, owner, mint) && PriceOf(c, mint).Failure? ==> r == PriceOf(c, mint)
    ensures Loaded(c, owner, mint) && PriceOf(c, mint).Success? ==>
              var price := PriceOf(c, mint).value;
              r == if price + MinimumOverbid > U64_MAX then Failure(OverflowPanic)
                   else if amount < price + MinimumOverbid then Failure(BidTooLow)
                   else Success(price)
  {
    if !Loaded(c, owner, mint) then Failure(AccountNotInitialized)
    else
      match ReadOverbid(c.mints[mint].fields)
      case Failure(e) => Failure(e)
      case Success(price) =>
        if price + MinimumOverbid > U64_MAX then Failure(OverflowPanic)
        else if amount < price + MinimumOverbid then Failure(BidTooLow)
        else Success(price)
  }

  /**
    The two system transfers of a bid, in order: `toCollection` lamports from
    the bidder to the collection account, then `toSeller` to the seller.
   */
  function Payments(lamports: map<Pubkey, U64>, payer: Pubkey, collection: Pubkey, seller: Pubkey,
                    toCollection: nat, toSeller: nat): (r: Result<map<Pubkey, U64>>)
    requires payer != collection && payer != seller
    ensures r.Failure? ==> r.error == InsufficientLamports || r.error == ArithmeticOverflow
  {
    match TransferLamports(lamports, payer, collection, toCollection)
    case Failure(e) => Failure(e)
    case Success(paid) => TransferLamports(paid, payer, seller, toSeller)
  }

  /**
    The rest of a bid once the unit has moved: divide the bid's excess over
    the price among all items (a division that panics when there are none),
    credit each item its share (an addition that panics when it overflows),
    pay the collection account the credited lamports and the seller the old
    price plus the remainder, freeze both token accounts again and store the
    new metadata.
   */
  function Settle(c: Chain, payer: Pubkey, owner: Pubkey, mint: Pubkey, amount: U64, price: U64, fields: Fields,
                  moved: map<Pubkey, TokenAccount>): (r: Result<Chain>)
    requires c.collection.Some? && mint in c.mints && price <= amount
    requires payer != c.authority && owner != c.authority && payer != owner
    requires owner in moved && payer in moved && !moved[owner].frozen && !moved[payer].frozen
    ensures r.Success? ==> |c.Items()| >= 1
    ensures r.Failure? ==> r.error in {DivideByZeroPanic, OverflowPanic, InsufficientLamports, ArithmeticOverflow}
  {
    var n := |c.Items()|;
    if n == 0 then Failure(DivideByZeroPanic)
    else
      var diff := amount - price;
      var share := Share(diff, n);
      var remainder := Remainder(diff, n);
      if !Creditable(c.Items(), share) then Failure(OverflowPanic)
      else Pay(c, payer, owner, mint, fields, moved, share, diff - remainder, price + remainder)
  }

  /**
    The end of a settlement, once every item can take its share: pay the
    collection account and the seller, then store the credited items, the
    refrozen token accounts and the new metadata.
   */
  function Pay(c: Chain, payer: Pubkey, owner: Pubkey, mint: Pubkey, fields: Fields,
               moved: map<Pubkey, TokenAccount>, share: nat, toCollection: nat, toSeller: nat): (r: Result<Chain>)
    requires c.collection.Some? && mint in c.mints && Creditable(c.Items(), share)
    requires payer != c.authority && owner != c.authority && payer != owner
    requires owner in moved && payer in moved && !moved[owner].frozen && !moved[payer].frozen
    ensures r.Failure? ==> r.error == InsufficientLamports || r.error == ArithmeticOverflow
    ensures r.Success? ==> && r.value.Items() == Credited(c.Items(), share)
                           && r.value.authority == c.authority && r.value.space == c.space
                           && r.value.mints.Keys == c.mints.Keys
  {
    match Payments(c.lamports, payer, c.authority, owner, toCollection, toSeller)
    case Failure(e) => Failure(e)
    case Success(lamports) => Success(Sold(c, mint, fields, Refrozen(moved, owner, payer), share, lamports))
  }

  /**
    The effect of a bid of `amount` lamports by `payer` on the item `mint`
    held by `owner`, step by step as the instruction runs: check the bid,
    write the new price and owner, thaw the seller's account (and the
    bidder's, when it was loaded frozen) and move the unit, then settle. The
    first failing step aborts the whole instruction. The collection account's
    address is derived by the program and owned by it, so it can neither sign
    as the bidder nor be the seller's system account.
   */
  function Bid(c: Chain, payer: Pubkey, owner: Pubkey, mint: Pubkey, amount: U64): (r: Result<Chain>)
    requires payer != c.authority && owner != c.authority
    ensures r.Success? ==> && Loaded(c, owner, mint) && payer != owner
                           && PriceOf(c, mint).Success? && PriceOf(c, mint).value + MinimumOverbid <= amount
  {
    match Checked(c, owner, mint, amount)
    case Failure(e) => Failure(e)
    case Success(price) =>
      match MoveUnit(WithAccount(c.tokenAccounts[mint], payer), owner, payer)
      case Failure(e) => Failure(e)
      case Success(moved) =>
        Settle(c, payer, owner, mint, amount, price, Repriced(c.mints[mint].fields, amount, payer), moved)
  }

  /** Settles a bid: divides the excess, runs the credit loop, then pays and stores. */
  method ProcessSettle(c: Chain, payer: Pubkey, owner: Pubkey, mint: Pubkey, amount: U64, price: U64,
                       fields: Fields, moved: map<Pubkey, TokenAccount>)
    returns (r: Outcome, next: Chain)
    requires c.collection.Some? && mint in c.mints && price <= amount
    requires payer != c.authority && owner != c.authority && payer != owner
    requires owner in moved && payer in moved && !moved[owner].frozen && !moved[payer].frozen
    ensures (r, next) == Applied(Settle(c, payer, owner, mint, amount, price, fields, moved), c)
  {
    var items := c.Items();
    if |items| == 0 {
      return Fail(DivideByZeroPanic), c;
    }
    var diff := amount - price;
    var share := Share(diff, |items|);
    var remainder := Remainder(diff, |items|);
    var credited := CreditAll(items, share);
    if credited.Failure? {
      return Fail(credited.error), c;
    }
    var toCollection, toSeller := diff - remainder, price + remainder;
    SettleThenPay(c, payer, owner, mint, amount, price, fields, moved, share, toCollection, toSeller);
    r, next := ProcessPay(c, payer, owner, mint, fields, moved, share, credited.value, toCollection, toSeller);
  }

  /** Once there are items and each can take its share, a settlement is its payment. */
  lemma SettleThenPay(c: Chain, payer: Pubkey, owner: Pubkey, mint: Pubkey, amount: U64, price: U64,
                      fields: Fields, moved: map<Pubkey, TokenAccount>, share: nat, toCollection: nat, toSeller: nat)
    requires c.collection.Some? && mint in c.mints && price <= amount
    requires payer != c.authority && owner != c.authority && payer != owner
    requires owner in moved && payer in moved && !moved[owner].frozen && !moved[payer].frozen
    requires |c.Items()| >= 1 && share == Share(amount - price, |c.Items()|) && Creditable(c.Items(), share)
    requires toCollection == amount - price - Remainder(amount - price, |c.Items()|)
    requires toSeller == price + Remainder(amount - price, |c.Items()|)
    ensures Settle(c, payer, owner, mint, amount, price, fields, moved)
         == Pay(c, payer, owner, mint, fields, moved, share, toCollection, toSeller)
  {
  }

  /**
    Pays the collection account and the seller, freezes both token accounts
    again and stores the credited items and the new metadata, step by step.
   */
  method ProcessPay(c: Chain, payer: Pubkey, owner: Pubkey, mint: Pubkey, fields: Fields,
                    moved: map<Pubkey, TokenAccount>, share: nat, credited: seq<Item>, toCollection: nat, toSeller: nat)
    returns (r: Outcome, next: Chain)
    requires c.collection.Some? && mint in c.mints && Creditable(c.Items(), share)
    requires payer != c.authority && owner != c.authority && payer != owner
    requires owner in moved && payer in moved && !moved[owner].frozen && !moved[payer].frozen
    requires credited == Credited(c.Items(), share)
    ensures (r, next) == Applied(Pay(c, payer, owner, mint, fields, moved, share, toCollection, toSeller), c)
  {
    var paid := Payments(c.lamports, payer, c.authority, owner, toCollection, toSeller);
    if paid.Failure? {
      return Fail(paid.error), c;
    }

    // freezing cannot fail here: both accounts were thawed before the unit moved
    var accounts: map<Pubkey, TokenAccount> := moved;
    accounts := accounts[owner := Freeze(accounts[owner]).value];
    accounts := accounts[payer := Freeze(accounts[payer]).value];

    next := c.(collection := Some(c.collection.value.(items := credited)),
               mints := c.mints[mint := c.mints[mint].(fields := fields)],
               tokenAccounts := c.tokenAccounts[mint := accounts],
               lamports := paid.value);
    r := Pass;
  }

  /**
    Processes a bid, changing the accounts step by step; the outcome and the
    new chain are those of `Bid`.
   */
  method ProcessBid(c: Chain, payer: Pubkey, owner: Pubkey, mint: Pubkey, amount: U64)
    returns (r: Outcome, next: Chain)
    requires payer != c.authority && owner != c.authority
    ensures (r, next) == Applied(Bid(c, payer, owner, mint, amount), c)
  {
    if !Loaded(c, owner, mint) {
      return Fail(AccountNotInitialized), c;
    }
    var read := ReadOverbid(c.mints[mint].fields);
    if read.Failure? {
      return Fail(read.error), c;
    }
    var price := read.value;
    if price + MinimumOverbid > U64_MAX {
      return Fail(OverflowPanic), c;
    }
    if amount < price + MinimumOverbid {
      return Fail(BidTooLow), c;
    }
    var fields := Repriced(c.mints[mint].fields, amount, payer);

    var accounts: map<Pubkey, TokenAccount> := WithAccount(c.tokenAccounts[mint], payer);
    var moved := MoveUnit(accounts, owner, payer);
    if moved.Failure? {
      return Fail(moved.error), c;
    }
    r, next := ProcessSettle(c, payer, owner, mint, amount, price, fields, moved.value);
  }

  /**
    A bid is refused before anything changes when an account it loads is
    missing, when the price cannot be read, when the price plus the minimum
    step overflows, when the bid is below that sum, and when the bidder is
    the seller; the first of these decides the error.
   */
  lemma BidRefusals(c: Chain, payer: Pubkey, owner: Pubkey, mint: Pubkey, amount: U64)
    requires payer != c.authority && owner != c.authority
    ensures !Loaded(c, owner, mint) ==> Bid(c, payer, owner, mint, amount) == Failure(AccountNotInitialized)
    ensures Loaded(c, owner, mint) && PriceOf(c, mint).Failure? ==>
              Bid(c, payer, owner, mint, amount) == Failure(PriceOf(c, mint).error)
    ensures Loaded(c, owner, mint) && PriceOf(c, mint).Success? ==>
              var price := PriceOf(c, mint).value;
              && (price + MinimumOverbid > U64_MAX ==> Bid(c, payer, owner, mint, amount) == Failure(OverflowPanic))
              && (price + MinimumOverbid <= U64_MAX && amount < price + MinimumOverbid ==>
                    Bid(c, payer, owner, mint, amount) == Failure(BidTooLow))
              && (price + MinimumOverbid <= amount && payer == owner ==>
                    Bid(c, payer, owner, mint, amount) == Failure(TokenInvalidState))
  {
  }

  /**
    The two transfers take `toCollection + toSeller` lamports from the bidder
    and hand them to the collection account and the seller; they go through
    exactly when the bidder holds that much and neither receiver's balance
    passes 64 bits. No other balance changes.
   */
  lemma PaymentsMove(lamports: map<Pubkey, U64>, payer: Pubkey, collection: Pubkey, seller: Pubkey,
                     toCollection: nat, toSeller: nat)
    requires payer != collection && payer != seller && collection != seller
    ensures Payments(lamports, payer, collection, seller, toCollection, toSeller).Success? <==>
              && toCollection + toSeller <= Bal(lamports, payer)
              && Bal(lamports, collection) + toCollection <= U64_MAX
              && Bal(lamports, seller) + toSeller <= U64_MAX
    ensures Payments(lamports, payer, collection, seller, toCollection, toSeller).Success? ==>
              var after := Payments(lamports, payer, collection, seller, toCollection, toSeller).value;
              && Bal(after, payer) + toCollection + toSeller == Bal(lamports, payer)
              && Bal(after, collection) == Bal(lamports, collection) + toCollection
              && Bal(after, seller) == Bal(lamports, seller) + toSeller
              && forall k | k != payer && k != collection && k != seller :: Bal(after, k) == Bal(lamports, k)
  {
  }

  /** A successful bid passed its checks, moved the unit and settled. */
  lemma BidStages(c: Chain, payer: Pubkey, owner: Pubkey, mint: Pubkey, amount: U64)
    requires payer != c.authority && owner != c.authority
    requires Bid(c, payer, owner, mint, amount).Success?
    ensures Checked(c, owner, mint, amount).Success? && Loaded(c, owner, mint)
    ensures MoveUnit(WithAccount(c.tokenAccounts[mint], payer), owner, payer).Success? && payer != owner
    ensures Bid(c, payer, owner, mint, amount)
         == Settle(c, payer, owner, mint, amount, Checked(c, owner, mint, amount).value,
                   Repriced(c.mints[mint].fields, amount, payer),
                   MoveUnit(WithAccount(c.tokenAccounts[mint], payer), owner, payer).value)
  {
  }

  /**
    What a sale of one item at `price` for `amount` did to the chain: every
    item gained an equal share of the excess, the bidder paid exactly the
    amount, the collection account received one share per item and the
    seller the price plus the remainder; no other balance changed.
   */
  ghost predicate SaleEffect(c: Chain, next: Chain, payer: Pubkey, owner: Pubkey, price: nat, amount: nat)
    requires |c.Items()| >= 1 && price <= amount
  {
    var n := |c.Items()|;
    var share := Share(amount - price, n);
    && Creditable(c.Items(), share) && next.Items() == Credited(c.Items(), share)
    && Bal(next.lamports, payer) + amount == Bal(c.lamports, payer)
    && Bal(next.lamports, c.authority) == Bal(c.lamports, c.authority) + n * share
    && Bal(next.lamports, owner) == Bal(c.lamports, owner) + price + Remainder(amount - price, n)
    && forall k | k != payer && k != owner && k != c.authority :: Bal(next.lamports, k) == Bal(c.lamports, k)
  }

  /**
    What a settlement did: the sale's effect on the items and balances, and
    the item's metadata and token accounts stored.
   */
  lemma SettleEffect(c: Chain, payer: Pubkey, owner: Pubkey, mint: Pubkey, amount: U64, price: U64, fields: Fields,
                     moved: map<Pubkey, TokenAccount>)
    requires c.collection.Some? && mint in c.mints && price <= amount
    requires payer != c.authority && owner != c.authority && payer != owner
    requires owner in moved && payer in moved && !moved[owner].frozen && !moved[payer].frozen
    requires Settle(c, payer, owner, mint, amount, price, fields, moved).Success?
    ensures |c.Items()| >= 1
    ensures var next := Settle(c, payer, owner, mint, amount, price, fields, moved).value;
            && SaleEffect(c, next, payer, owner, price, amount)
            && next.collection == Some(c.collection.value.(items := Credited(c.Items(), Share(amount - price, |c.Items()|))))
            && next.mints == c.mints[mint := c.mints[mint].(fields := fields)]
            && next.tokenAccounts == c.tokenAccounts[mint := Refrozen(moved, owner, payer)]
            && next.authority == c.authority && next.space == c.space
  {
    var n := |c.Items()|;
    assert n >= 1;
    var diff := amount - price;
    var share, remainder := Share(diff, n), Remainder(diff, n);
    ShareRemainder(diff, n);
    var toCollection, toSeller := diff - remainder, price + remainder;
    assert Creditable(c.Items(), share);
    SettleThenPay(c, payer, owner, mint, amount, price, fields, moved, share, toCollection, toSeller);
    PaymentsMove(c.lamports, payer, c.authority, owner, toCollection, toSeller);
  }

  /**
    After a successful bid the item's price reads as the bid, at least the
    minimum step above the old price, and its owner as the bidder.
   */
  lemma BidReprices(c: Chain, payer: Pubkey, owner: Pubkey, mint: Pubkey, amount: U64)
    requires payer != c.authority && owner != c.authority
    requires Bid(c, payer, owner, mint, amount).Success?
    ensures PriceOf(c, mint).Success? && PriceOf(c, mint).value + MinimumOverbid <= amount
    ensures PriceOf(Bid(c, payer, owner, mint, amount).value, mint) == Success(amount)
    ensures var next := Bid(c, payer, owner, mint, amount).value;
            mint in next.mints && Lookup(next.mints[mint].fields, OwnerKey) == Some(KeyString(payer))
  {
    BidStages(c, payer, owner, mint, amount);
    var price := Checked(c, owner, mint, amount).value;
    var fields := Repriced(c.mints[mint].fields, amount, payer);
    var moved := MoveUnit(WithAccount(c.tokenAccounts[mint], payer), owner, payer).value;
    SettleEffect(c, payer, owner, mint, amount, price, fields, moved);
    PriceRoundTrip(c.mints[mint].fields, amount, payer);
  }

  /** When the total of the points plus one share per item fits in 64 bits, no item overflows. */
  lemma ReserveCreditable(items: seq<Item>, share: nat)
    requires SumPoints(items) + |items| * share <= U64_MAX
    ensures Creditable(items, share)
  {
    forall i | 0 <= i < |items| ensures items[i].points + share <= U64_MAX {
      PointsWithinSum(items, i);
      MulMonotone(1, |items|, share);
    }
  }

  /**
    The bidder can pay `amount`, and neither the collection account's nor
    the seller's balance passes 64 bits once the excess over `price` is
    divided among the items.
   */
  ghost predicate Payable(c: Chain, payer: Pubkey, owner: Pubkey, price: nat, amount: nat)
    requires |c.Items()| >= 1 && price <= amount
  {
    var n := |c.Items()|;
    && amount <= Bal(c.lamports, payer)
    && Bal(c.lamports, c.authority) + n * Share(amount - price, n) <= U64_MAX
    && Bal(c.lamports, owner) + price + Remainder(amount - price, n) <= U64_MAX
  }

  /**
    Under the registry and reserve parts of the invariant a settlement cannot
    panic: there is an item to divide by, and no item's points overflow while
    the collection account's balance can take the shares. It goes through
    exactly when the bidder can pay the bid and neither receiver's balance
    passes 64 bits.
   */
  lemma SettleAccepted(c: Chain, holder: map<Pubkey, Pubkey>, payer: Pubkey, owner: Pubkey, mint: Pubkey,
                       amount: U64, price: U64, fields: Fields, moved: map<Pubkey, TokenAccount>)
    requires Registry(c, holder) && Reserve(c) && c.collection.Some? && mint in c.mints && price <= amount
    requires payer != c.authority && owner != c.authority && payer != owner
    requires owner in moved && payer in moved && !moved[owner].frozen && !moved[payer].frozen
    ensures |c.Items()| >= 1
    ensures Settle(c, payer, owner, mint, amount, price, fields, moved).Success? <==> Payable(c, payer, owner, price, amount)
  {
    var items := c.Items();
    MintSetIndex(items, mint);
    var n := |items|;
    var diff := amount - price;
    var share, remainder := Share(diff, n), Remainder(diff, n);
    ShareRemainder(diff, n);
    var toCollection, toSeller := diff - remainder, price + remainder;
    if Bal(c.lamports, c.authority) + n * share <= U64_MAX {
      ReserveCreditable(items, share);
    }
    PaymentsMove(c.lamports, payer, c.authority, owner, toCollection, toSeller);
    if Creditable(items, share) {
      SettleThenPay(c, payer, owner, mint, amount, price, fields, moved, share, toCollection, toSeller);
    }
  }

  /**
    Crediting every item `share` points while the collection account
    receives one share per item keeps the reserve.
   */
  lemma CreditKeepsReserve(c: Chain, next: Chain, share: nat)
    requires Reserve(c) && Creditable(c.Items(), share)
    requires next.Items() == Credited(c.Items(), share) && next.authority == c.authority
    requires Bal(next.lamports, c.authority) == Bal(c.lamports, c.authority) + |c.Items()| * share
    ensures Reserve(next)
  {
    SumCredited(c.Items(), share);
  }

  /** Crediting points and rewriting one mint's metadata and accounts registers nothing new. */
  lemma CreditKeepsRegistry(c: Chain, next: Chain, holder: map<Pubkey, Pubkey>, mint: Pubkey, payer: Pubkey, share: nat)
    requires Registry(c, holder) && c.collection.Some? && mint in c.mints && Creditable(c.Items(), share)
    requires next.collection == Some(c.collection.value.(items := Credited(c.Items(), share)))
    requires next.space == c.space && next.mints.Keys == c.mints.Keys && next.tokenAccounts.Keys == c.tokenAccounts.Keys
    ensures Registry(next, holder[mint := payer])
  {
    SameMints(c.Items(), next.Items());
  }

  /**
    A settlement keeps the invariant, with the bidder as the item's new
    holder, when the seller was the holder and the unit and the `owner` text
    pass to the bidder together.
   */
  lemma SettleKeepsValid(c: Chain, holder: map<Pubkey, Pubkey>, payer: Pubkey, owner: Pubkey, mint: Pubkey,
                         amount: U64, price: U64, fields: Fields, moved: map<Pubkey, TokenAccount>)
    requires Valid(c, holder) && c.collection.Some? && mint in c.mints && price <= amount
    requires payer != c.authority && owner != c.authority && payer != owner
    requires owner in moved && payer in moved && !moved[owner].frozen && !moved[payer].frozen
    requires owner == holder[mint] && Lookup(fields, OwnerKey) == Some(KeyString(payer))
    requires Refrozen(moved, owner, payer) == HandedOver(c.tokenAccounts[mint], owner, payer)
    requires Settle(c, payer, owner, mint, amount, price, fields, moved).Success?
    ensures Valid(Settle(c, payer, owner, mint, amount, price, fields, moved).value, holder[mint := payer])
  {
    var next := Settle(c, payer, owner, mint, amount, price, fields, moved).value;
    SettleEffect(c, payer, owner, mint, amount, price, fields, moved);
    var share := Share(amount - price, |c.Items()|);
    CreditKeepsRegistry(c, next, holder, mint, payer, share);
    CreditKeepsReserve(c, next, share);
    MoveCustody(c.mints, c.tokenAccounts, holder, mint, fields, payer);
  }

  /**
    What a successful bid did, in the bid's own terms: every item gained an
    equal share of the excess of the bid over the old price, the bidder paid
    exactly the bid, the collection account received one share per item and
    the seller the old price plus the remainder; no other balance changed.
    The unit went from the seller's token account to the bidder's (created
    empty when missing), and both accounts are frozen again.
   */
  lemma BidEffect(c: Chain, payer: Pubkey, owner: Pubkey, mint: Pubkey, amount: U64)
    requires payer != c.authority && owner != c.authority
    requires Bid(c, payer, owner, mint, amount).Success?
    ensures c.collection.Some? && |c.Items()| >= 1 && PriceOf(c, mint).Success?
    ensures PriceOf(c, mint).value + MinimumOverbid <= amount
    ensures SaleEffect(c, Bid(c, payer, owner, mint, amount).value, payer, owner, PriceOf(c, mint).value, amount)
    ensures Loaded(c, owner, mint)
    ensures var loaded := WithAccount(c.tokenAccounts[mint], payer);
            var next := Bid(c, payer, owner, mint, amount).value;
            && mint in next.tokenAccounts && next.tokenAccounts[mint].Keys == loaded.Keys
            && next.tokenAccounts[mint][owner] == TokenAccount(loaded[owner].amount - 1, true)
            && next.tokenAccounts[mint][payer] == TokenAccount(loaded[payer].amount + 1, true)
            && forall k | k in loaded && k != owner && k != payer :: next.tokenAccounts[mint][k] == loaded[k]
  {
    BidStages(c, payer, owner, mint, amount);
    var price := Checked(c, owner, mint, amount).value;
    var fields := Repriced(c.mints[mint].fields, amount, payer);
    var moved := MoveUnit(WithAccount(c.tokenAccounts[mint], payer), owner, payer).value;
    assert PriceOf(c, mint) == Success(price);
    var next := Bid(c, payer, owner, mint, amount).value;
    assert next == Settle(c, payer, owner, mint, amount, price, fields, moved).value;
    SettleEffect(c, payer, owner, mint, amount, price, fields, moved);
  }

  /**
    Under the invariant a bid goes through exactly when the item is
    registered, the named seller is its holder and the bidder someone else,
    the bid clears the price by the minimum step, the bidder can pay it, and
    neither the collection account's nor the seller's balance passes 64 bits.
   */
  lemma BidAccepted(c: Chain, holder: map<Pubkey, Pubkey>, payer: Pubkey, owner: Pubkey, mint: Pubkey, amount: U64)
    requires Valid(c, holder) && payer != c.authority && owner != c.authority
    ensures Bid(c, payer, owner, mint, amount).Success? <==>
              && c.collection.Some? && mint in c.mints && mint in holder && owner == holder[mint] && payer != owner
              && |c.Items()| >= 1
              && PriceOf(c, mint).Success? && PriceOf(c, mint).value + MinimumOverbid <= amount
              && Payable(c, payer, owner, PriceOf(c, mint).value, amount)
  {
    if Bid(c, payer, owner, mint, amount).Success? {
      BidKeepsValid(c, holder, payer, owner, mint, amount);
    }
    if c.collection.Some? && mint in c.mints && mint in holder && PriceOf(c, mint).Success? {
      var price := PriceOf(c, mint).value;
      var accounts := c.tokenAccounts[mint];
      if owner == holder[mint] && price + MinimumOverbid <= amount {
        assert Loaded(c, owner, mint);
        assert Checked(c, owner, mint, amount) == Success(price);
        MoveUnitCustody(accounts, holder[mint], owner, payer);
        if payer != owner {
          var fields := Repriced(c.mints[mint].fields, amount, payer);
          var moved := MoveUnit(WithAccount(accounts, payer), owner, payer).value;
          assert Bid(c, payer, owner, mint, amount) == Settle(c, payer, owner, mint, amount, price, fields, moved);
          SettleAccepted(c, holder, payer, owner, mint, amount, price, fields, moved);
        }
      }
    }
  }

  /**
    A sale keeps the invariant, with the bidder as the item's new holder;
    only the holder can sell.
   */
  lemma BidKeepsValid(c: Chain, holder: map<Pubkey, Pubkey>, payer: Pubkey, owner: Pubkey, mint: Pubkey, amount: U64)
    requires Valid(c, holder) && payer != c.authority && owner != c.authority
    requires Bid(c, payer, owner, mint, amount).Success?
    ensures mint in holder && owner == holder[mint]
    ensures Valid(Bid(c, payer, owner, mint, amount).value, holder[mint := payer])
  {
    BidStages(c, payer, owner, mint, amount);
    var price := Checked(c, owner, mint, amount).value;
    var fields := Repriced(c.mints[mint].fields, amount, payer);
    var moved := MoveUnit(WithAccount(c.tokenAccounts[mint], payer), owner, payer).value;
    MoveUnitCustody(c.tokenAccounts[mint], holder[mint], owner, payer);
    SettleKeepsValid(c, holder, payer, owner, mint, amount, price, fields, moved);
  }
}
