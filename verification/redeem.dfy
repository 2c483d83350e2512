/**
  The `redeem` instruction: the key named as an item's `owner` in its
  metadata collects the points the item has accrued, in lamports from the
  collection account, and the item's points go back to zero.
 */
module RedeemInstruction {
  import opened Primitives
  import opened Metadata
  import opened Token
  import opened Base58
  import opened State

  /** The index of the first item carrying `mint`, if any. */
  function Position(items: seq<Item>, mint: Pubkey): (r: Option<nat>)
    ensures r.None? <==> forall j | 0 <= j < |items| :: items[j].mint != mint
    ensures r.Some? ==> r.value < |items| && items[r.value].mint == mint
    ensures r.Some? ==> forall j | 0 <= j < r.value :: items[j].mint != mint
    decreases |items|
  {
    if items == [] then None
    else if items[0].mint == mint then Some(0)
    else
      match Position(items[1..], mint)
      case None => None
      case Some(i) => Some(i + 1)
  }

  /** The item's points go to `signer`: out of the collection account, then into the signer's. */
  function Payout(c: Chain, signer: Pubkey, i: nat): (r: Result<Chain>)
    requires c.collection.Some? && i < |c.Items()|
    ensures r.Failure? ==> r.error == ArithmeticOverflow
    ensures r.Success? ==> && |r.value.Items()| == |c.Items()| && r.value.Items()[i].points == 0
                           && r.value.mints == c.mints && r.value.tokenAccounts == c.tokenAccounts
  {
    var items := c.Items();
    var points := items[i].points;
    match Debit(c.lamports, c.authority, points, ArithmeticOverflow)
    case Failure(e) => Failure(e)
    case Success(debited) =>
      match Credit(debited, signer, points)
      case Failure(e) => Failure(e)
      case Success(credited) =>
        Success(c.(collection := Some(c.collection.value.(items := items[i := items[i].(points := 0)])),
                   lamports := credited))
  }

  /**
    The outcome of `redeem` by `signer` for `mint`: the collection and the
    mint must exist, the mint's metadata must name an owner, that owner must
    be the signer's key written out, and some item must carry the mint; then
    the first such item is paid out.
   */
  function Redeem(c: Chain, signer: Pubkey, mint: Pubkey): (r: Result<Chain>)
    ensures r.Failure? ==> r.error in {AccountNotInitialized, InvalidAccountData, WrongOwner, ArithmeticOverflow}
    ensures r.Success? ==> && c.collection.Some? && mint in c.mints
                           && Lookup(c.mints[mint].fields, OwnerKey) == Some(KeyString(signer))
  {
    if c.collection.None? || mint !in c.mints then Failure(AccountNotInitialized)
    else
      match Lookup(c.mints[mint].fields, OwnerKey)
      case None => Failure(InvalidAccountData)
      case Some(owner) =>
        if owner != KeyString(signer) then Failure(WrongOwner)
        else
          match Position(c.Items(), mint)
          case None => Failure(InvalidAccountData)
          case Some(i) => Payout(c, signer, i)
  }

  /**
    Processes a redemption, changing the balances and the item step by step;
    the outcome and the new chain are those of `Redeem`.
   */
  method ProcessRedeem(c: Chain, signer: Pubkey, mint: Pubkey) returns (r: Outcome, next: Chain)
    requires signer != c.authority
    ensures (r, next) == Applied(Redeem(c, signer, mint), c)
  {
    if c.collection.None? || mint !in c.mints {
      return Fail(AccountNotInitialized), c;
    }
    var owner := Lookup(c.mints[mint].fields, OwnerKey);
    if owner.None? {
      return Fail(InvalidAccountData), c;
    }
    if owner.value != KeyString(signer) {
      return Fail(WrongOwner), c;
    }
    var items := c.Items();
    var index := Position(items, mint);
    if index.None? {
      return Fail(InvalidAccountData), c;
    }
    var i := index.value;
    var points := items[i].points;

    var lamports := Debit(c.lamports, c.authority, points, ArithmeticOverflow);
    if lamports.Failure? {
      return Fail(lamports.error), c;
    }
    lamports := Credit(lamports.value, signer, points);
    if lamports.Failure? {
      return Fail(lamports.error), c;
    }
    items := items[i := items[i].(points := 0)];

    next := c.(collection := Some(c.collection.value.(items := items)), lamports := lamports.value);
    r := Pass;
  }

  /**
    A redemption is refused, with nothing changed, when the collection or the
    mint is missing, when the metadata names no owner, when the owner is not
    the signer, and when no item carries the mint; the first of these decides
    the error.
   */
  lemma RedeemRefusals(c: Chain, signer: Pubkey, mint: Pubkey)
    ensures c.collection.None? || mint !in c.mints ==> Redeem(c, signer, mint) == Failure(AccountNotInitialized)
    ensures c.collection.Some? && mint in c.mints ==>
              var owner := Lookup(c.mints[mint].fields, OwnerKey);
              && (owner.None? ==> Redeem(c, signer, mint) == Failure(InvalidAccountData))
              && (owner.Some? && owner.value != KeyString(signer) ==> Redeem(c, signer, mint) == Failure(WrongOwner))
              && (owner == Some(KeyString(signer)) && (forall j | 0 <= j < |c.Items()| :: c.Items()[j].mint != mint) ==>
                    Redeem(c, signer, mint) == Failure(InvalidAccountData))
  {
  }

  /**
    A redemption pays the first matching item's points: the collection
    account loses exactly them and the signer gains exactly them; that item's
    points become zero, every other item is unchanged, and the metadata, the
    token accounts and every other balance stay as they were.
   */
  lemma RedeemPays(c: Chain, signer: Pubkey, mint: Pubkey)
    requires signer != c.authority && Redeem(c, signer, mint).Success?
    ensures c.collection.Some? && Position(c.Items(), mint).Some?
    ensures var i := Position(c.Items(), mint).value;
            var points := c.Items()[i].points;
            var next := Redeem(c, signer, mint).value;
            && next.Items() == c.Items()[i := Item(mint, 0)]
            && Bal(next.lamports, c.authority) + points == Bal(c.lamports, c.authority)
            && Bal(next.lamports, signer) == Bal(c.lamports, signer) + points
            && (forall k | k != c.authority && k != signer :: Bal(next.lamports, k) == Bal(c.lamports, k))
            && next.collection.value.bump == c.collection.value.bump
            && next.mints == c.mints && next.tokenAccounts == c.tokenAccounts
            && next.authority == c.authority && next.space == c.space
  {
  }

  /** Paying an item leaves every item's mint in place and moves its points out of the reserve. */
  lemma PayoutKeepsValid(c: Chain, holder: map<Pubkey, Pubkey>, signer: Pubkey, i: nat)
    requires Valid(c, holder) && c.collection.Some? && i < |c.Items()| && signer != c.authority
    requires Payout(c, signer, i).Success?
    ensures Valid(Payout(c, signer, i).value, holder)
  {
    var items := c.Items();
    var next := Payout(c, signer, i).value;
    assert next.Items() == items[i := items[i].(points := 0)];
    SameMints(items, next.Items());
    SumPointsUpdate(items, i, items[i].(points := 0));
  }

  /** A redemption keeps the invariant, with every item's holder unchanged. */
  lemma RedeemKeepsValid(c: Chain, holder: map<Pubkey, Pubkey>, signer: Pubkey, mint: Pubkey)
    requires Valid(c, holder) && signer != c.authority && Redeem(c, signer, mint).Success?
    ensures Valid(Redeem(c, signer, mint).value, holder)
  {
    PayoutKeepsValid(c, holder, signer, Position(c.Items(), mint).value);
  }

  /**
    Under the invariant, a redemption goes through exactly when the collection
    and the mint exist, the signer's account holds the item's unit, and the
    signer's balance can take the item's points. The `owner` text check thus
    acts as a custody check, every mint has an item, and the reserve always
    covers the payout.
   */
  lemma RedeemAccepted(c: Chain, holder: map<Pubkey, Pubkey>, signer: Pubkey, mint: Pubkey)
    requires Valid(c, holder) && signer != c.authority
    ensures Redeem(c, signer, mint).Success? <==>
              && c.collection.Some? && mint in c.mints
              && signer in c.tokenAccounts[mint] && c.tokenAccounts[mint][signer].amount == 1
              && Position(c.Items(), mint).Some?
              && Bal(c.lamports, signer) + c.Items()[Position(c.Items(), mint).value].points <= U64_MAX
  {
    if c.collection.Some? && mint in c.mints {
      OwnerTextIsCustody(c, holder, mint, signer);
      var items := c.Items();
      MintSetIndex(items, mint);
      var i := Position(items, mint).value;
      PointsWithinSum(items, i);
    }
  }

  /** Paying an item out twice in a row: the second payout is of zero points and changes nothing. */
  lemma PayoutTwice(c: Chain, signer: Pubkey, i: nat)
    requires c.collection.Some? && i < |c.Items()| && Payout(c, signer, i).Success?
    ensures var next := Payout(c, signer, i).value;
            next.collection.Some? && |next.Items()| == |c.Items()| && Payout(next, signer, i) == Success(next)
  {
    var next := Payout(c, signer, i).value;
    var items := next.Items();
    assert items[i := items[i].(points := 0)] == items;
    assert next.collection.value.(items := items) == next.collection.value;
    assert next.lamports[c.authority := Bal(next.lamports, c.authority)] == next.lamports;
    assert next.lamports[signer := Bal(next.lamports, signer)] == next.lamports;
  }

  /** A second redemption right after the first pays nothing and changes nothing. */
  lemma RedeemTwice(c: Chain, signer: Pubkey, mint: Pubkey)
    requires signer != c.authority && Redeem(c, signer, mint).Success?
    ensures var next := Redeem(c, signer, mint).value;
            Redeem(next, signer, mint) == Success(next)
  {
    var i := Position(c.Items(), mint).value;
    var next := Payout(c, signer, i).value;
    PayoutTwice(c, signer, i);
    var items := next.Items();
    assert items == c.Items()[i := c.Items()[i].(points := 0)];
    assert Position(items, mint) == Some(i) by {
      var p := Position(items, mint);
      assert items[i].mint == mint;
    }
  }
}
