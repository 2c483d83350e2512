# Overbid: a verified model of the on-chain program

Overbid is a Solana program, written with Anchor, for a shared-pool overbid
auction. A single collection account lists items. Each item is a Token-2022
mint with exactly one unit, and the mint's metadata carries two extra
fields: `overbid`, the current price as decimal text, and `owner`, the
current holder's key as base58 text.

- **initialize** creates the collection account.
- **mint** issues a new item. The payer holds its unit, in a frozen token
  account, and the item starts with price 0.
- **bid** buys an item from its holder.
  - The bid must be at least 10,000,000 lamports above the price.
  - The seller receives the old price plus the remainder of a division.
  - The rest of the bid is divided equally into points over *all* items.
  - The collection account keeps the lamports that back those points.
  - The unit moves to the bidder, and both token accounts are frozen again.
  - The metadata records the bid as the new price and the bidder as the owner.
- **redeem** lets the key named in an item's `owner` field collect the
  item's points in lamports, which resets the points to zero.

The program's account state (anchor/programs/overbid/src/state.rs:3-13) is
the record `Collection` (a list of items and a bump) and the record `Items`
(a mint and its points). They are the datatypes `State.Collection` and
`State.Item`; `State.CollectionSize` gives the account size the program
allocates for a given item count.

Two predicates of the bid stand for code that has no contract of its own.
`BidInstruction.Loaded` is the account constraints of `bid`
(anchor/programs/overbid/src/instructions/bid.rs:20-50): the collection,
the mint and the seller's token account exist. `BidInstruction.PriceOf`
reads the item's `overbid` field
(anchor/programs/overbid/src/instructions/bid.rs:59-66); the row of
`ReadOverbid` states what it gives.

The model is a set of Dafny modules, one per concern:

| module | file | models |
|---|---|---|
| `Primitives` | `primitives.dfy` | keys, `u64`/`u8` bounds, errors with their codes, `Result`/`Outcome`, lamport balances |
| `Numerals` | `numerals.dfy` | digit sequences in any base (shared by the decimal and base58 codecs) |
| `Decimal` | `decimal.dfy` | Rust's `u64::to_string` and `str::parse::<u64>` |
| `Base58` | `base58.dfy` | `Pubkey::to_string` (base58 text of a 32-byte key) and its decoding |
| `Metadata` | `metadata.dfy` | the metadata's extra fields: find the first pair with a key, and `update_field` |
| `Token` | `token.dfy` | the effects of the Token-2022 and system program calls the program makes |
| `State` | `state.dfy` | `Collection` and `Items`, the chain state the program touches, and the invariant |
| `InitializeInstruction` | `initialize.dfy` | `process_initialize` |
| `MintInstruction` | `mint.dfy` | `process_mint` |
| `BidInstruction` | `bid.dfy` | `process_bid` and its error enum |
| `RedeemInstruction` | `redeem.dfy` | `process_redeem` |

Each instruction has two parts:

- A pure function (`Initialize`, `Mint`, `Bid`, `Redeem`) gives the new chain, or the
  error that aborts the instruction.
- A method (`ProcessInitialize`, `ProcessMint`, `ProcessBid`,
  `ProcessRedeem`) runs the same steps in the code's order.

The method is proved to yield exactly the function's result, through
`State.Applied`. A failed instruction leaves the chain as it was, because
the runtime discards every change of a failed instruction. The points loop
of `bid` is the method `CreditAll`, a `while` loop proved against the
function `Credited`.

The invariant `State.Valid(c, holder)` relates the chain to a proof-only
map from each mint to the key holding its unit. It has three parts:

- **Registry**: the program's mints are exactly the registered items, each
  registered once, and the collection account is large enough for its items.
- **Reserve**: the collection account holds at least the sum of all points.
- **Custody**: each mint's single unit sits in its holder's frozen account,
  and the `owner` text is the holder's key.

Every instruction keeps the invariant. On that basis:

- a bid never hits its division by zero;
- a bid never overflows an item's points while the collection's balance can
  take the shares;
- a redemption is always covered by the reserve;
- the `owner` text check of `redeem` is exactly a custody check.

Three points where the code says more, or other, than its own words:

- The message of `BidTooLow`
  (anchor/programs/overbid/src/instructions/bid.rs:212) says only that a
  bid must be higher than the current value. The check at
  anchor/programs/overbid/src/instructions/bid.rs:69-75 requires
  `amount >= overbid + 10_000_000`, and the model follows the check.
- The accounts of `redeem`
  (anchor/programs/overbid/src/instructions/redeem.rs:10-22) include no
  token account. The instruction compares the `owner` metadata text with
  the signer's key text
  (anchor/programs/overbid/src/instructions/redeem.rs:31-40) and never
  looks at who holds the unit. `RedeemAccepted` proves that, under the
  invariant, the text check is exactly a custody check.
- `mint` freezes the first holder's token account right after minting the
  unit (anchor/programs/overbid/src/instructions/mint.rs:149-159), so every
  holder's account is frozen from the start, not only after a sale.

Arithmetic follows the code:

- The unchecked `u64` additions `overbid_value + minimum_overbid` and
  `item.points += points_per_item` panic on overflow. This assumes the
  standard Anchor release profile (`overflow-checks = true`); the
  workspace's build profile is not part of this model. The panics are
  modelled as the failure `OverflowPanic`.
- `diff / item_count` with no items is the failure `DivideByZeroPanic`.
- The lamport helpers report failures as errors: `sub_lamports`,
  `add_lamports` and the system transfer.

## Model

| member | source | states |
|---|---|---|
| Primitives.CustomCode | anchor/programs/overbid/src/instructions/bid.rs:206-216 | exactly the four program errors (`OverbidError`) have a custom code, numbered from 6000 in declaration order: `MissingOverbidField` 6000, `InvalidOverbidValue` 6001, `BidTooLow` 6002, `WrongOwner` 6003 |
| Metadata.LookupFirst | anchor/programs/overbid/src/instructions/bid.rs:59-64 | finding a key gives the value of the first pair with that key, and nothing exactly when no pair has it |
| Metadata.Lookup | anchor/programs/overbid/src/instructions/redeem.rs:31-36 | a found value belongs to a pair with that key |
| Metadata.SetField | anchor/programs/overbid/src/instructions/bid.rs:78-90 | after `update_field` the list holds the pair, and it grew by at most one |
| Metadata.SetFieldLookup | anchor/programs/overbid/src/instructions/bid.rs:78-90 | after `update_field` the key reads as the new value, and every other key reads as before |
| Metadata.SetFieldLength | anchor/programs/overbid/src/instructions/bid.rs:78-90 | `update_field` adds a pair only when the key was absent, otherwise it keeps the length; every pair with another key stays at its position |
| Metadata.SetFieldTwice | anchor/programs/overbid/src/instructions/bid.rs:78-104 | writing a key twice leaves what writing only the second value leaves |
| Decimal.ParseU64 | anchor/programs/overbid/src/instructions/bid.rs:65 | a text is accepted exactly when it is an optional `+` followed by at least one digit and the value of those digits fits in 64 bits, and the result is that value |
| Decimal.U64ToString | anchor/programs/overbid/src/instructions/bid.rs:89 | `u64::to_string` gives a non-empty string of decimal digits |
| Decimal.ParseToString | anchor/programs/overbid/src/instructions/bid.rs:89 | the decimal text a bid writes parses back to the same amount |
| Decimal.ToStringParse | anchor/programs/overbid/src/instructions/bid.rs:65 | a parsed text without a sign or leading zero is exactly the text of its value |
| Decimal.U64ToStringDigits | anchor/programs/overbid/src/instructions/bid.rs:89 | the text of a positive number is its base-10 digits, most significant first |
| Decimal.U64ToStringShape | anchor/programs/overbid/src/instructions/mint.rs:118 | the text is non-empty digits, it starts with `0` only for 0, and the text of 0 is `"0"` |
| Decimal.ParseLeadingZero | anchor/programs/overbid/src/instructions/bid.rs:65 | leading zeros do not change the parsed price |
| Decimal.ParsePlusSign | anchor/programs/overbid/src/instructions/bid.rs:65 | one leading `+` is accepted and ignored |
| Decimal.ParseRejectsMinus | anchor/programs/overbid/src/instructions/bid.rs:65 | a text starting with `-` never parses as a price |
| Base58.KeyStringOnes | anchor/programs/overbid/src/instructions/bid.rs:103 | a key's text starts with one `1` per leading zero byte, followed by the base58 digits of the rest |
| Base58.KeyString | anchor/programs/overbid/src/instructions/bid.rs:103 | a key's text uses only base58 alphabet characters |
| Base58.DecodeKeyString | anchor/programs/overbid/src/instructions/bid.rs:103 | decoding a key's text gives back the key |
| Base58.KeyStringInjective | anchor/programs/overbid/src/instructions/redeem.rs:38-40 | two keys have the same text exactly when they are the same key, so the `owner` comparison compares keys |
| Token.TransferUnits | anchor/programs/overbid/src/instructions/bid.rs:132-145 | `transfer_checked` checks in order: a frozen source (`TokenAccountFrozen`), a short source (`TokenInsufficientFunds`); a transfer to the same account then changes nothing; otherwise a frozen destination (`TokenAccountFrozen`) and an overflowing destination (`TokenOverflow`). It succeeds exactly when none of these applies, and then the units move and nothing else changes |
| Token.Thaw | anchor/programs/overbid/src/instructions/bid.rs:106-130 | thawing succeeds exactly on a frozen account, otherwise fails with `TokenInvalidState`; the result is unfrozen with the same amount |
| Token.Freeze | anchor/programs/overbid/src/instructions/bid.rs:179-201 | freezing succeeds exactly on an unfrozen account, otherwise fails with `TokenInvalidState`; the result is frozen with the same amount |
| Token.Credit | anchor/programs/overbid/src/instructions/redeem.rs:55 | `add_lamports` adds to exactly one balance and fails exactly on overflow |
| Token.Debit | anchor/programs/overbid/src/instructions/redeem.rs:54 | `sub_lamports` takes from exactly one balance and fails exactly when it is short |
| Token.TransferLamports | anchor/programs/overbid/src/instructions/bid.rs:157-166 | a system transfer goes through exactly when the sender holds the amount and the receiver's balance fits in 64 bits; the lamports move and are neither created nor lost |
| State.Genesis | anchor/programs/overbid/src/state.rs:3-7 | before any collection exists, the invariant holds with no items and no mints |
| State.CollectionSize | anchor/programs/overbid/src/instructions/mint.rs:25 | the account size is at least 13 bytes and grows by 32 + 8 bytes per item |
| State.AddCustody | anchor/programs/overbid/src/instructions/mint.rs:135-159 | a new mint whose single unit sits in the payer's frozen account, with the payer as `owner`, keeps custody intact |
| State.MoveCustody | anchor/programs/overbid/src/instructions/bid.rs:179-201 | handing the unit to the buyer (the seller's account emptied, both frozen) together with the `owner` text keeps custody intact |
| State.SumPointsAppend | anchor/programs/overbid/src/instructions/mint.rs:161-164 | pushing an item adds its points to the total |
| State.SumPointsUpdate | anchor/programs/overbid/src/instructions/redeem.rs:57 | replacing one item changes the total by exactly the difference of their points |
| State.PointsWithinSum | anchor/programs/overbid/src/instructions/redeem.rs:51 | any one item's points are at most the total |
| State.MintSetIndex | anchor/programs/overbid/src/instructions/redeem.rs:42-48 | a mint is registered exactly when some item carries it |
| State.AppendItem | anchor/programs/overbid/src/instructions/mint.rs:161-164 | pushing an item with a new mint keeps every mint registered once and adds that mint |
| State.SameMints | anchor/programs/overbid/src/state.rs:9-13 | changing only items' points keeps the registered mints and their distinctness |
| State.OwnerTextIsCustody | anchor/programs/overbid/src/instructions/redeem.rs:31-40 | under the invariant, the `owner` text equals a key's text exactly when that key's account holds the unit |
| InitializeInstruction.Initialize | anchor/programs/overbid/src/instructions/initialize.rs:9-26 | initialize succeeds exactly when no collection exists, and otherwise fails with `AccountAlreadyInUse`. It creates the collection with no items, the given bump and 8 + 4 + 32 + 8 bytes, enough for no items, and changes nothing else |
| InitializeInstruction.ProcessInitialize | anchor/programs/overbid/src/instructions/initialize.rs:20-26 | the step-by-step initialization yields exactly the outcome and chain of `Initialize`; a failure changes nothing |
| InitializeInstruction.InitializeKeepsValid | anchor/programs/overbid/src/instructions/initialize.rs:9-26 | initialization keeps the invariant |
| MintInstruction.InitialFields | anchor/programs/overbid/src/instructions/mint.rs:107-133 | a new item's metadata reads `overbid` = `"0"` and `owner` = the payer's key |
| MintInstruction.InitialFieldsByUpdates | anchor/programs/overbid/src/instructions/mint.rs:107-133 | those are the fields the two `update_field` calls leave in the empty list |
| MintInstruction.Mint | anchor/programs/overbid/src/instructions/mint.rs:20-165 | mint succeeds exactly when the collection exists and the mint is new; otherwise it fails with `AccountNotInitialized` or `AccountAlreadyInUse` respectively |
| MintInstruction.Registered | anchor/programs/overbid/src/instructions/mint.rs:21-29 | registering pushes one item with no points, and the account is resized to fit the new item count |
| MintInstruction.ProcessMint | anchor/programs/overbid/src/instructions/mint.rs:55-164 | the step-by-step mint yields exactly the outcome and chain of `Mint` |
| MintInstruction.MintEffect | anchor/programs/overbid/src/instructions/mint.rs:21-164 | mint fails exactly when the collection is missing or the mint exists. On success it appends `{mint, 0}` after the unchanged items, resizes to 8 + 4 + 40 n + 1 and keeps the bump. The name and symbol are "OPOS", the URI is as given, the supply is 1, `overbid` = "0" and `owner` = payer. One unit sits in the payer's frozen account, and balances are unchanged. |
| MintInstruction.RegisterKeepsValid | anchor/programs/overbid/src/instructions/mint.rs:135-164 | registering a mint with one unit held by the payer keeps the invariant |
| MintInstruction.MintKeepsValid | anchor/programs/overbid/src/instructions/mint.rs:55-164 | a mint keeps the invariant, with the payer as the new item's holder |
| BidInstruction.ReadOverbid | anchor/programs/overbid/src/instructions/bid.rs:59-66 | a missing `overbid` key gives `MissingOverbidField`; text that does not parse gives `InvalidOverbidValue`; otherwise the parsed price |
| BidInstruction.Repriced | anchor/programs/overbid/src/instructions/bid.rs:77-104 | after the two `update_field` calls, `overbid` reads as the bid's text and `owner` as the bidder's key; other keys keep their values |
| BidInstruction.PriceRoundTrip | anchor/programs/overbid/src/instructions/bid.rs:59-90 | the price a bid writes is read back as the bid by the next bid |
| BidInstruction.MoveUnit | anchor/programs/overbid/src/instructions/bid.rs:106-145 | the thaws and the transfer succeed exactly when the seller's account is frozen and holds a unit, the bidder is someone else, and the bidder's account can take one more unit; one unit moves, both accounts end thawed, and the others are unchanged; a self-bid fails with `TokenInvalidState` |
| BidInstruction.MoveUnitCustody | anchor/programs/overbid/src/instructions/bid.rs:106-201 | under sole custody the unit moves exactly when the seller is the holder and the bidder someone else, and after the freezes the accounts are the handed-over custody |
| BidInstruction.WithAccount | anchor/programs/overbid/src/instructions/bid.rs:39-46 | `init_if_needed` adds an empty unfrozen account for the bidder only when it has none |
| BidInstruction.Refrozen | anchor/programs/overbid/src/instructions/bid.rs:179-201 | the two `freeze_account` calls leave both accounts frozen with their amounts, and every other account unchanged |
| BidInstruction.Credited | anchor/programs/overbid/src/instructions/bid.rs:153-155 | every item, in the same order, gains exactly `p` points and keeps its mint |
| BidInstruction.CreditAll | anchor/programs/overbid/src/instructions/bid.rs:153-155 | the loop succeeds exactly when no item overflows, and then yields `Credited`; otherwise it panics with `OverflowPanic` |
| BidInstruction.SumCredited | anchor/programs/overbid/src/instructions/bid.rs:153-155 | crediting `p` to each of `n` items raises the total by `n * p` |
| BidInstruction.Share | anchor/programs/overbid/src/instructions/bid.rs:150 | an item's share never exceeds the excess |
| BidInstruction.Remainder | anchor/programs/overbid/src/instructions/bid.rs:151 | the remainder is less than the item count and at most the excess |
| BidInstruction.ShareRemainder | anchor/programs/overbid/src/instructions/bid.rs:147-151 | share and remainder are the floor quotient and the remainder of the excess by the item count, and n * share + remainder is the excess |
| BidInstruction.Checked | anchor/programs/overbid/src/instructions/bid.rs:52-75 | the checks before any change, in order: the loaded accounts exist, the price reads, the price plus 10,000,000 does not overflow, and the bid is at least that sum |
| BidInstruction.PaymentsMove | anchor/programs/overbid/src/instructions/bid.rs:157-177 | the two transfers go through exactly when the bidder holds their sum and neither receiver overflows; they move that sum from the bidder and leave every other balance alone |
| BidInstruction.Payments | anchor/programs/overbid/src/instructions/bid.rs:157-177 | the two transfers fail only with `InsufficientLamports` or `ArithmeticOverflow` |
| BidInstruction.Pay | anchor/programs/overbid/src/instructions/bid.rs:157-201 | paying fails only with a transfer error; on success every item is credited the share, and the address, size and set of mints are kept |
| BidInstruction.Settle | anchor/programs/overbid/src/instructions/bid.rs:147-177 | a settlement that succeeds had at least one item to divide by, and one that fails gives a division panic, an overflow panic or a transfer error |
| BidInstruction.Bid | anchor/programs/overbid/src/instructions/bid.rs:52-204 | a successful bid had loaded accounts, a bidder other than the seller, a readable price, and an amount at least the price plus 10,000,000 |
| BidInstruction.ProcessSettle | anchor/programs/overbid/src/instructions/bid.rs:147-201 | the division, the credit loop, the transfers and the freezes yield exactly the outcome and chain of `Settle` |
| BidInstruction.ProcessPay | anchor/programs/overbid/src/instructions/bid.rs:157-201 | the transfers and the freezes yield exactly the outcome and chain of `Pay` |
| BidInstruction.ProcessBid | anchor/programs/overbid/src/instructions/bid.rs:52-204 | the step-by-step bid yields exactly the outcome and chain of `Bid` |
| BidInstruction.BidRefusals | anchor/programs/overbid/src/instructions/bid.rs:52-145 | the bid fails with unchanged state, in this order: a missing account (`AccountNotInitialized`), an unreadable price (`MissingOverbidField` / `InvalidOverbidValue`), an overflowing minimum (`OverflowPanic`), a bid below price + 10,000,000 (`BidTooLow`), a self-bid (`TokenInvalidState`) |
| BidInstruction.BidStages | anchor/programs/overbid/src/instructions/bid.rs:52-204 | a successful bid passed its checks and moved the unit, and its result is the settlement of the repriced metadata and the moved accounts |
| BidInstruction.SettleEffect | anchor/programs/overbid/src/instructions/bid.rs:147-201 | after a settlement every item gained exactly floor(diff / n) points (same count, same mints). The bidder paid exactly `amount`, the collection received n * share, and the seller received price + remainder. No other balance changed. The metadata and token accounts are the new ones, and the bump and size are kept. |
| BidInstruction.BidEffect | anchor/programs/overbid/src/instructions/bid.rs:52-201 | after a successful bid, the price plus 10,000,000 is at most the bid, every item gained floor((amount - price) / n) points, the bidder paid exactly `amount`, the collection received n * share and the seller price + remainder, and no other balance changed; the seller's token account lost the unit and the bidder's gained it, both are frozen again, and the other token accounts are unchanged |
| BidInstruction.BidReprices | anchor/programs/overbid/src/instructions/bid.rs:59-104 | after a successful bid the old price plus 10,000,000 is at most the bid, the price now reads as the bid (so it strictly rises), and `owner` reads as the bidder |
| BidInstruction.ReserveCreditable | anchor/programs/overbid/src/instructions/bid.rs:153-155 | when the total points plus one share per item fit in 64 bits, no item's addition overflows |
| BidInstruction.SettleAccepted | anchor/programs/overbid/src/instructions/bid.rs:147-177 | under the invariant there is at least one item (no division by zero), and a settlement succeeds exactly when the bidder can pay and neither the collection's nor the seller's balance overflows |
| BidInstruction.CreditKeepsReserve | anchor/programs/overbid/src/instructions/bid.rs:153-166 | crediting every item while the collection receives one share per item keeps the reserve |
| BidInstruction.CreditKeepsRegistry | anchor/programs/overbid/src/instructions/bid.rs:153-155 | crediting points leaves the registry intact |
| BidInstruction.SettleKeepsValid | anchor/programs/overbid/src/instructions/bid.rs:147-201 | a settlement in which the unit and the `owner` text pass together to the bidder keeps the invariant |
| BidInstruction.BidKeepsValid | anchor/programs/overbid/src/instructions/bid.rs:52-204 | only the holder can sell, and a bid keeps the invariant with the bidder as the new holder |
| BidInstruction.BidAccepted | anchor/programs/overbid/src/instructions/bid.rs:52-204 | under the invariant a bid succeeds exactly when the collection and mint exist, the named seller holds the unit, the bidder is someone else, the price reads and the bid is at least price + 10,000,000, the bidder can pay, and neither the collection's nor the seller's balance overflows |
| RedeemInstruction.Position | anchor/programs/overbid/src/instructions/redeem.rs:42-48 | the index of the first item with the mint, and nothing exactly when no item has it |
| RedeemInstruction.Payout | anchor/programs/overbid/src/instructions/redeem.rs:51-57 | a payout fails only with `ArithmeticOverflow`; on success the item count, metadata and token accounts are kept and the paid item's points are 0 |
| RedeemInstruction.Redeem | anchor/programs/overbid/src/instructions/redeem.rs:24-62 | a redemption fails only with `AccountNotInitialized`, `InvalidAccountData`, `WrongOwner` or `ArithmeticOverflow`, and one that succeeds had the collection, the mint and an `owner` text equal to the signer's key text |
| RedeemInstruction.ProcessRedeem | anchor/programs/overbid/src/instructions/redeem.rs:24-62 | the step-by-step redemption yields exactly the outcome and chain of `Redeem` |
| RedeemInstruction.RedeemRefusals | anchor/programs/overbid/src/instructions/redeem.rs:24-48 | the redemption fails with unchanged state, in this order: missing accounts (`AccountNotInitialized`), no `owner` field (`InvalidAccountData`), `owner` not the signer (`WrongOwner`), no item with the mint (`InvalidAccountData`) |
| RedeemInstruction.RedeemPays | anchor/programs/overbid/src/instructions/redeem.rs:51-57 | the collection loses exactly the first matching item's points and the signer gains them. That item's points become 0 and every other item is unchanged. Metadata, token accounts, other balances, bump and size stay as they were. |
| RedeemInstruction.PayoutKeepsValid | anchor/programs/overbid/src/instructions/redeem.rs:51-57 | paying an item out keeps the invariant |
| RedeemInstruction.RedeemKeepsValid | anchor/programs/overbid/src/instructions/redeem.rs:24-62 | a redemption keeps the invariant, with every holder unchanged |
| RedeemInstruction.RedeemAccepted | anchor/programs/overbid/src/instructions/redeem.rs:31-57 | under the invariant, a redemption succeeds exactly when the collection and mint exist, the signer's account holds the unit, and the signer's balance can take the points; the reserve always covers the payout |
| RedeemInstruction.PayoutTwice | anchor/programs/overbid/src/instructions/redeem.rs:51-57 | paying the same item twice: the second payout is of zero points and changes nothing |
| RedeemInstruction.RedeemTwice | anchor/programs/overbid/src/instructions/redeem.rs:24-62 | a second redemption right after the first succeeds, pays nothing and leaves the chain as it was |

## Left out

- Update in place and aliasing. The chain is a value. Each instruction
  returns a new chain instead of mutating Anchor's account structs, so the
  model does not capture borrows, the order of writes within an account, or
  two account parameters naming the same account, except where the code's
  own checks rule such aliasing out.
- Rent. Account creation lamports (`init`, `init_if_needed`, `realloc`) are
  not modelled, nor is the metadata rent top-up of `mint`
  (anchor/programs/overbid/src/instructions/mint.rs:67-86). That top-up
  depends on runtime constants and the packed metadata length, and a
  shortfall there only makes `mint` fail. As a result, `mint` and
  `initialize` never fail for lack of lamports in the model.
- The runtime's rent-state check on every account's final balance. For
  example, a seller whose balance is 0 cannot receive a remainder smaller
  than the rent-exempt minimum, and a bidder cannot be left with a balance
  below it. Transaction fees are not modelled either. So the "exactly
  when" of `BidAccepted` and `RedeemAccepted` holds of the model only; on
  chain these checks can refuse more.
- Program-derived addresses and signer seeds. The collection's address is
  a parameter (`Chain.authority`).
- Checks made by the runtime and by Anchor's account constraints:
  - Signatures, account owners and discriminators are assumed to hold.
  - The facts that the collection's address can neither sign nor be a
    system account are stated as the preconditions `payer != c.authority`,
    `owner != c.authority` and `signer != c.authority`.
- Mints the program did not issue. `process_bid`
  (anchor/programs/overbid/src/instructions/bid.rs:52-204) never checks
  that the mint is one of the collection's items. A foreign Token-2022 mint
  would be accepted when the collection account is its freeze authority,
  its permanent delegate and its metadata update authority, and its
  metadata has an `overbid` field. Such a bid would credit every
  registered item with a share, paid for by a sale of an unregistered
  token. The model's `Loaded` requires `mint in c.mints`, so that case is
  outside the model, and the bid fails there with `AccountNotInitialized`.
  For a foreign mint, the source's `redeem` fails with `WrongOwner`
  (anchor/programs/overbid/src/instructions/redeem.rs:38-40) or
  `InvalidAccountData`
  (anchor/programs/overbid/src/instructions/redeem.rs:42-48), while the
  model's fails with `AccountNotInitialized`.
  Mints without the metadata extension are likewise not represented.
- Order of writes in a bid. The two `update_field` calls
  (anchor/programs/overbid/src/instructions/bid.rs:77-104) are applied when
  the chain is stored at the end of the bid, not before the thaws. They
  cannot fail and touch nothing the later steps read, so the outcome is
  the same.
- `msg!` logging and the `initialize` log line.
- Concurrency. The runtime applies each instruction atomically, one at a
  time, and every instruction is one step of the model.
- Token-2022 and the system program themselves. Only the effects the
  program relies on are modelled: thaw, freeze, `transfer_checked`,
  `mint_to`, metadata init and update, and lamport transfers, debits and
  credits.
- Compute budget and account size limits. With enough items, the credit
  loop of `bid` exceeds the compute budget, and the `realloc` of `mint`
  reaches the limit on account growth per instruction or the maximum
  account size. The real instruction then fails, while the model's
  succeeds: the model has no step or size limit.
- BidInstruction.Share: the function's own contract states only
  `share <= diff`. The exact floor quotient and the identity with the
  remainder are in `ShareRemainder`, which states them separately so
  callers pay for the nonlinear arithmetic only where it is needed.
- BidInstruction.Remainder: the function's own contract states only
  `remainder < n` and `remainder <= diff`. That it is exactly `diff % n`,
  and that `n * share + remainder == diff`, is stated in `ShareRemainder`,
  for the same reason as for `Share`.
