/**
  Machine integers, public keys and the error values shared by the four
  instructions of the overbid program.
 */
module Primitives {

  /** Largest value of a Rust `u64`. */
  const U64_MAX: int := 0xFFFF_FFFF_FFFF_FFFF

  type U64 = x: int | 0 <= x <= U64_MAX
  type U8 = x: int | 0 <= x < 256

  /** A Solana public key: 32 bytes. */
  type Pubkey = k: seq<U8> | |k| == 32 witness seq(32, _ => 0)

  datatype Option<+T> = None | Some(value: T)

  /**
    Every way an instruction can abort. The first four are the program's own
    `OverbidError` codes; the others are raised by the account checks of the
    framework, by the token and system programs, or by a Rust overflow panic.
   */
  datatype Error =
    | MissingOverbidField     // OverbidError, code 6000
    | InvalidOverbidValue     // OverbidError, code 6001
    | BidTooLow               // OverbidError, code 6002
    | WrongOwner              // OverbidError, code 6003
    | InvalidAccountData      // ProgramError::InvalidAccountData
    | AccountNotInitialized   // an account the instruction loads does not exist
    | AccountAlreadyInUse     // an `init` account already exists
    | TokenInvalidState       // thaw of an unfrozen / freeze of a frozen token account
    | TokenAccountFrozen      // token transfer from or to a frozen account
    | TokenInsufficientFunds  // token transfer from an account holding too little
    | TokenOverflow           // token amount would exceed u64
    | InsufficientLamports    // system transfer from an account holding too few lamports
    | ArithmeticOverflow      // checked lamport arithmetic failed
    | OverflowPanic           // an unchecked `+` overflowed (overflow checks abort the program)
    | DivideByZeroPanic       // an integer division by zero (aborts the program)

  datatype Result<+T> = Success(value: T) | Failure(error: Error)

  /** The result of an instruction: it either applies, or aborts with an error. */
  datatype Outcome = Pass | Fail(error: Error)

  /** The custom error code the runtime reports for an `OverbidError`. */
  function CustomCode(e: Error): (r: Option<nat>)
    ensures r.Some? <==> e in {MissingOverbidField, InvalidOverbidValue, BidTooLow, WrongOwner}
    // Anchor numbers the variants of an `#[error_code]` enum from 6000, in declaration order
    ensures r == Some(6000) <==> e == MissingOverbidField
    ensures r == Some(6001) <==> e == InvalidOverbidValue
    ensures r == Some(6002) <==> e == BidTooLow
    ensures r == Some(6003) <==> e == WrongOwner
  {
    match e
    case MissingOverbidField => Some(6000)
    case InvalidOverbidValue => Some(6001)
    case BidTooLow => Some(6002)
    case WrongOwner => Some(6003)
    case _ => None
  }

  /** Balance of `k` in a lamport map; an absent key holds nothing. */
  function Bal(lamports: map<Pubkey, U64>, k: Pubkey): U64
  {
    if k in lamports then lamports[k] else 0
  }
}
