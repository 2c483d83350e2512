/**
  The text form of a public key (`Pubkey::to_string`): base-58 in the
  Bitcoin alphabet, one '1' for each leading zero byte. The program writes
  this text into an item's `owner` metadata field and compares the signer's
  text against it on redemption.
 */
module Base58 {
  import opened Primitives
  import opened Numerals

  /** The Bitcoin alphabet: digits and letters without '0', 'O', 'I' and 'l'. */
  function Base58Char(d: nat): char
    requires d < 58
  {
    if d < 9 then ('1' as int + d) as char
    else if d < 17 then ('A' as int + (d - 9)) as char
    else if d < 22 then ('J' as int + (d - 17)) as char
    else if d < 33 then ('P' as int + (d - 22)) as char
    else if d < 44 then ('a' as int + (d - 33)) as char
    else ('m' as int + (d - 44)) as char
  }

  /** The digit a character of the alphabet stands for; `None` outside it. */
  function Base58Value(c: char): (r: Option<nat>)
    ensures r.Some? ==> r.value < 58 && Base58Char(r.value) == c
  {
    if '1' <= c <= '9' then Some(c as int - '1' as int)
    else if 'A' <= c <= 'H' then Some(c as int - 'A' as int + 9)
    else if 'J' <= c <= 'N' then Some(c as int - 'J' as int + 17)
    else if 'P' <= c <= 'Z' then Some(c as int - 'P' as int + 22)
    else if 'a' <= c <= 'k' then Some(c as int - 'a' as int + 33)
    else if 'm' <= c <= 'z' then Some(c as int - 'm' as int + 44)
    else None
  }

  /** Every digit has exactly one character, so reading it back is exact. */
  lemma ValueOfChar(d: nat)
    requires d < 58
    ensures Base58Value(Base58Char(d)) == Some(d)
  {
  }

  /** The number of zero bytes before the first non-zero byte. */
  function LeadingZeros(k: seq<nat>): (z: nat)
    ensures z <= |k|
    ensures forall i | 0 <= i < z :: k[i] == 0
    ensures z < |k| ==> k[z] != 0
  {
    if k == [] || k[0] != 0 then 0 else 1 + LeadingZeros(k[1..])
  }

  /** The number of '1' characters before the first other character. */
  function LeadingOnes(s: string): (z: nat)
    ensures z <= |s|
  {
    if s == [] || s[0] != '1' then 0 else 1 + LeadingOnes(s[1..])
  }

  /** The characters of a numeral of base-58 digits. */
  function EncodeDigits(ds: seq<nat>): (s: string)
    requires DigitsBelow(ds, 58)
    ensures |s| == |ds|
    ensures forall i | 0 <= i < |s| :: Base58Value(s[i]).Some?
    decreases |ds|
  {
    if ds == [] then [] else EncodeDigits(ds[..|ds| - 1]) + [Base58Char(ds[|ds| - 1])]
  }

  /** Each character of the text is the character of the digit at that place. */
  lemma {:induction false} EncodeDigitsAt(ds: seq<nat>, i: nat)
    requires DigitsBelow(ds, 58) && i < |ds|
    ensures ds[i] < 58 && EncodeDigits(ds)[i] == Base58Char(ds[i])
    decreases |ds|
  {
    if i < |ds| - 1 {
      EncodeDigitsAt(ds[..|ds| - 1], i);
    }
  }

  /** The digits of a base-58 text; `None` when a character is outside the alphabet. */
  function DecodeChars(s: string): (r: Option<seq<nat>>)
    ensures r.Some? ==> |r.value| == |s| && DigitsBelow(r.value, 58)
    decreases |s|
  {
    if s == [] then Some([])
    else
      match DecodeChars(s[..|s| - 1])
      case None => None
      case Some(init) =>
        match Base58Value(s[|s| - 1])
        case None => None
        case Some(d) =>
          assert (init + [d])[..|init|] == init;
          Some(init + [d])
  }

  /** The base-58 digits of the bytes after the leading zeros. */
  function KeyDigits(k: Pubkey): (ds: seq<nat>)
    ensures Canonical(ds, 58)
  {
    var z := LeadingZeros(k);
    ToDigits(FromDigits(k[z..], 256), 58)
  }

  /** `Pubkey::to_string`. */
  function KeyString(k: Pubkey): (s: string)
    ensures forall i | 0 <= i < |s| :: Base58Value(s[i]).Some?
  {
    seq(LeadingZeros(k), _ => '1') + EncodeDigits(KeyDigits(k))
  }

  /**
    The inverse of `KeyString`: count the leading '1's as zero bytes, read the
    rest as a base-58 number and write it out in bytes.
   */
  function DecodeKey(s: string): Option<Pubkey>
  {
    var z := LeadingOnes(s);
    match DecodeChars(s[z..])
    case None => None
    case Some(ds) =>
      var digits := ToDigits(FromDigits(ds, 58), 256);
      DigitsBelowEach(digits, 256);
      var bytes := seq(z, _ => 0) + digits;
      if |bytes| == 32 then Some(bytes) else None
  }

  lemma {:induction false} LeadingOnesPrefix(z: nat, t: string)
    requires t == [] || t[0] != '1'
    ensures LeadingOnes(seq(z, _ => '1') + t) == z
  {
    if z > 0 {
      var s := seq(z, _ => '1') + t;
      assert s[1..] == seq(z - 1, _ => '1') + t;
      LeadingOnesPrefix(z - 1, t);
    }
  }

  /** Reading back the characters of a numeral gives its digits. */
  lemma {:induction false} DecodeEncodeDigits(ds: seq<nat>)
    requires DigitsBelow(ds, 58)
    ensures DecodeChars(EncodeDigits(ds)) == Some(ds)
    decreases |ds|
  {
    if ds != [] {
      var init, d := ds[..|ds| - 1], ds[|ds| - 1];
      var s := EncodeDigits(ds);
      assert s[..|s| - 1] == EncodeDigits(init);
      DecodeEncodeDigits(init);
      ValueOfChar(d);
      assert init + [d] == ds;
    }
  }

  /** The leading '1's of the text count exactly the leading zero bytes. */
  lemma KeyStringOnes(k: Pubkey)
    ensures LeadingOnes(KeyString(k)) == LeadingZeros(k)
    ensures KeyString(k)[LeadingZeros(k)..] == EncodeDigits(KeyDigits(k))
  {
    var z := LeadingZeros(k);
    var ds := KeyDigits(k);
    var t := EncodeDigits(ds);
    assert KeyString(k) == seq(z, _ => '1') + t;
    if ds != [] {
      EncodeDigitsAt(ds, 0);
      ValueOfChar(ds[0]);
      ValueOfChar(0);
    }
    LeadingOnesPrefix(z, t);
  }

  /** The bytes after the leading zeros are recovered from their base-58 digits. */
  lemma KeyBytesFromDigits(k: Pubkey)
    ensures seq(LeadingZeros(k), _ => 0) + ToDigits(FromDigits(KeyDigits(k), 58), 256) == k
  {
    var z := LeadingZeros(k);
    var rest: seq<nat> := k[z..];
    FromToDigits(FromDigits(rest, 256), 58);
    assert rest != [] ==> rest[0] == k[z];
    assert Canonical(rest, 256) by {
      DigitsBelowEach(rest, 256);
    }
    ToFromDigits(rest, 256);
    assert seq(z, _ => 0) + rest == k;
  }

  /** Reading back the text of a key gives the key. */
  lemma DecodeKeyString(k: Pubkey)
    ensures DecodeKey(KeyString(k)) == Some(k)
  {
    KeyStringOnes(k);
    DecodeEncodeDigits(KeyDigits(k));
    KeyBytesFromDigits(k);
  }

  /** Distinct keys have distinct texts, so comparing texts compares keys. */
  lemma KeyStringInjective(a: Pubkey, b: Pubkey)
    ensures KeyString(a) == KeyString(b) <==> a == b
  {
    DecodeKeyString(a);
    DecodeKeyString(b);
  }
}
