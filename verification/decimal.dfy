/**
  The decimal text of a `u64`, as Rust's `u64::to_string` writes it and
  `str::parse::<u64>` reads it. The program stores the current price of an
  item in its metadata as this text.
 */
module Decimal {
  import opened Primitives
  import opened Numerals

  predicate IsDigit(c: char)
  {
    '0' <= c <= '9'
  }

  /** Every character is a decimal digit. */
  predicate AllDigits(s: string)
    decreases |s|
  {
    s == [] || (AllDigits(s[..|s| - 1]) && IsDigit(s[|s| - 1]))
  }

  /** The recursive definition says the same as "every character is a digit". */
  lemma {:induction false} AllDigitsEach(s: string)
    ensures AllDigits(s) <==> forall i | 0 <= i < |s| :: IsDigit(s[i])
    decreases |s|
  {
    if s != [] {
      var init := s[..|s| - 1];
      AllDigitsEach(init);
      assert forall i | 0 <= i < |init| :: init[i] == s[i];
    }
  }

  function DigitChar(d: nat): (c: char)
    requires d < 10
    ensures IsDigit(c)
  {
    ('0' as int + d) as char
  }

  /** The digit values of a string of decimal digits. */
  function DigitValues(s: string): (ds: seq<nat>)
    requires AllDigits(s)
    ensures |ds| == |s| && DigitsBelow(ds, 10)
    decreases |s|
  {
    if s == [] then [] else DigitValues(s[..|s| - 1]) + [s[|s| - 1] as int - '0' as int]
  }

  /** The characters of a numeral of decimal digits. */
  function DigitChars(ds: seq<nat>): (s: string)
    requires DigitsBelow(ds, 10)
    ensures |s| == |ds| && AllDigits(s)
    ensures DigitValues(s) == ds
    decreases |ds|
  {
    if ds == [] then []
    else
      var s := DigitChars(ds[..|ds| - 1]) + [DigitChar(ds[|ds| - 1])];
      assert s[..|s| - 1] == DigitChars(ds[..|ds| - 1]);
      assert ds[..|ds| - 1] + [ds[|ds| - 1]] == ds;
      s
  }

  /** Reading a digit string's values and writing them back gives the string. */
  lemma {:induction false} CharsOfValues(s: string)
    requires AllDigits(s)
    ensures DigitChars(DigitValues(s)) == s
    decreases |s|
  {
    if s != [] {
      var init := s[..|s| - 1];
      var ds := DigitValues(s);
      assert ds[..|ds| - 1] == DigitValues(init);
      CharsOfValues(init);
      assert DigitChar(ds[|ds| - 1]) == s[|s| - 1];
      assert DigitChars(ds) == init + [s[|s| - 1]];
    }
  }

  /**
    `u64::to_string`: the shortest decimal numeral, "0" for zero, the most
    significant digit first.
   */
  function U64ToString(n: U64): (s: string)
    ensures |s| >= 1 && AllDigits(s)
    decreases n
  {
    if n < 10 then [DigitChar(n)] else U64ToString(n / 10) + [DigitChar(n % 10)]
  }

  /** A positive value is written as the characters of its canonical numeral. */
  lemma {:induction false} U64ToStringDigits(n: U64)
    requires n > 0
    ensures U64ToString(n) == DigitChars(ToDigits(n, 10))
    decreases n
  {
    var ds := ToDigits(n, 10);
    assert ds == ToDigits(n / 10, 10) + [n % 10];
    assert ds[..|ds| - 1] == ToDigits(n / 10, 10);
    if n >= 10 {
      U64ToStringDigits(n / 10);
    }
  }

  /** The text is a non-empty string of digits without a leading zero, "0" alone for zero. */
  lemma U64ToStringShape(n: U64)
    ensures |U64ToString(n)| >= 1 && AllDigits(U64ToString(n))
    ensures U64ToString(n)[0] == '0' <==> n == 0
    ensures n == 0 ==> U64ToString(n) == "0"
  {
    if n > 0 {
      var ds := ToDigits(n, 10);
      U64ToStringDigits(n);
      DigitCharsAt(ds, 0);
    }
  }

  /**
    `str::parse::<u64>`: an optional leading '+', then at least one decimal
    digit (leading zeros allowed), and a value that fits in 64 bits. Anything
    else (the empty string, a lone '+', a '-', any other character, an
    overflowing value) is an error.
   */
  function ParseU64(s: string): (r: Option<U64>)
    ensures r.Some? <==> |s| >= 1 && var body := if s[0] == '+' then s[1..] else s;
                                     body != [] && AllDigits(body) && FromDigits(DigitValues(body), 10) <= U64_MAX
    ensures r.Some? ==> var body := if s[0] == '+' then s[1..] else s;
                        r.value == FromDigits(DigitValues(body), 10)
  {
    if |s| == 0 then None
    else
      var body := if s[0] == '+' then s[1..] else s;
      if |body| == 0 || !AllDigits(body) then None
      else
        var v := FromDigits(DigitValues(body), 10);
        if v <= U64_MAX then Some(v) else None
  }

  /** An unsigned digit string whose value fits in 64 bits parses as that value. */
  lemma ParseDigits(s: string)
    requires s != [] && AllDigits(s) && s[0] != '+' && FromDigits(DigitValues(s), 10) <= U64_MAX
    ensures ParseU64(s) == Some(FromDigits(DigitValues(s), 10))
  {
  }

  /** What `to_string` writes, `parse` reads back: the stored price round-trips. */
  lemma ParseToString(n: U64)
    ensures ParseU64(U64ToString(n)) == Some(n)
  {
    var s := U64ToString(n);
    if n == 0 {
      assert s == [DigitChar(0)] && s[..0] == [];
      assert DigitValues(s) == [0];
      assert FromDigits([0], 10) == FromDigits([], 10) * 10 + 0;
    } else {
      var ds := ToDigits(n, 10);
      U64ToStringDigits(n);
      DigitCharsAt(ds, 0);
      FromToDigits(n, 10);
      assert DigitValues(s) == ds;
    }
    ParseDigits(s);
  }

  /**
    A digit string without a sign or leading zeros is exactly what `to_string`
    writes for the value `parse` reads from it.
   */
  lemma ToStringParse(s: string)
    requires ParseU64(s).Some?
    requires s[0] != '+' && (|s| > 1 ==> s[0] != '0')
    ensures U64ToString(ParseU64(s).value) == s
  {
    var ds := DigitValues(s);
    if s == "0" {
      assert ds == [0];
      assert FromDigits(ds, 10) == FromDigits([], 10) * 10 + 0;
    } else {
      assert ds[0] != 0 by { DigitValuesAt(s, 0); }
      CanonicalPositive(ds, 10);
      ToFromDigits(ds, 10);
      CharsOfValues(s);
      U64ToStringDigits(ParseU64(s).value);
    }
  }

  /** Reading one more leading digit puts its value in front. */
  lemma {:induction false} DigitValuesCons(c: char, s: string)
    requires IsDigit(c) && AllDigits(s)
    ensures AllDigits([c] + s)
    ensures DigitValues([c] + s) == [c as int - '0' as int] + DigitValues(s)
    decreases |s|
  {
    if s != [] {
      var init := s[..|s| - 1];
      assert ([c] + s)[..|s|] == [c] + init;
      DigitValuesCons(c, init);
    }
  }

  /** `parse` accepts leading zeros: a '0' in front of a numeral does not change its value. */
  lemma ParseLeadingZero(s: string)
    requires s != [] && AllDigits(s)
    ensures ParseU64(['0'] + s) == ParseU64(s)
  {
    var t := ['0'] + s;
    assert s[0] != '+' by { AllDigitsEach(s); }
    DigitValuesCons('0', s);
    assert FromDigits(DigitValues(t), 10) == FromDigits(DigitValues(s), 10) by {
      FromDigitsLeadingZero(DigitValues(s), 10);
    }
  }

  /** `parse` accepts a leading '+' sign, which does not change the value. */
  lemma ParsePlusSign(s: string)
    requires s == [] || s[0] != '+'
    ensures ParseU64(['+'] + s) == ParseU64(s)
  {
    assert (['+'] + s)[1..] == s;
  }

  /** `parse` rejects a '-' sign, whatever follows it. */
  lemma ParseRejectsMinus(s: string)
    ensures ParseU64(['-'] + s) == None
  {
    var t := ['-'] + s;
    assert !AllDigits(t) by {
      AllDigitsEach(t);
      assert !IsDigit(t[0]);
    }
  }

  /** The value of one digit of a digit string. */
  lemma {:induction false} DigitValuesAt(s: string, i: nat)
    requires AllDigits(s) && i < |s|
    ensures DigitValues(s)[i] == s[i] as int - '0' as int
    decreases |s|
  {
    if i < |s| - 1 {
      DigitValuesAt(s[..|s| - 1], i);
    }
  }

  /** The character of one digit of a numeral. */
  lemma {:induction false} DigitCharsAt(ds: seq<nat>, i: nat)
    requires DigitsBelow(ds, 10) && i < |ds|
    ensures ds[i] < 10 && DigitChars(ds)[i] == DigitChar(ds[i])
    decreases |ds|
  {
    if i < |ds| - 1 {
      DigitCharsAt(ds[..|ds| - 1], i);
    }
  }
}
