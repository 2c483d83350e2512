/**
  Positional numerals, most significant digit first. Both the decimal
  rendering of a `u64` and the base-58 rendering of a public key are this
  representation with a character alphabet on top.
 */
module Numerals {

  /** Every digit is below `base`. */
  predicate DigitsBelow(ds: seq<nat>, base: nat)
    decreases |ds|
  {
    ds == [] || (DigitsBelow(ds[..|ds| - 1], base) && ds[|ds| - 1] < base)
  }

  /** The recursive definition says the same as "every digit is below `base`". */
  lemma {:induction false} DigitsBelowEach(ds: seq<nat>, base: nat)
    ensures DigitsBelow(ds, base) <==> forall i | 0 <= i < |ds| :: ds[i] < base
    decreases |ds|
  {
    if ds != [] {
      var init := ds[..|ds| - 1];
      DigitsBelowEach(init, base);
      assert forall i | 0 <= i < |init| :: init[i] == ds[i];
    }
  }

  /** The shortest numeral: no leading zero digit (zero itself is the empty numeral). */
  predicate Canonical(ds: seq<nat>, base: nat)
  {
    DigitsBelow(ds, base) && (ds == [] || ds[0] != 0)
  }

  /** The value of a big-endian numeral. */
  function FromDigits(ds: seq<nat>, base: nat): nat
    decreases |ds|
  {
    if ds == [] then 0 else FromDigits(ds[..|ds| - 1], base) * base + ds[|ds| - 1]
  }

  /** The canonical numeral of `n`. */
  function ToDigits(n: nat, base: nat): (ds: seq<nat>)
    requires base >= 2
    ensures Canonical(ds, base)
    ensures n == 0 <==> ds == []
    decreases n
  {
    if n == 0 then [] else
      var prefix := ToDigits(n / base, base);
      assert n / base == 0 ==> prefix == [];
      prefix + [n % base]
  }

  /** Quotient and remainder are determined by the division identity. */
  lemma DivModUnique(n: nat, base: nat, q: nat, d: nat)
    requires base >= 1 && d < base && n == q * base + d
    ensures n / base == q && n % base == d
  {
    var q' := n / base;
    if q' > q {
      MulMonotone(q + 1, q', base);
    } else if q' < q {
      MulMonotone(q' + 1, q, base);
    }
  }

  lemma MulMonotone(a: nat, b: nat, c: nat)
    requires a <= b
    ensures a * c <= b * c
  {
  }

  /** Reading back the numeral `ToDigits` wrote gives the number. */
  lemma {:induction false} FromToDigits(n: nat, base: nat)
    requires base >= 2
    ensures FromDigits(ToDigits(n, base), base) == n
    decreases n
  {
    if n != 0 {
      var q := n / base;
      DivLess(n, base);
      FromToDigits(q, base);
      FromDigitsStep(n, base);
      DivIdentity(n, base);
    }
  }

  lemma DivIdentity(n: nat, base: nat)
    requires base >= 1
    ensures (n / base) * base + n % base == n
  {
  }

  lemma DivLess(n: nat, base: nat)
    requires n > 0 && base >= 2
    ensures n / base < n
  {
  }

  /** Appending a digit multiplies the value by the base and adds the digit. */
  lemma FromDigitsSnoc(init: seq<nat>, d: nat, base: nat)
    ensures FromDigits(init + [d], base) == FromDigits(init, base) * base + d
  {
    assert (init + [d])[..|init + [d]| - 1] == init;
  }

  /** Dropping the last digit of a numeral divides its value by the base. */
  lemma FromDigitsStep(n: nat, base: nat)
    requires n > 0 && base >= 2
    ensures FromDigits(ToDigits(n, base), base)
         == FromDigits(ToDigits(n / base, base), base) * base + n % base
  {
    assert ToDigits(n, base) == ToDigits(n / base, base) + [n % base];
    FromDigitsSnoc(ToDigits(n / base, base), n % base, base);
  }

  lemma MulPositive(x: nat, base: nat)
    requires x > 0 && base > 0
    ensures x * base > 0
  {
  }

  /** A canonical non-empty numeral denotes a positive number. */
  lemma {:induction false} CanonicalPositive(ds: seq<nat>, base: nat)
    requires base >= 2 && Canonical(ds, base) && ds != []
    ensures FromDigits(ds, base) > 0
    decreases |ds|
  {
    var init := ds[..|ds| - 1];
    if init != [] {
      assert init[0] == ds[0];
      CanonicalPositive(init, base);
      MulPositive(FromDigits(init, base), base);
    }
  }

  /** Writing out the value of a canonical numeral gives the numeral back. */
  lemma {:induction false} ToFromDigits(ds: seq<nat>, base: nat)
    requires base >= 2 && Canonical(ds, base)
    ensures ToDigits(FromDigits(ds, base), base) == ds
    decreases |ds|
  {
    if ds != [] {
      var init, d := ds[..|ds| - 1], ds[|ds| - 1];
      var n := FromDigits(ds, base);
      CanonicalPositive(ds, base);
      DivModUnique(n, base, FromDigits(init, base), d);
      assert init != [] ==> init[0] == ds[0];
      ToFromDigits(init, base);
      assert ds == init + [d];
    }
  }

  /** A leading zero digit does not change a numeral's value. */
  lemma {:induction false} FromDigitsLeadingZero(ds: seq<nat>, base: nat)
    ensures FromDigits([0] + ds, base) == FromDigits(ds, base)
    decreases |ds|
  {
    if ds != [] {
      assert ([0] + ds)[..|ds|] == [0] + ds[..|ds| - 1];
      FromDigitsLeadingZero(ds[..|ds| - 1], base);
    }
  }
}
