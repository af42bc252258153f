/** Positional notation: the digits of a number, and the number of a list of digits. */
module DigitsSpec {
  import opened Arithmetic

  /** The digits of a value, most significant first, without leading zeros. */
  function Digits(value: nat, base: nat): (ds: seq<nat>)
    requires base >= 2
    ensures ds != []
    decreases value
  {
    if value < base then [value] else
      QuotientSmaller(value, base);
      Digits(value / base, base) + [value % base]
  }

  lemma QuotientSmaller(value: nat, base: nat)
    requires base >= 2 && value > 0
    ensures value / base < value
  {
    var q, r := value / base, value % base;
    assert value == q * base + r;
    MulMono(2, base, q);
    assert q * base == base * q;
  }

  function Decode(ds: seq<nat>, base: nat): nat {
    if ds == [] then 0 else Decode(ds[..|ds| - 1], base) * base + ds[|ds| - 1]
  }

  predicate Canonical(ds: seq<nat>, base: nat) {
    && (forall i :: 0 <= i < |ds| ==> ds[i] < base)
    && ds != [] && (|ds| > 1 ==> ds[0] != 0)
  }

  lemma DecodeSnoc(ds: seq<nat>, d: nat, base: nat)
    ensures Decode(ds + [d], base) == Decode(ds, base) * base + d
  {
    assert (ds + [d])[..|ds|] == ds;
  }

  /** Decoding the digits gives the value back, and they have no leading zero. */
  lemma {:induction false} DigitsDecode(value: nat, base: nat)
    requires base >= 2
    ensures Decode(Digits(value, base), base) == value && Canonical(Digits(value, base), base)
    ensures value > 0 ==> Digits(value, base)[0] != 0
    decreases value
  {
    if value < base {
      assert [value] == [] + [value];
      DecodeSnoc([], value, base);
    } else {
      QuotientSmaller(value, base);
      QuotientPositive(value, base);
      var q, d := value / base, value % base;
      assert value == q * base + d && d < base;
      DigitsDecode(q, base);
      DecodeSnoc(Digits(q, base), d, base);
      SnocCanonical(Digits(q, base), d, base);
    }
  }

  lemma SnocCanonical(ds: seq<nat>, d: nat, base: nat)
    requires Canonical(ds, base) && ds[0] != 0 && d < base
    ensures Canonical(ds + [d], base) && (ds + [d])[0] != 0
  {
  }

  lemma QuotientPositive(value: nat, base: nat)
    requires 0 < base <= value
    ensures value / base > 0
  {
    if value / base == 0 { DivModUnique(value, base, 0, value % base); }
  }

  /** A value below the `n`-th power of two has at most `n` digits in any base. */
  lemma {:induction false} DigitsShort(value: nat, base: nat, n: nat)
    requires base >= 2 && 0 < n && value < Pow2(n)
    ensures |Digits(value, base)| <= n
    decreases value
  {
    if value >= base {
      QuotientSmaller(value, base);
      QuotientHalf(value, base, Pow2(n - 1));
      DigitsShort(value / base, base, n - 1);
    }
  }

  lemma QuotientHalf(value: nat, base: nat, half: nat)
    requires base >= 2 && value < 2 * half
    ensures value / base < half
  {
    var q, r := value / base, value % base;
    assert value == q * base + r;
    MulMono(2, base, q);
    assert q * base == base * q;
  }

  /** There is only one canonical list of digits for a value. */
  lemma {:induction false} CanonicalUnique(ds: seq<nat>, base: nat)
    requires base >= 2 && Canonical(ds, base)
    ensures ds == Digits(Decode(ds, base), base)
    decreases |ds|
  {
    var front, d := ds[..|ds| - 1], ds[|ds| - 1];
    assert ds == front + [d];
    if front == [] {
      assert Decode(ds, base) == d;
    } else {
      CanonicalUnique(front, base);
      var high := Decode(front, base);
      DecodePositive(front, base);
      DivModUnique(high * base + d, base, high, d);
      MulMono(1, high, base);
    }
  }

  lemma {:induction false} DecodePositive(ds: seq<nat>, base: nat)
    requires base >= 1 && ds != [] && ds[0] != 0
    ensures Decode(ds, base) > 0
    decreases |ds|
  {
    if |ds| > 1 {
      DecodePositive(ds[..|ds| - 1], base);
      MulMono(1, Decode(ds[..|ds| - 1], base), base);
    }
  }

  /** The remaining digits, least significant first, after the ones in `low` are taken off. */
  lemma PeelDigit(value: nat, base: nat)
    requires base >= 2 && value > 0
    ensures Digits(value, base) == (if value / base == 0 then [] else Digits(value / base, base)) + [value % base]
  {
    if value < base {
      DivModUnique(value, base, 0, value);
    } else {
      QuotientPositive(value, base);
    }
  }

  // ----- characters -----

  function DigitChar(d: nat, upper: bool): char
    requires d < 36
  {
    if d < 10 then '0' + d as char else if upper then 'A' + (d - 10) as char else 'a' + (d - 10) as char
  }

  function Text(ds: seq<nat>, upper: bool): (s: string)
    requires forall i :: 0 <= i < |ds| ==> ds[i] < 36
    ensures |s| == |ds| && forall i :: 0 <= i < |s| ==> s[i] == DigitChar(ds[i], upper)
  {
    seq(|ds|, i requires 0 <= i < |ds| => DigitChar(ds[i], upper))
  }

  /** Different digits are written differently, so the text determines the digits. */
  lemma TextInjective(ds: seq<nat>, es: seq<nat>, upper: bool)
    requires forall i :: 0 <= i < |ds| ==> ds[i] < 36
    requires forall i :: 0 <= i < |es| ==> es[i] < 36
    requires Text(ds, upper) == Text(es, upper)
    ensures ds == es
  {
    forall i | 0 <= i < |ds| ensures ds[i] == es[i] {
      assert Text(ds, upper)[i] == Text(es, upper)[i];
    }
  }
}
