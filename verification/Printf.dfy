/** The digits the formatted printer writes: three routes to one result. */
module Printf {
  import opened Words
  import opened Arithmetic
  import opened Tiling
  import opened Bits
  import opened DigitsSpec
  import opened Convert

  /** The base actually used: above 32 bits every base but 10 is written in hexadecimal. */
  function UsedBase(value: nat, base: nat): nat { if value <= 0xFFFF_FFFF || base == 10 then base else 16 }

  lemma Nibble(x: nat)
    ensures And(x, 0xF) == x % 16
  {
    AndMod(x, 4);
    assert Pow2(4) == 16;
  }

  /** Digits by division, for values of 32 bits. */
  method ByDivision(value: nat, base: nat, upper: bool, buffer: array<char>) returns (n: nat, ghost low: string)
    requires 0 < value < WORD && 2 <= base <= 16 && buffer.Length >= 65
    modifies buffer
    ensures n == |low| <= 64 && Reverse(low) == NumText(value, base, upper) && Holds(buffer[..], old(buffer[..]), 0, low)
  {
    TextShort(value, base, upper);
    ghost var before := buffer[..];
    var temp: nat := value;
    n, low := 0, "";
    while temp > 0
      invariant n == |low| <= 64 && Peeled(low, temp, value, base, upper) && Holds(buffer[..], before, 0, low)
      decreases temp
    {
      PeelStep(low, temp, value, base, upper);
      Emit(buffer, n, DigitChar(temp % base, upper), before, low);
      low := low + [DigitChar(temp % base, upper)];
      temp, n := temp / base, n + 1;
    }
    assert RestText(0, base, upper) + Reverse(low) == Reverse(low);
  }

  /** Digits by groups of four bits. */
  method ByNibbles(value: nat, upper: bool, buffer: array<char>) returns (n: nat, ghost low: string)
    requires 0 < value < WORD && buffer.Length >= 65
    modifies buffer
    ensures n == |low| <= 64 && Reverse(low) == NumText(value, 16, upper) && Holds(buffer[..], old(buffer[..]), 0, low)
  {
    TextShort(value, 16, upper);
    ghost var before := buffer[..];
    var temp: nat := value;
    n, low := 0, "";
    while temp > 0
      invariant n == |low| <= 64 && Peeled(low, temp, value, 16, upper) && Holds(buffer[..], before, 0, low)
      decreases temp
    {
      PeelStep(low, temp, value, 16, upper);
      Nibble(temp);
      var d := And(temp, 0xF);
      Emit(buffer, n, DigitChar(d, upper), before, low);
      low := low + [DigitChar(d, upper)];
      temp, n := temp / 16, n + 1;
    }
    assert RestText(0, 16, upper) + Reverse(low) == Reverse(low);
  }

  // ----- decimal digits by powers of ten -----

  function Pow10(p: nat): (r: nat)
    ensures r > 0
  {
    if p == 0 then 1 else 10 * Pow10(p - 1)
  }

  lemma TwentyDigits()
    ensures WORD < Pow10(20)
  {
    assert Pow10(5) == 100000;
    Pow10Sum(5, 5);
    Pow10Sum(10, 10);
  }

  lemma {:induction false} Pow10Sum(a: nat, b: nat)
    ensures Pow10(a + b) == Pow10(a) * Pow10(b)
    decreases a
  {
    if a > 0 { Pow10Sum(a - 1, b); }
  }

  /** The digits written so far, and what is left below the next power. */
  ghost predicate Extracting(ds: seq<nat>, temp: nat, p: nat, value: nat) {
    && temp < Pow10(p) && value == Decode(ds, 10) * Pow10(p) + temp
    && (forall i :: 0 <= i < |ds| ==> ds[i] < 10) && (ds != [] ==> ds[0] != 0)
  }

  lemma ExtractStep(ds: seq<nat>, temp: nat, p: nat, value: nat, d: nat, left: nat)
    requires p > 0 && Extracting(ds, temp, p, value) && temp == d * Pow10(p - 1) + left && left < Pow10(p - 1)
    ensures d < 10
    ensures d > 0 || ds != [] ==> Extracting(ds + [d], left, p - 1, value)
    ensures d == 0 && ds == [] ==> Extracting(ds, left, p - 1, value)
  {
    if d >= 10 { MulMono(10, d, Pow10(p - 1)); }
    DecodeSnoc(ds, d, 10);
    ShiftPower(Decode(ds, 10), d, left, Pow10(p - 1));
  }

  lemma ShiftPower(high: nat, d: nat, left: nat, q: nat)
    ensures high * (10 * q) + (d * q + left) == (high * 10 + d) * q + left
  {
    assert high * (10 * q) == high * 10 * q;
  }

  /** How often a power fits, by repeated subtraction. */
  method CountPower(value: nat, power: nat) returns (digit: nat, left: nat)
    requires power > 0
    ensures value == digit * power + left && left < power
  {
    digit, left := 0, value;
    while left >= power
      invariant value == digit * power + left
    {
      left := left - power;
      digit := digit + 1;
      assert digit * power == (digit - 1) * power + power;
    }
  }

  /** The highest power of ten not above the value. */
  method HighestPower(value: nat) returns (p: nat)
    requires 0 < value < WORD
    ensures p < 20 && Pow10(p) <= value < Pow10(p + 1)
  {
    TwentyDigits();
    p := 19;
    while value < Pow10(p)
      invariant p < 20 && value < Pow10(p + 1)
    {
      p := p - 1;
    }
  }

  /** Digits from the highest power of ten down, which come out in order. */
  method ByPowers(value: nat, upper: bool, buffer: array<char>) returns (n: nat)
    requires 0 < value < WORD && buffer.Length >= 65
    modifies buffer
    ensures n == |NumText(value, 10, upper)| <= 64
    ensures Holds(buffer[..], old(buffer[..]), 0, NumText(value, 10, upper))
  {
    TextShort(value, 10, upper);
    ghost var before := buffer[..];
    var top := HighestPower(value);
    var temp: nat, p: nat := value, top + 1;
    ghost var ds: seq<nat> := [];
    n := 0;
    while p > 0
      invariant p <= top + 1 && |ds| == n <= top + 1 - p && Extracting(ds, temp, p, value)
      invariant Holds(buffer[..], before, 0, Text(ds, upper))
    {
      temp, n, ds := PowerStep(temp, p, n, buffer, upper, ds, before, value);
      p := p - 1;
    }
    AllExtracted(ds, temp, value);
  }

  /** The digit of one power; leading zeros are not written. */
  method PowerStep(temp: nat, p: nat, n: nat, buffer: array<char>, upper: bool,
                   ghost ds: seq<nat>, ghost before: string, ghost value: nat)
    returns (left: nat, n': nat, ghost ds': seq<nat>)
    requires p > 0 && |ds| == n < buffer.Length && Extracting(ds, temp, p, value)
    requires Holds(buffer[..], before, 0, Text(ds, upper))
    modifies buffer
    ensures |ds'| == n' && n <= n' <= n + 1 && Extracting(ds', left, p - 1, value)
    ensures Holds(buffer[..], before, 0, Text(ds', upper))
  {
    var digit;
    digit, left := CountPower(temp, Pow10(p - 1));
    ExtractStep(ds, temp, p, value, digit, left);
    n', ds' := n, ds;
    if digit > 0 || n > 0 {
      Emit(buffer, n, DigitChar(digit, upper), before, Text(ds, upper));
      TextSnoc(ds, digit, upper);
      n', ds' := n + 1, ds + [digit];
    }
  }

  /** Once nothing is left the digits are those of the value. */
  lemma AllExtracted(ds: seq<nat>, temp: nat, value: nat)
    requires Extracting(ds, temp, 0, value) && value > 0
    ensures ds == Digits(value, 10)
  {
    assert Pow10(0) == 1;
    CanonicalUnique(ds, 10);
  }

  /** Whatever the route, the text is the one the conversion routines write. */
  method FormatDigits(value: nat, base: nat, upper: bool, buffer: array<char>) returns (n: nat)
    requires value < WORD && 2 <= base <= 16 && buffer.Length >= 65
    modifies buffer
    ensures n == |NumText(value, UsedBase(value, base), upper)| <= 64
    ensures Holds(buffer[..], old(buffer[..]), 0, NumText(value, UsedBase(value, base), upper) + ['\0'])
  {
    ghost var before := buffer[..];
    if value == 0 {
      ZeroText(base, upper);
      Emit(buffer, 0, '0', before, "");
      Emit(buffer, 1, '\0', before, "0");
      return 1;
    }
    if value > 0xFFFF_FFFF && base == 10 {
      n := ByPowers(value, upper, buffer);
      Emit(buffer, n, '\0', before, NumText(value, 10, upper));
      return;
    }
    ghost var low;
    if value <= 0xFFFF_FFFF {
      n, low := ByDivision(value, base, upper, buffer);
    } else {
      n, low := ByNibbles(value, upper, buffer);
    }
    Finish(buffer, 0, n, before, low);
  }
}
