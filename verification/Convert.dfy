/** Numbers written into a character buffer, by the conversion routines and by the formatted printer. */
module Convert {
  import opened Words
  import opened Arithmetic
  import opened Tiling
  import opened Bits
  import opened DigitsSpec
  import ListSpec

  // ----- division bit by bit -----

  /** A bit moved from the unread to the read part of the value. */
  lemma HighPart(value: nat, i: nat)
    ensures value / Pow2(i) == 2 * (value / Pow2(i + 1)) + value / Pow2(i) % 2
  {
    HalveQuotient(value, Pow2(i));
  }

  lemma HalveQuotient(x: nat, d: nat)
    requires d > 0
    ensures x / (2 * d) == x / d / 2
  {
    var q, m := x / d, x % d;
    assert x == q * d + m;
    var h, b := q / 2, q % 2;
    assert q * d == h * (2 * d) + b * d;
    MulMono(b, 1, d);
    DivModUnique(x, 2 * d, h, b * d + m);
  }

  lemma {:induction false} AlignedMultiple(q: nat, k: nat)
    ensures Aligned(q * Pow2(k), k)
    decreases k
  {
    if k > 0 {
      assert q * Pow2(k) == 2 * (q * Pow2(k - 1));
      AlignedMultiple(q, k - 1);
    }
  }

  /** Setting a bit below an aligned quotient. */
  lemma SetQuotientBit(quotient: nat, i: nat)
    ensures Or(quotient * Pow2(i + 1), Pow2(i)) == (2 * quotient + 1) * Pow2(i)
    ensures quotient * Pow2(i + 1) == 2 * quotient * Pow2(i)
  {
    AlignedMultiple(quotient, i + 1);
    OrLow(quotient * Pow2(i + 1), Pow2(i), i + 1);
  }

  /** What is known after the bits from `i` up: they are `quotient` times the base plus the remainder. */
  ghost predicate Dividing(value: nat, base: nat, i: nat, q: nat, r: nat, quotient: nat) {
    r < base && value / Pow2(i) == quotient * base + r && q == quotient * Pow2(i)
  }

  lemma DivideStep(value: nat, base: nat, i: nat, q: nat, r: nat, quotient: nat)
    requires base > 0 && Dividing(value, base, i + 1, q, r, quotient)
    ensures var next := Or(2 * r, value / Pow2(i) % 2);
            if next >= base then Dividing(value, base, i, Or(q, Pow2(i)), next - base, 2 * quotient + 1)
            else Dividing(value, base, i, q, next, 2 * quotient)
  {
    HighPart(value, i);
    OrLow(2 * r, value / Pow2(i) % 2, 1);
    SetQuotientBit(quotient, i);
    DoubleQuotient(quotient, base, r, value / Pow2(i) % 2);
  }

  lemma DoubleQuotient(quotient: nat, base: nat, r: nat, bit: nat)
    ensures 2 * (quotient * base + r) + bit == 2 * quotient * base + (2 * r + bit)
    ensures 2 * (quotient * base + r) + bit == (2 * quotient + 1) * base + (2 * r + bit - base)
  {
  }

  /** Long division in base two of a word of that many bits gives the quotient and the remainder. */
  method DivMod(value: nat, base: nat, bits: nat) returns (q: nat, r: nat)
    requires value < Pow2(bits) && base > 0
    ensures q == value / base && r == value % base
  {
    q, r := 0, 0;
    var i: nat := bits;
    ghost var quotient: nat := 0;
    DivModUnique(value, Pow2(bits), 0, value);
    while i > 0
      invariant i <= bits && Dividing(value, base, i, q, r, quotient)
    {
      i := i - 1;
      DivideStep(value, base, i, q, r, quotient);
      r := Or(2 * r, value / Pow2(i) % 2);
      quotient := 2 * quotient;
      if r >= base {
        r := r - base;
        q := Or(q, Pow2(i));
        quotient := quotient + 1;
      }
    }
    DivModUnique(value, base, q, r);
  }

  // ----- the buffer -----

  function Reverse<T>(s: seq<T>): (r: seq<T>)
    ensures |r| == |s| && forall i :: 0 <= i < |s| ==> r[i] == s[|s| - 1 - i]
  {
    seq(|s|, i requires 0 <= i < |s| => s[|s| - 1 - i])
  }

  /** The outer `j` characters on both sides of the stretch have changed places. */
  ghost predicate Swapped(now: string, before: string, at: nat, n: nat, j: nat) {
    && |now| == |before| && at + n <= |now| && 2 * j <= n
    && forall k {:trigger now[k]} :: 0 <= k < |now| ==>
         now[k] == if at <= k < at + j || at + n - j <= k < at + n then before[2 * at + n - 1 - k] else before[k]
  }

  lemma SwapStep(now: string, before: string, at: nat, n: nat, j: nat)
    requires Swapped(now, before, at, n, j) && j < n / 2
    ensures Swapped(now[at + j := now[at + n - 1 - j]][at + n - 1 - j := now[at + j]], before, at, n, j + 1)
  {
  }

  /** The text with a stretch of it turned around. */
  lemma SwapDone(now: string, before: string, at: nat, n: nat)
    requires Swapped(now, before, at, n, n / 2)
    ensures now == before[..at] + Reverse(before[at..at + n]) + before[at + n..]
  {
    var whole := before[..at] + Reverse(before[at..at + n]) + before[at + n..];
    forall k | 0 <= k < |now| ensures now[k] == whole[k] {
      if at <= k < at + n { assert whole[k] == Reverse(before[at..at + n])[k - at]; }
    }
  }

  /** Turns `n` characters from `at` on around. */
  method ReverseText(buffer: array<char>, at: nat, n: nat)
    requires at + n <= buffer.Length
    modifies buffer
    ensures buffer[..] == old(buffer[..at]) + Reverse(old(buffer[at..at + n])) + old(buffer[at + n..])
  {
    ghost var before := buffer[..];
    var j := 0;
    while j < n / 2
      invariant j <= n / 2 && Swapped(buffer[..], before, at, n, j)
    {
      ghost var now := buffer[..];
      SwapStep(now, before, at, n, j);
      var tmp := buffer[at + j];
      buffer[at + j] := buffer[at + n - 1 - j];
      buffer[at + n - 1 - j] := tmp;
      assert buffer[..] == now[at + j := now[at + n - 1 - j]][at + n - 1 - j := now[at + j]];
      j := j + 1;
    }
    SwapDone(buffer[..], before, at, n);
    assert before[..at] == old(buffer[..at]) && before[at..at + n] == old(buffer[at..at + n]);
    assert before[at + n..] == old(buffer[at + n..]);
  }

  // ----- digits taken off one by one -----

  /** A number written out. */
  function NumText(value: nat, base: nat, upper: bool): (s: string)
    requires 2 <= base <= 36
    ensures s != []
  {
    DigitsDecode(value, base);
    Text(Digits(value, base), upper)
  }

  /** A number written out, and nothing for zero. */
  function RestText(value: nat, base: nat, upper: bool): string
    requires 2 <= base <= 36
  {
    if value == 0 then "" else NumText(value, base, upper)
  }

  /** The characters taken off so far, least significant first, and what is left of the value. */
  ghost predicate Peeled(low: string, v: nat, value: nat, base: nat, upper: bool)
    requires 2 <= base <= 36
  {
    RestText(v, base, upper) + Reverse(low) == RestText(value, base, upper)
  }

  lemma ReverseSnoc<T>(s: seq<T>, x: T)
    ensures Reverse(s + [x]) == [x] + Reverse(s)
  {
  }

  lemma TextSnoc(ds: seq<nat>, d: nat, upper: bool)
    requires (forall i :: 0 <= i < |ds| ==> ds[i] < 36) && d < 36
    ensures Text(ds + [d], upper) == Text(ds, upper) + [DigitChar(d, upper)]
  {
  }

  /** The last digit of what is left, and the rest. */
  lemma LastDigit(v: nat, base: nat, upper: bool)
    requires 2 <= base <= 36 && v > 0
    ensures v % base < base
    ensures RestText(v, base, upper) == RestText(v / base, base, upper) + [DigitChar(v % base, upper)]
  {
    DigitsDecode(v, base);
    DigitsDecode(v / base, base);
    PeelDigit(v, base);
    var rest: seq<nat> := if v / base == 0 then [] else Digits(v / base, base);
    TextSnoc(rest, v % base, upper);
  }

  /** Taking off the last digit of what is left. */
  lemma PeelStep(low: string, v: nat, value: nat, base: nat, upper: bool)
    requires 2 <= base <= 36 && v > 0 && Peeled(low, v, value, base, upper)
    ensures v % base < base && Peeled(low + [DigitChar(v % base, upper)], v / base, value, base, upper)
    ensures v / base < v && |low| < |RestText(value, base, upper)|
  {
    QuotientSmaller(v, base);
    LastDigit(v, base, upper);
    var c := DigitChar(v % base, upper);
    ReverseSnoc(low, c);
    ListSpec.Regroup(RestText(v / base, base, upper), [c], Reverse(low));
  }

  /** A 64-bit number has at most 64 digits. */
  lemma TextShort(value: nat, base: nat, upper: bool)
    requires 2 <= base <= 36 && value < WORD
    ensures |NumText(value, base, upper)| <= 64
  {
    WordSize();
    DigitsDecode(value, base);
    DigitsShort(value, base, WORD_BITS);
  }

  /** The buffer holds a text from a position on, and is otherwise as it was. */
  ghost predicate Holds(now: string, before: string, at: nat, text: string) {
    && |now| == |before| && at + |text| <= |now| && now[at..at + |text|] == text
    && now[..at] == before[..at]
  }

  lemma HoldsSnoc(now: string, before: string, at: nat, text: string, x: char)
    requires Holds(now, before, at, text) && at + |text| < |now|
    ensures Holds(now[at + |text| := x], before, at, text + [x])
  {
  }

  lemma HoldsReverse(now: string, before: string, at: nat, text: string)
    requires Holds(now, before, at, text)
    ensures Holds(now[..at] + Reverse(now[at..at + |text|]) + now[at + |text|..], before, at, Reverse(text))
  {
  }

  /** Writes one more character. */
  method Emit(buffer: array<char>, at: nat, x: char, ghost before: string, ghost text: string)
    requires |text| <= at < buffer.Length && Holds(buffer[..], before, at - |text|, text)
    modifies buffer
    ensures Holds(buffer[..], before, at - |text|, text + [x])
  {
    HoldsSnoc(buffer[..], before, at - |text|, text, x);
    buffer[at] := x;
    assert buffer[..] == old(buffer[..])[at := x];
  }

  /** Turns the digits around and ends the text. */
  method Finish(buffer: array<char>, at: nat, n: nat, ghost before: string, ghost low: string)
    requires Holds(buffer[..], before, at, low) && |low| == n && at + n < buffer.Length
    modifies buffer
    ensures Holds(buffer[..], before, at, Reverse(low) + ['\0'])
  {
    HoldsReverse(buffer[..], before, at, low);
    ReverseText(buffer, at, n);
    assert old(buffer[..])[..at] == old(buffer[..at]);
    Emit(buffer, at + n, '\0', before, Reverse(low));
  }

  /** Writes a number in any base from 2 to 36: its digits and the end mark fit 65 characters. */
  method Utoa(value: nat, base: nat, upper: bool, buffer: array<char>, at: nat) returns (n: nat)
    requires value < WORD && 2 <= base <= 36 && at + 65 <= buffer.Length
    modifies buffer
    ensures n == |NumText(value, base, upper)| <= 64
    ensures Holds(buffer[..], old(buffer[..]), at, NumText(value, base, upper) + ['\0'])
  {
    TextShort(value, base, upper);
    ghost var before := buffer[..];
    ghost var low := "";
    if value == 0 {
      ZeroText(base, upper);
      Emit(buffer, at, '0', before, "");
      Emit(buffer, at + 1, '\0', before, "0");
      return 1;
    }
    var v: nat := value;
    n := 0;
    while v > 0
      invariant v <= value && n == |low| && Peeled(low, v, value, base, upper) && n <= 64
      invariant Holds(buffer[..], before, at, low)
      decreases v
    {
      WordSize();
      PeelStep(low, v, value, base, upper);
      var q, r := DivMod(v, base, WORD_BITS);
      Emit(buffer, at + n, DigitChar(r, upper), before, low);
      low := low + [DigitChar(r, upper)];
      v, n := q, n + 1;
    }
    assert RestText(0, base, upper) + Reverse(low) == Reverse(low);
    Finish(buffer, at, n, before, low);
  }

  lemma ZeroText(base: nat, upper: bool)
    requires 2 <= base <= 36
    ensures NumText(0, base, upper) == "0"
  {
  }

  /** The text of a number determines it. */
  lemma TextDetermines(a: nat, b: nat, base: nat, upper: bool)
    requires 2 <= base <= 36 && NumText(a, base, upper) == NumText(b, base, upper)
    ensures a == b
  {
    DigitsDecode(a, base);
    DigitsDecode(b, base);
    TextInjective(Digits(a, base), Digits(b, base), upper);
  }

  function SignedText(v: int, base: nat): string
    requires 2 <= base <= 36
  {
    if v < 0 then "-" + NumText(-v, base, false) else NumText(v, base, false)
  }

  /** Writes a signed number; nothing in a base outside 2 to 36. The least number is its own negation on words. */
  method SignWrap(v: int, base: int, buffer: array<char>) returns (ok: bool)
    requires -(WORD / 2) <= v < WORD / 2 && buffer.Length >= 66
    modifies buffer
    ensures ok <==> 2 <= base <= 36
    ensures ok ==> Holds(buffer[..], old(buffer[..]), 0, SignedText(v, base) + ['\0'])
    ensures !ok ==> buffer[..] == old(buffer[..])
  {
    if base < 2 || base > 36 { return false; }
    ghost var before := buffer[..];
    if v < 0 {
      buffer[0] := '-';
      ghost var signed := buffer[..];
      var n := Utoa(-v, base, false, buffer, 1);
      SignHolds(buffer[..], signed, before, NumText(-v, base, false) + ['\0']);
      assert "-" + (NumText(-v, base, false) + ['\0']) == SignedText(v, base) + ['\0'];
    } else {
      var n := Utoa(v, base, false, buffer, 0);
    }
    return true;
  }

  lemma SignHolds(now: string, signed: string, before: string, text: string)
    requires |signed| == |before| && 0 < |signed| && signed[0] == '-' && Holds(now, signed, 1, text)
    ensures Holds(now, before, 0, "-" + text)
  {
    assert now[0] == now[..1][0] == signed[..1][0];
    assert now[0..1 + |text|] == [now[0]] + now[1..1 + |text|];
    assert now[..0] == before[..0];
  }
}
