/** Positional numerals in bases 2 to 36, written and read. */
module Numerals {
  const LARGE := "0123456789ABCDEFGHIJKLMNOPQRSTUVWXYZ"
  const LITTLE := "0123456789abcdefghijklmnopqrstuvwxyz"

  predicate Base(b: int) { 2 <= b <= 36 }

  function Digit(small: bool, d: nat): char
    requires d < 36
  {
    if small then LITTLE[d] else LARGE[d]
  }

  /** The value of a digit character of either case, or -1. */
  function DigitValue(c: char): int {
    if '0' <= c <= '9' then c as int - '0' as int
    else if 'A' <= c <= 'Z' then c as int - 'A' as int + 10
    else if 'a' <= c <= 'z' then c as int - 'a' as int + 10
    else -1
  }

  predicate IsDigit(c: char, base: int) { 0 <= DigitValue(c) < base }

  lemma DigitHasValue(small: bool, d: nat)
    requires d < 36
    ensures DigitValue(Digit(small, d)) == d
  {
    var i := d;
    if small { assert LITTLE[i] == if i < 10 then '0' + i as char else 'a' + (i - 10) as char; }
    else { assert LARGE[i] == if i < 10 then '0' + i as char else 'A' + (i - 10) as char; }
  }

  predicate AllDigits(s: string, base: int) {
    forall i :: 0 <= i < |s| ==> IsDigit(s[i], base)
  }

  /** Horner's rule, most significant digit first. */
  function Value(s: string, base: nat): nat
    requires AllDigits(s, base)
  {
    if s == [] then 0 else Value(s[..|s| - 1], base) * base + DigitValue(s[|s| - 1])
  }

  /** The two results of do_div's unsigned division. */
  function Quotient(v: nat, base: nat): (q: nat)
    requires Base(base)
    ensures if v < base then q == 0 else q > 0
    ensures 2 * q <= v
  {
    Halves(v, base);
    v / base
  }

  function Remainder(v: nat, base: nat): (r: nat)
    requires Base(base)
    ensures r < base && (v < base ==> r == v)
  {
    v % base
  }

  lemma Halves(v: nat, base: nat)
    requires Base(base)
    ensures 2 * (v / base) <= v
  {
    var q := v / base;
    assert q * 2 <= q * base;
  }

  lemma Recombine(v: nat, base: nat)
    requires Base(base)
    ensures Quotient(v, base) * base + Remainder(v, base) == v
  {}

  function Digits(v: nat, base: nat, small: bool): (r: string)
    requires Base(base)
    decreases v
  {
    if v < base then [Digit(small, v)] else Digits(Quotient(v, base), base, small) + [Digit(small, Remainder(v, base))]
  }

  lemma ValuePush(s: string, c: char, base: nat)
    requires AllDigits(s, base) && IsDigit(c, base)
    ensures AllDigits(s + [c], base) && Value(s + [c], base) == Value(s, base) * base + DigitValue(c)
  {}

  /** A printed number is a numeral of its base and denotes the number... */
  lemma {:induction false} DigitsDenote(v: nat, base: nat, small: bool)
    requires Base(base)
    ensures AllDigits(Digits(v, base, small), base) && Value(Digits(v, base, small), base) == v
    decreases v
  {
    hide DigitValue, Digit, Quotient, Remainder;
    DigitHasValue(small, Remainder(v, base));
    if v < base {
      ValuePush([], Digit(small, v), base);
      assert [] + [Digit(small, v)] == Digits(v, base, small);
    } else {
      DigitsDenote(Quotient(v, base), base, small);
      ValuePush(Digits(Quotient(v, base), base, small), Digit(small, Remainder(v, base)), base);
      Recombine(v, base);
    }
  }

  /** ... and is the shortest one: it starts with 0 only when it is 0. */
  lemma {:induction false} DigitsAreShort(v: nat, base: nat, small: bool)
    requires Base(base)
    ensures |Digits(v, base, small)| > 0
    ensures v > 0 ==> DigitValue(Digits(v, base, small)[0]) > 0
    decreases v
  {
    hide DigitValue, Digit, Quotient, Remainder;
    if v < base {
      DigitHasValue(small, v);
    } else {
      DigitsAreShort(Quotient(v, base), base, small);
    }
  }

  predicate OfCase(c: char, small: bool) {
    if small then !('A' <= c <= 'Z') else !('a' <= c <= 'z')
  }

  lemma DigitHasCase(small: bool, d: nat)
    requires d < 36
    ensures OfCase(Digit(small, d), small)
  {
    var i := d;
    if small { assert LITTLE[i] == if i < 10 then '0' + i as char else 'a' + (i - 10) as char; }
    else { assert LARGE[i] == if i < 10 then '0' + i as char else 'A' + (i - 10) as char; }
  }

  /** Its letters are of the case asked for. */
  lemma {:induction false} DigitsHaveCase(v: nat, base: nat, small: bool)
    requires Base(base)
    ensures forall i :: 0 <= i < |Digits(v, base, small)| ==> OfCase(Digits(v, base, small)[i], small)
    decreases v
  {
    hide Digit, Quotient, Remainder, OfCase;
    DigitHasCase(small, Remainder(v, base));
    if v >= base { DigitsHaveCase(Quotient(v, base), base, small); }
  }

  /** 0 is one digit. */
  lemma OneDigit(v: nat, base: nat, small: bool)
    requires Base(base)
    ensures v == 0 ==> |Digits(v, base, small)| == 1
  {}

  function Power2(k: nat): nat { if k == 0 then 1 else 2 * Power2(k - 1) }

  lemma {:induction false} DigitsAreFew(v: nat, base: nat, small: bool, k: nat)
    requires Base(base) && k > 0 && v < Power2(k)
    ensures |Digits(v, base, small)| <= k
    decreases k
  {
    hide Digit, Quotient, Remainder;
    if v >= base {
      DigitsAreFew(Quotient(v, base), base, small, k - 1);
    }
  }

  function Zeros(n: nat): (r: string)
    ensures |r| == n
    ensures forall i :: 0 <= i < n ==> r[i] == '0'
  {
    seq(n, _ => '0')
  }

  /** Leading zeros change nothing. */
  lemma {:induction false} ZerosInFront(n: nat, s: string, base: nat)
    requires Base(base) && AllDigits(s, base)
    ensures AllDigits(Zeros(n) + s, base) && Value(Zeros(n) + s, base) == Value(s, base)
    decreases n + |s|
  {
    var z := Zeros(n) + s;
    if s != [] {
      assert z[..|z| - 1] == Zeros(n) + s[..|s| - 1];
      ZerosInFront(n, s[..|s| - 1], base);
    } else if n > 0 {
      assert z[..|z| - 1] == Zeros(n - 1) + [];
      ZerosInFront(n - 1, [], base);
      assert Zeros(n) + [] == z;
    }
  }

  lemma SameDivision(q: nat, r: nat, q': nat, r': nat, base: nat)
    requires r < base && r' < base && q * base + r == q' * base + r'
    ensures q == q' && r == r'
  {
    if q < q' { SmallerQuotient(q, q' - q, base); }
    if q' < q { SmallerQuotient(q', q - q', base); }
  }

  lemma SmallerQuotient(q: nat, k: nat, base: nat)
    requires k > 0
    ensures (q + k) * base >= q * base + base
  {
    var j := k - 1;
    assert (q + k) * base == q * base + j * base + base;
  }

  /** Numerals of one value have the same last digit and the same value in front of it. */
  lemma ValuePop(s: string, t: string, base: nat)
    requires Base(base) && AllDigits(s, base) && AllDigits(t, base) && |s| > 0 && |t| > 0
    requires Value(s, base) == Value(t, base)
    ensures DigitValue(s[|s| - 1]) == DigitValue(t[|t| - 1])
    ensures AllDigits(s[..|s| - 1], base) && AllDigits(t[..|t| - 1], base)
    ensures Value(s[..|s| - 1], base) == Value(t[..|t| - 1], base)
  {
    SameDivision(Value(s[..|s| - 1], base), DigitValue(s[|s| - 1]), Value(t[..|t| - 1], base),
                 DigitValue(t[|t| - 1]), base);
  }

  lemma SameDigit(c: char, d: char, small: bool)
    requires OfCase(c, small) && OfCase(d, small) && DigitValue(c) == DigitValue(d) >= 0
    ensures c == d
  {}

  /** Numerals of one length and one value are the same, */
  lemma {:induction false} SameNumeral(s: string, t: string, base: nat, small: bool)
    requires Base(base) && AllDigits(s, base) && AllDigits(t, base) && |s| == |t| && Value(s, base) == Value(t, base)
    requires forall i :: 0 <= i < |s| ==> OfCase(s[i], small)
    requires forall i :: 0 <= i < |t| ==> OfCase(t[i], small)
    ensures s == t
  {
    hide Value, DigitValue, OfCase;
    if s != [] {
      var k := |s| - 1;
      ValuePop(s, t, base);
      SameDigit(s[k], t[k], small);
      SameNumeral(s[..k], t[..k], base, small);
      assert s == s[..k] + [s[k]] && t == t[..k] + [t[k]];
    }
  }

  /** and the longer of two of one value starts with 0. */
  lemma {:induction false} LongerNumeral(s: string, t: string, base: nat)
    requires Base(base) && AllDigits(s, base) && AllDigits(t, base) && |s| < |t| && Value(s, base) == Value(t, base)
    ensures t[0] == '0'
  {
    if s == [] {
      ZeroIsZeros(t, base);
    } else {
      ValuePop(s, t, base);
      LongerNumeral(s[..|s| - 1], t[..|t| - 1], base);
    }
  }

  lemma {:induction false} ZeroIsZeros(t: string, base: nat)
    requires Base(base) && AllDigits(t, base) && |t| > 0 && Value(t, base) == 0
    ensures t[0] == '0'
  {
    var front := t[..|t| - 1];
    SameDivision(Value(front, base), DigitValue(t[|t| - 1]), 0, 0, base);
    if front != [] { ZeroIsZeros(front, base); }
  }

  /** The longest run of digits of a base at the front of s. */
  function Run(s: string, base: nat): (r: string)
    ensures AllDigits(r, base) && |r| <= |s| && s[..|r|] == r
    ensures |r| < |s| ==> !IsDigit(s[|r|], base)
  {
    if s != [] && IsDigit(s[0], base) then [s[0]] + Run(s[1..], base) else []
  }

  lemma {:induction false} RunStops(d: string, rest: string, base: nat)
    requires AllDigits(d, base)
    requires rest == [] || !IsDigit(rest[0], base)
    ensures Run(d + rest, base) == d
  {
    if d == [] {
      assert d + rest == rest;
    } else {
      assert (d + rest)[1..] == d[1..] + rest;
      RunStops(d[1..], rest, base);
    }
  }
}
