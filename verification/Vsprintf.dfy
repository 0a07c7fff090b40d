/** lib/vsprintf.c: number, which prints an integer, and skip_atoi, which reads one. */
module Vsprintf {
  import opened Bytes
  import opened Numerals

  const WORD := 0x1_0000_0000
  const MAX := 0x7fff_ffff

  type Int = i: int | -0x8000_0000 <= i <= MAX

  function Unsigned(n: int): nat { n % WORD }

  function Signed(n: int): Int { if n % WORD > MAX then n % WORD - WORD else n % WORD }

  /** The bits of the type argument. */
  datatype Flags = Flags(zeropad: bool, sign: bool, plus: bool, space: bool, left: bool, special: bool, small: bool)

  // ----- what number prints -----

  function Max(a: int, b: int): int { if a < b then b else a }

  function Spaces(n: nat): (r: string)
    ensures |r| == n
    ensures forall i :: 0 <= i < n ==> r[i] == ' '
  {
    seq(n, _ => ' ')
  }

  /** The number that the digits stand for. */
  function Magnitude(num: Int, f: Flags): (r: nat)
    ensures r < WORD
  {
    if f.sign && num < 0 then 0 - num else Unsigned(num)
  }

  function Sign(num: Int, f: Flags): string {
    if f.sign && num < 0 then "-" else if f.plus then "+" else if f.space then " " else ""
  }

  function Prefix(base: int, f: Flags): string {
    if !f.special then "" else if base == 8 then "0" else if base != 16 then "" else if f.small then "0x" else "0X"
  }

  /** How a field is filled: blanks, sign, prefix, zeros, digits, blanks. */
  datatype Field = Field(before: nat, sign: string, prefix: string, zeros: nat, digits: string, after: nat) {
    function Number(): string { Zeros(zeros) + digits }

    function Text(): string { Spaces(before) + (sign + (prefix + (Number() + Spaces(after)))) }
  }

  function Layout(num: Int, base: int, size: int, precision: int, f: Flags): Field
    requires Base(base)
  {
    var d := Digits(Magnitude(num, f), base, f.small);
    var extra := Max(precision, |d|) - |d|;
    var pad := Max(0, size - |Sign(num, f)| - |Prefix(base, f)| - extra - |d|);
    if f.left then Field(0, Sign(num, f), Prefix(base, f), extra, d, pad)
    else if f.zeropad then Field(0, Sign(num, f), Prefix(base, f), pad + extra, d, 0)
    else Field(pad, Sign(num, f), Prefix(base, f), extra, d, 0)
  }

  function Format(num: Int, base: int, size: int, precision: int, f: Flags): string
    requires Base(base)
  {
    Layout(num, base, size, precision, f).Text()
  }

  lemma FormatLength(num: Int, base: int, size: int, precision: int, f: Flags)
    requires Base(base)
    ensures |Format(num, base, size, precision, f)| ==
      Max(size, |Sign(num, f)| + |Prefix(base, f)| + Max(precision, |Digits(Magnitude(num, f), base, f.small)|))
  {}

  // ----- what the text is, whatever computes it -----

  /** The parts of a printed number: blanks, sign, prefix, digits, blanks. */
  ghost predicate IsPrint(t: string, a: nat, s: string, p: string, n: string, b: nat,
                          num: Int, base: int, size: int, precision: int, f: Flags)
  {
    && t == Spaces(a) + (s + (p + (n + Spaces(b))))
    && SignIs(s, num, f) && PrefixIs(p, base, f) && DigitsAre(n, num, base, f)
    && |n| >= precision && |t| >= size
    && (a > 0 ==> |t| == size && !f.left && !f.zeropad)
    && (b > 0 ==> |t| == size && f.left)
    && (|n| > precision && |n| > 1 && n[0] == '0' ==> |t| == size && !f.left && f.zeropad)
  }

  predicate SignIs(s: string, num: Int, f: Flags) {
    && (s == "-" <==> f.sign && num < 0)
    && (s == "+" <==> f.plus && !(f.sign && num < 0))
    && (s == " " <==> f.space && !f.plus && !(f.sign && num < 0))
    && s in {"-", "+", " ", ""}
  }

  predicate PrefixIs(p: string, base: int, f: Flags) {
    && (p == "0" <==> f.special && base == 8)
    && (p == "0x" <==> f.special && base == 16 && f.small)
    && (p == "0X" <==> f.special && base == 16 && !f.small)
    && p in {"0", "0x", "0X", ""}
  }

  /** At least one digit, letters of one case only, and the value of the number, unsigned or without its sign. */
  predicate DigitsAre(n: string, num: Int, base: int, f: Flags) {
    && |n| > 0 && base > 0 && AllDigits(n, base)
    && (forall i :: 0 <= i < |n| ==> OfCase(n[i], f.small))
    && Value(n, base) == if num >= 0 then num else if f.sign then 0 - num else 0x1_0000_0000 + num
  }

  ghost predicate Prints(t: string, num: Int, base: int, size: int, precision: int, f: Flags) {
    exists a: nat, s, p, n, b: nat :: IsPrint(t, a, s, p, n, b, num, base, size, precision, f)
  }

  lemma FormatPrints(num: Int, base: int, size: int, precision: int, f: Flags)
    requires Base(base)
    ensures Prints(Format(num, base, size, precision, f), num, base, size, precision, f)
  {
    hide Digits, Field.Text, SignIs, PrefixIs, DigitsAre;
    var fd := Layout(num, base, size, precision, f);
    SignSo(num, f);
    PrefixSo(base, f);
    DigitsSo(num, base, f, fd.zeros);
    WidthSo(num, base, size, precision, f);
    TextIs(fd);
    assert IsPrint(fd.Text(), fd.before, fd.sign, fd.prefix, fd.Number(), fd.after, num, base, size, precision, f);
  }

  lemma TextIs(fd: Field)
    ensures fd.Text() == Spaces(fd.before) + (fd.sign + (fd.prefix + (fd.Number() + Spaces(fd.after))))
    ensures |fd.Text()| == fd.before + |fd.sign| + |fd.prefix| + |fd.Number()| + fd.after
    ensures |fd.Number()| == fd.zeros + |fd.digits|
  {}

  lemma SignSo(num: Int, f: Flags)
    ensures SignIs(Sign(num, f), num, f)
  {}

  lemma PrefixSo(base: int, f: Flags)
    ensures PrefixIs(Prefix(base, f), base, f)
  {}

  lemma DigitsSo(num: Int, base: int, f: Flags, zeros: nat)
    requires Base(base)
    ensures DigitsAre(Zeros(zeros) + Digits(Magnitude(num, f), base, f.small), num, base, f)
  {
    hide Digits, Value, AllDigits, OfCase;
    var m := Magnitude(num, f);
    DigitsDenote(m, base, f.small);
    DigitsAreShort(m, base, f.small);
    DigitsHaveCase(m, base, f.small);
    var d := Digits(m, base, f.small);
    ZerosInFront(zeros, d, base);
    forall i | 0 <= i < |Zeros(zeros) + d| ensures OfCase((Zeros(zeros) + d)[i], f.small) {
      if i < zeros { ZeroHasCase(f.small); } else { assert OfCase(d[i - zeros], f.small); }
    }
  }

  lemma ZeroHasCase(small: bool)
    ensures OfCase('0', small)
  {}

  /** The widths: superfluous zeros and blanks only to fill the field. */
  lemma WidthSo(num: Int, base: int, size: int, precision: int, f: Flags)
    requires Base(base)
    ensures var fd := Layout(num, base, size, precision, f);
      && |fd.Number()| >= precision && |fd.Text()| >= size
      && (fd.before > 0 ==> |fd.Text()| == size && !f.left && !f.zeropad)
      && (fd.after > 0 ==> |fd.Text()| == size && f.left)
      && (|fd.Number()| > precision && |fd.Number()| > 1 && fd.Number()[0] == '0' ==>
            |fd.Text()| == size && !f.left && f.zeropad)
  {
    var fd, m := Layout(num, base, size, precision, f), Magnitude(num, f);
    DigitsAreShort(m, base, f.small);
    OneDigit(m, base, f.small);
    TextIs(fd);
    hide Digits, Field.Text, Sign, Prefix;
    if fd.zeros == 0 {
      assert fd.Number() == fd.digits;
      assert fd.digits[0] == '0' ==> DigitValue(fd.digits[0]) == 0;
    }
  }

  lemma PrintsThere(was: string, now: string, str: nat, end: nat, num: Int, base: int, size: int, precision: int,
                    f: Flags)
    requires Base(base)
    requires var t := Format(num, base, size, precision, f);
      end == str + |t| <= |was| && now == Splice(was, str, t)
    ensures end <= |now| && Prints(now[str..end], num, base, size, precision, f)
  {
    SplicePart(was, str, Format(num, base, size, precision, f));
    FormatPrints(num, base, size, precision, f);
  }

  /** What that says of single characters. */
  lemma Edges(t: string, num: Int, base: int, size: int, precision: int, f: Flags)
    requires Base(base) && Prints(t, num, base, size, precision, f)
    ensures |t| > 0
    ensures f.left || f.zeropad ==>
      (t[0] == ' ' <==> f.space && !f.plus && !(f.sign && num < 0)) && forall i :: 0 < i < |t| && t[i] == ' ' ==> f.left
    ensures f.left && f.plus && !(f.sign && num < 0) ==> t[0] == '+'
    ensures f.left && f.sign && num < 0 ==> t[0] == '-'
    ensures !f.left ==> IsDigit(t[|t| - 1], base)
  {
    var a: nat, s, p, n, b: nat :| IsPrint(t, a, s, p, n, b, num, base, size, precision, f);
    hide Value, SignIs, DigitsAre, PrefixIs, IsDigit;
    SignCases(s, num, f);
    NoBlanks(p, n, num, base, f);
    Chars(t, a, s, p, n, b);
  }

  lemma Chars(t: string, a: nat, s: string, p: string, n: string, b: nat)
    requires t == Spaces(a) + (s + (p + (n + Spaces(b)))) && |n| > 0 && |s| <= 1
    requires forall i :: 0 <= i < |p + n| ==> (p + n)[i] > ' '
    ensures |t| == a + |s| + |p + n| + b
    ensures a == 0 ==> t[0] == (if s != "" then s[0] else (p + n)[0])
    ensures b == 0 ==> t[|t| - 1] == n[|n| - 1]
    ensures forall i :: 0 <= i < |t| && t[i] == ' ' ==> i < a || (i == a && s == " ") || i >= |t| - b
  {
    var w := p + n;
    assert t == Spaces(a) + s + w + Spaces(b);
    assert w[|w| - 1] == n[|n| - 1];
    forall i | 0 <= i < |t| && t[i] == ' ' ensures i < a || (i == a && s == " ") || i >= |t| - b {
      if a <= i < a + |s| { assert t[i] == s[0]; }
    }
  }

  lemma NoBlanks(p: string, n: string, num: Int, base: int, f: Flags)
    requires PrefixIs(p, base, f) && DigitsAre(n, num, base, f)
    ensures |n| > 0 && IsDigit(n[|n| - 1], base) && forall i :: 0 <= i < |p + n| ==> (p + n)[i] > ' '
  {}

  lemma SignCases(s: string, num: Int, f: Flags)
    requires SignIs(s, num, f)
    ensures if f.sign && num < 0 then s == "-" else if f.plus then s == "+" else if f.space then s == " " else s == ""
  {}

  /** There is one text of that kind, so that is what is printed. */
  lemma PrintsOne(t: string, t': string, num: Int, base: int, size: int, precision: int, f: Flags)
    requires Base(base) && Prints(t, num, base, size, precision, f) && Prints(t', num, base, size, precision, f)
    ensures t == t'
  {
    var a: nat, s, p, n, b: nat :| IsPrint(t, a, s, p, n, b, num, base, size, precision, f);
    var a': nat, s', p', n', b': nat :| IsPrint(t', a', s', p', n', b', num, base, size, precision, f);
    SignCases(s, num, f);
    SignCases(s', num, f);
    PrefixOne(p, p', base, f);
    NumeralsOne(n, n', base, f.small);
    NumeralsOne(n', n, base, f.small);
    Lengths(t, a, s, p, n, b);
    Lengths(t', a', s', p', n', b');
    hide *;
    assert |n| == |n'|;
    assert a == a' && b == b';
  }

  lemma Lengths(t: string, a: nat, s: string, p: string, n: string, b: nat)
    requires t == Spaces(a) + (s + (p + (n + Spaces(b))))
    ensures |t| == a + |s| + |p| + |n| + b
  {}

  lemma PrefixOne(p: string, p': string, base: int, f: Flags)
    requires PrefixIs(p, base, f) && PrefixIs(p', base, f)
    ensures p == p'
  {}

  lemma NumeralsOne(n: string, n': string, base: int, small: bool)
    requires Base(base) && AllDigits(n, base) && AllDigits(n', base) && Value(n, base) == Value(n', base)
    requires forall i :: 0 <= i < |n| ==> OfCase(n[i], small)
    requires forall i :: 0 <= i < |n'| ==> OfCase(n'[i], small)
    ensures |n| == |n'| ==> n == n'
    ensures |n| < |n'| ==> n'[0] == '0'
  {
    if |n| == |n'| { SameNumeral(n, n', base, small); }
    else if |n| < |n'| { LongerNumeral(n, n', base); }
  }

  // ----- reading it back -----

  function SkipSpaces(s: string): string {
    if s != [] && s[0] == ' ' then SkipSpaces(s[1..]) else s
  }

  function Unprefix(s: string, base: nat): string {
    if base == 16 && |s| >= 2 && s[0] == '0' && (s[1] == 'x' || s[1] == 'X') then s[2..] else s
  }

  function ReadDigits(s: string, base: nat): nat { Value(Run(Unprefix(s, base), base), base) }

  function ReadSigned(s: string, base: nat): int {
    if s != [] && s[0] == '-' then 0 - ReadDigits(s[1..], base)
    else if s != [] && s[0] == '+' then ReadDigits(s[1..], base)
    else ReadDigits(s, base)
  }

  /** Reads a number in a known base, knowing nothing of widths, paddings and flags. */
  function Read(s: string, base: nat): int { ReadSigned(SkipSpaces(s), base) }

  lemma {:induction false} SpacesSkipped(n: nat, s: string)
    ensures SkipSpaces(Spaces(n) + s) == SkipSpaces(s)
  {
    if n == 0 {
      assert Spaces(n) + s == s;
    } else {
      assert (Spaces(n) + s)[1..] == Spaces(n - 1) + s;
      SpacesSkipped(n - 1, s);
    }
  }

  lemma NumberReads(fd: Field, base: nat)
    requires Base(base) && AllDigits(fd.digits, base)
    ensures AllDigits(fd.Number(), base)
    ensures Run(fd.Number() + Spaces(fd.after), base) == fd.Number()
    ensures Value(fd.Number(), base) == Value(fd.digits, base)
  {
    ZerosInFront(fd.zeros, fd.digits, base);
    RunStops(fd.Number(), Spaces(fd.after), base);
  }

  /** No letter x follows the first digit of a number. */
  lemma NothingToUnprefix(n: string, after: nat, base: nat)
    requires Base(base) && AllDigits(n, base) && |n| > 0
    ensures Unprefix(n + Spaces(after), base) == n + Spaces(after)
  {}

  lemma PrefixedReads(fd: Field, base: nat)
    requires Base(base) && AllDigits(fd.digits, base) && |fd.digits| > 0
    requires fd.prefix == "" || (fd.prefix == "0" && base == 8) || (fd.prefix in {"0x", "0X"} && base == 16)
    ensures var u := fd.prefix + (fd.Number() + Spaces(fd.after));
      ReadDigits(u, base) == Value(fd.digits, base) && IsDigit(u[0], base)
  {
    hide Value, Run;
    NumberReads(fd, base);
    var n, v := fd.Number(), fd.Number() + Spaces(fd.after);
    var u := fd.prefix + v;
    if fd.prefix == "" {
      assert u == v && v[0] == n[0];
      NothingToUnprefix(n, fd.after, base);
    } else if base == 8 {
      var more := fd.(zeros := fd.zeros + 1);
      NumberReads(more, base);
      assert u == more.Number() + Spaces(fd.after);
    } else {
      assert u[2..] == v;
    }
  }

  lemma SignedReads(fd: Field, base: nat)
    requires Base(base) && AllDigits(fd.digits, base) && |fd.digits| > 0
    requires fd.prefix == "" || (fd.prefix == "0" && base == 8) || (fd.prefix in {"0x", "0X"} && base == 16)
    requires fd.sign in {"", "+", "-", " "}
    ensures Read(fd.Text(), base) == if fd.sign == "-" then 0 - Value(fd.digits, base) else Value(fd.digits, base)
  {
    hide Run, Unprefix, Value, AllDigits;
    var u := fd.prefix + (fd.Number() + Spaces(fd.after));
    PrefixedReads(fd, base);
    SpacesSkipped(fd.before, fd.sign + u);
    assert fd.sign + u == if fd.sign == "" then u else [fd.sign[0]] + u;
    if fd.sign == " " {
      assert [' '] + u == Spaces(1) + u;
      SpacesSkipped(1, u);
    }
    assert SkipSpaces(u) == u;
    assert fd.sign == "-" ==> (['-'] + u)[1..] == u;
    assert fd.sign == "+" ==> (['+'] + u)[1..] == u;
  }

  /** Reading a printed number gives the number, whatever width, precision and flags. */
  lemma ReadBack(num: Int, base: int, size: int, precision: int, f: Flags)
    requires Base(base)
    ensures Read(Format(num, base, size, precision, f), base) == if f.sign then num else Unsigned(num)
  {
    hide Digits, Value, Read;
    var m := Magnitude(num, f);
    DigitsDenote(m, base, f.small);
    DigitsAreShort(m, base, f.small);
    SignedReads(Layout(num, base, size, precision, f), base);
  }

  // ----- number -----

  function Reversed(s: string): (r: string)
    ensures |r| == |s|
  {
    if s == [] then [] else [s[|s| - 1]] + Reversed(s[..|s| - 1])
  }

  lemma ReversedPush(s: string, c: char)
    ensures Reversed(s + [c]) == [c] + Reversed(s)
  {}

  lemma WordDigits(v: nat, base: nat, small: bool)
    requires Base(base) && v < WORD
    ensures 0 < |Digits(v, base, small)| <= 32
  {
    DigitsAreShort(v, base, small);
    assert Power2(32) == WORD by {
      assert Power2(8) == 256;
      assert Power2(16) == 0x1_0000;
      assert Power2(24) == 0x100_0000;
    }
    DigitsAreFew(v, base, small, 32);
  }

  /** Part of was, from at on, is overwritten with text. */
  ghost predicate Holds(buf: array<char>, was: string, at: nat, text: string)
    reads buf
  {
    at + |text| <= |was| && buf[..] == Splice(was, at, text)
  }

  method Put(buf: array<char>, str: nat, c: char, ghost was: string, ghost at: nat, ghost text: string)
    returns (end: nat)
    requires Holds(buf, was, at, text) && str == at + |text| < buf.Length == |was|
    modifies buf
    ensures Holds(buf, was, at, text + [c]) && end == str + 1
  {
    SplicePush(was, at, text, c);
    buf[str] := c;
    end := str + 1;
  }

  /** One of number's loops: while(n-->0) *str++ = c. */
  method Fill(buf: array<char>, str: nat, c: char, n: int, ghost was: string, ghost at: nat, ghost text: string,
              ghost fill: string)
    returns (end: nat, left: int)
    requires Holds(buf, was, at, text) && str == at + |text|
    requires |fill| == Max(0, n) && forall i :: 0 <= i < |fill| ==> fill[i] == c
    requires at + |text + fill| <= buf.Length == |was|
    modifies buf
    ensures Holds(buf, was, at, text + fill) && end == str + |fill| && left < 0
  {
    end, left := str, n;
    ghost var k := 0;
    assert text + fill[..0] == text;
    while left > 0
      invariant 0 <= k <= |fill| && left == n - k && end == str + k
      invariant Holds(buf, was, at, text + fill[..k])
    {
      assert text + fill[..k] + [c] == text + fill[..k + 1];
      left := left - 1;
      end := Put(buf, end, c, was, at, text + fill[..k]);
      k := k + 1;
    }
    left := left - 1;
    assert fill[..k] == fill;
  }

  /** The digits that are still to be generated. */
  function Rest(n: nat, base: nat, small: bool): string
    requires Base(base)
  {
    if n == 0 then [] else Digits(n, base, small)
  }

  lemma RestStep(n: nat, base: nat, small: bool, s: string)
    requires Base(base) && n > 0
    ensures Rest(n, base, small) + Reversed(s) ==
      Rest(Quotient(n, base), base, small) + Reversed(s + [Digit(small, Remainder(n, base))])
    ensures |Rest(n, base, small)| == |Rest(Quotient(n, base), base, small)| + 1
  {}

  /** The digits, least significant first, in a buffer that is never too small. */
  method Generate(tmp: array<char>, num: nat, base: nat, small: bool) returns (i: nat)
    requires tmp.Length == 36 && Base(base) && num < WORD
    modifies tmp
    ensures i <= 32 && Reversed(tmp[..i]) == Digits(num, base, small)
  {
    hide Digit, Digits, Rest, Reversed, Quotient, Remainder;
    WordDigits(num, base, small);
    RestIs(num, base, small);
    i := 0;
    if num == 0 {
      tmp[i] := '0';
      i := i + 1;
      assert tmp[..i] == ['0'];
    } else {
      var n: nat := num;
      ghost var rest := Rest(n, base, small);
      assert rest + Reversed(tmp[..0]) == rest;
      while n != 0
        invariant rest == Rest(n, base, small) && |rest| + i <= 32
        invariant rest + Reversed(tmp[..i]) == Digits(num, base, small)
      {
        ghost var s, d := tmp[..i], Digit(small, Remainder(n, base));
        RestStep(n, base, small, s);
        rest := Rest(Quotient(n, base), base, small);
        tmp[i] := Digit(small, Remainder(n, base));
        assert tmp[..i + 1] == s + [d];
        i, n := i + 1, Quotient(n, base);
      }
      RestIs(0, base, small);
      assert rest + Reversed(tmp[..i]) == Reversed(tmp[..i]);
    }
  }

  lemma RestIs(n: nat, base: nat, small: bool)
    requires Base(base)
    ensures Rest(n, base, small) == if n == 0 then [] else Digits(n, base, small)
    ensures Digits(0, base, small) == ['0'] == Reversed(['0']) && Reversed([]) == []
  {}

  /** while(i-->0) *str++ = tmp[i] */
  method PutDigits(buf: array<char>, str: nat, tmp: array<char>, i: nat, ghost was: string, ghost at: nat,
                   ghost text: string)
    returns (end: nat)
    requires i <= tmp.Length && tmp != buf
    requires Holds(buf, was, at, text) && str == at + |text| && str + i <= buf.Length == |was|
    modifies buf
    ensures Holds(buf, was, at, text + Reversed(tmp[..i])) && end == str + i
  {
    hide Splice, Reversed;
    ghost var src, done := tmp[..i], "";
    end := str;
    var j := i;
    assert text + done == text && done + Reversed(src) == Reversed(src) && src[..j] == src;
    while j > 0
      invariant 0 <= j <= i && end == str + |done|
      invariant done + Reversed(src[..j]) == Reversed(src)
      invariant Holds(buf, was, at, text + done)
      invariant tmp[..i] == src
    {
      j := j - 1;
      NextDigit(src, j, text, done);
      assert tmp[j] == src[j];
      end := Put(buf, end, tmp[j], was, at, text + done);
      done := done + [src[j]];
    }
    NoDigits(src, done);
  }

  lemma NextDigit(src: string, j: nat, text: string, done: string)
    requires j < |src|
    ensures done + Reversed(src[..j + 1]) == done + [src[j]] + Reversed(src[..j])
    ensures text + done + [src[j]] == text + (done + [src[j]])
  {
    assert src[..j + 1] == src[..j] + [src[j]];
    ReversedPush(src[..j], src[j]);
  }

  lemma NoDigits(src: string, done: string)
    ensures done + Reversed(src[..0]) == done
  {}

  method PutSign(buf: array<char>, str: nat, sign: string, ghost was: string, ghost at: nat, ghost text: string)
    returns (end: nat)
    requires Holds(buf, was, at, text) && str == at + |text| && |sign| <= 1
    requires str + |sign| <= buf.Length == |was|
    modifies buf
    ensures Holds(buf, was, at, text + sign) && end == str + |sign|
  {
    end := str;
    assert text + sign == if sign == "" then text else text + [sign[0]];
    if sign != "" {
      end := Put(buf, end, sign[0], was, at, text);
    }
  }

  method PutPrefix(buf: array<char>, str: nat, base: int, f: Flags, ghost was: string, ghost at: nat,
                   ghost text: string)
    returns (end: nat)
    requires Holds(buf, was, at, text) && str == at + |text|
    requires str + |Prefix(base, f)| <= buf.Length == |was|
    modifies buf
    ensures Holds(buf, was, at, text + Prefix(base, f)) && end == str + |Prefix(base, f)|
  {
    end := str;
    assert text + "" == text && text + "0" == text + ['0'];
    assert text + "0x" == text + ['0'] + ['x'] && text + "0X" == text + ['0'] + ['X'];
    if f.special {
      if base == 8 {
        end := Put(buf, end, '0', was, at, text);
      } else if base == 16 {
        end := Put(buf, end, '0', was, at, text);
        end := Put(buf, end, if f.small then LITTLE[33] else LARGE[33], was, at, text + ['0']);
      }
    }
  }

  /** The six pieces in the order in which number stores them. */
  lemma Pieces(fd: Field, padding: nat)
    requires padding <= fd.zeros
    ensures Spaces(fd.before) + fd.sign + fd.prefix + Zeros(padding) + Zeros(fd.zeros - padding) + fd.digits +
      Spaces(fd.after) == fd.Text()
  {}

  /** The second half of number: everything that is stored through str. */
  method Emit(buf: array<char>, str: nat, tmp: array<char>, i: nat, sign: string, base: int, size: int,
              precision: int, f: Flags, ghost fd: Field)
    returns (end: nat)
    requires i <= tmp.Length && tmp != buf && fd.digits == Reversed(tmp[..i])
    requires fd.sign == sign && |sign| <= 1 && fd.prefix == Prefix(base, f) && precision >= i
    requires fd.before == if f.zeropad || f.left then 0 else Max(0, size)
    requires fd.zeros == (precision - i) + (if f.zeropad && !f.left then Max(0, size) else 0)
    requires fd.after == if f.left then Max(0, size) else 0
    requires str + |fd.Text()| <= buf.Length
    modifies buf
    ensures end == str + |fd.Text()|
    ensures buf[..] == Splice(old(buf[..]), str, fd.Text())
  {
    hide Splice, Prefix, Reversed;
    ghost var was, text := buf[..], Spaces(fd.before);
    ghost var padding := fd.zeros - (precision - i);
    SpliceNothing(was, str);
    Pieces(fd, padding);
    var left := size;
    end := str;
    assert [] + text == text && text + fd.sign + fd.prefix + [] == text + fd.sign + fd.prefix;
    if !f.zeropad && !f.left {
      end, left := Fill(buf, end, ' ', left, was, str, [], text);
    }
    end := PutSign(buf, end, sign, was, str, text);
    text := text + sign;
    end := PutPrefix(buf, end, base, f, was, str, text);
    text := text + fd.prefix;
    if !f.left {
      end, left := Fill(buf, end, if f.zeropad then '0' else ' ', left, was, str, text, Zeros(padding));
    }
    text := text + Zeros(padding);
    var zeros: int;
    end, zeros := Fill(buf, end, '0', precision - i, was, str, text, Zeros(precision - i));
    text := text + Zeros(precision - i);
    end := PutDigits(buf, end, tmp, i, was, str, text);
    text := text + fd.digits;
    end, left := Fill(buf, end, ' ', left, was, str, text, Spaces(fd.after));
  }

  /** The printed text goes to buf from str on; the result is the position after it, or 0 (a null
      pointer) with nothing written when there is no such base. */
  method Number(buf: array<char>, str: nat, num: Int, base: int, size: int, precision: int, f: Flags)
    returns (end: nat)
    requires Base(base) ==> str + |Format(num, base, size, precision, f)| <= buf.Length
    modifies buf
    ensures !Base(base) ==> end == 0 && buf[..] == old(buf[..])
    ensures Base(base) ==> end == str + |Format(num, base, size, precision, f)|
    ensures Base(base) ==> buf[..] == Splice(old(buf[..]), str, Format(num, base, size, precision, f))
    ensures Base(base) ==> str <= end <= buf.Length && Prints(buf[..][str..end], num, base, size, precision, f)
  {
    hide Splice, Digits, Field.Text, Prints;
    var flags := f;
    if flags.left {
      flags := flags.(zeropad := false);
    }
    if base < 2 || base > 36 {
      return 0;
    }
    var n, room, digits := num, size, precision;
    var sign := if flags.plus then "+" else if flags.space then " " else "";
    if flags.sign && n < 0 {
      sign := "-";
      n := Negated(n);
    }
    if sign != "" {
      room := room - 1;
    }
    if flags.special {
      if base == 16 {
        room := room - 2;
      } else if base == 8 {
        room := room - 1;
      }
    }
    var tmp := new char[36];
    var i := Generate(tmp, Unsigned(n), base, flags.small);
    if i > digits {
      digits := i;
    }
    room := room - digits;
    end := Emit(buf, str, tmp, i, sign, base, room, digits, flags, Layout(num, base, size, precision, f));
    PrintsThere(old(buf[..]), buf[..], str, end, num, base, size, precision, f);
  }

  /** num = -num on 32 bits, where the most negative number stays as it is. */
  function Negated(num: Int): (r: Int)
    ensures num < 0 ==> Unsigned(r) == 0 - num
  {
    if num == -0x8000_0000 then num else 0 - num
  }

  // ----- skip_atoi -----

  function Atoi(s: string): Int { Signed(Value(Run(s, 10), 10)) }

  lemma SignedAgrees(a: int, b: int)
    requires exists k: int :: a == b + k * WORD
    ensures Signed(a) == Signed(b)
  {}

  lemma AtoiStep(v: nat, d: nat)
    requires d < 10
    ensures Signed(Signed(v) * 10 + d) == Signed(v * 10 + d)
  {
    var k := if Signed(v) == v % WORD then -(v / WORD) else -(v / WORD) - 1;
    assert Signed(v) == v + k * WORD;
    assert Signed(v) * 10 + d == (v * 10 + d) + (10 * k) * WORD;
    SignedAgrees(Signed(v) * 10 + d, v * 10 + d);
  }

  /** The position in *s moves to the first character that is not a digit. */
  method SkipAtoi(s: string, at: nat) returns (i: Int, end: nat)
    requires at <= |s|
    ensures i == Atoi(s[at..])
    ensures end == at + |Run(s[at..], 10)|
  {
    i, end := 0, at;
    while end < |s| && IsDigit(s[end], 10)
      invariant at <= end <= |s|
      invariant AllDigits(s[at..end], 10) && i == Signed(Value(s[at..end], 10))
    {
      ValuePush(s[at..end], s[end], 10);
      assert s[at..end + 1] == s[at..end] + [s[end]];
      AtoiStep(Value(s[at..end], 10), DigitValue(s[end]));
      i := Signed(i * 10 + DigitValue(s[end]));
      end := end + 1;
    }
    RunStops(s[at..end], s[end..], 10);
    assert s[at..] == s[at..end] + s[end..];
  }

  /** skip_atoi on the digit field of a printed decimal number. */
  function DigitField(num: Int, size: int, precision: int, f: Flags): string {
    var fd := Layout(num, 10, size, precision, f);
    Format(num, 10, size, precision, f)[fd.before + |fd.sign|..]
  }

  lemma DigitFieldIs(num: Int, size: int, precision: int, f: Flags)
    ensures var fd := Layout(num, 10, size, precision, f);
      DigitField(num, size, precision, f) == fd.Number() + Spaces(fd.after)
  {
    hide Digits, Field.Number;
    var fd := Layout(num, 10, size, precision, f);
    assert fd.prefix == "";
    DropFront(Spaces(fd.before), fd.sign, fd.prefix, fd.Number() + Spaces(fd.after));
  }

  lemma DropFront(a: string, b: string, c: string, v: string)
    requires c == ""
    ensures (a + (b + (c + v)))[|a| + |b|..] == v
  {}

  lemma SignedRange(num: Int)
    ensures Signed(Unsigned(num)) == num
    ensures num == -0x8000_0000 ==> Signed(0 - num) == num
  {}

  /** skip_atoi reads the digit field as its magnitude exactly when that is an int; the one
      magnitude a signed print can show that is not, 2^31, comes back as the number itself. */
  lemma AtoiOfNumber(num: Int, size: int, precision: int, f: Flags)
    ensures var field, m := DigitField(num, size, precision, f), Magnitude(num, f);
      && Atoi(field) == Signed(m)
      && (Atoi(field) == m <==> m <= MAX)
      && |Run(field, 10)| == |field| - Layout(num, 10, size, precision, f).after
    ensures !f.sign || num >= 0 || num == -0x8000_0000 ==> Atoi(DigitField(num, size, precision, f)) == num
  {
    hide Value, Run, Digits, AllDigits;
    var fd := Layout(num, 10, size, precision, f);
    var m := Magnitude(num, f);
    DigitsDenote(m, 10, f.small);
    NumberReads(fd, 10);
    DigitFieldIs(num, size, precision, f);
    assert Run(fd.Number() + Spaces(fd.after), 10) == fd.Number();
    SignedRange(num);
  }
}
