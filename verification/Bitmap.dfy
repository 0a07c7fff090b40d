/** lib/bitopts.c: bits in a buffer of bytes, numbered from the low end of the first byte. */
module Bitmap {
  import opened Bytes

  /** The unsigned long -1. */
  const NONE := 0xffff_ffff

  function Mask(k: nat): (m: nat)
    ensures m > 0
  {
    if k == 0 then 1 else 2 * Mask(k - 1)
  }

  /** mask & b, as a truth value. */
  predicate BitOf(b: nat, k: nat) {
    if k == 0 then b % 2 == 1 else BitOf(b / 2, k - 1)
  }

  lemma {:induction false} MaskAdds(b: nat, k: nat, j: nat)
    requires !BitOf(b, k)
    ensures BitOf(b + Mask(k), j) == (j == k || BitOf(b, j))
  {
    if k > 0 {
      assert (b + Mask(k)) / 2 == b / 2 + Mask(k - 1);
      if j > 0 {
        MaskAdds(b / 2, k - 1, j - 1);
      }
    }
  }

  lemma {:induction false} MaskFits(b: nat, k: nat, n: nat)
    requires k < n && b < Mask(n)
    ensures if BitOf(b, k) then Mask(k) <= b else b + Mask(k) < Mask(n)
  {
    if k > 0 {
      MaskFits(b / 2, k - 1, n - 1);
    }
  }

  lemma MaskSubtracts(b: nat, k: nat, j: nat)
    requires BitOf(b, k) && Mask(k) <= b
    ensures BitOf(b - Mask(k), j) == (j != k && BitOf(b, j))
  {
    NotAfter(b, k);
    MaskAdds(b - Mask(k), k, j);
  }

  lemma {:induction false} NotAfter(b: nat, k: nat)
    requires BitOf(b, k) && Mask(k) <= b
    ensures !BitOf(b - Mask(k), k)
  {
    if k > 0 {
      assert (b - Mask(k)) / 2 == b / 2 - Mask(k - 1);
      NotAfter(b / 2, k - 1);
    }
  }

  /** All bits of a buffer, in order. */
  function Bits(s: seq<Byte>): (r: seq<bool>)
    ensures |r| == 8 * |s|
    ensures forall n :: 0 <= n < 8 * |s| ==> r[n] == BitOf(s[n / 8], n % 8)
  {
    seq(8 * |s|, n requires 0 <= n < 8 * |s| => BitOf(s[n / 8], n % 8))
  }

  /** What storing a byte with one bit changed does to the bits. */
  lemma BitsAfter(s: seq<Byte>, n: nat, b: Byte, on: bool)
    requires n < 8 * |s|
    requires forall j :: 0 <= j < 8 ==> BitOf(b, j) == if j == n % 8 then on else BitOf(s[n / 8], j)
    ensures Bits(s[n / 8 := b]) == Bits(s)[n := on]
  {}

  method SetBit(a: array<Byte>, nr: nat) returns (was: bool)
    requires nr < 8 * a.Length
    modifies a
    ensures was == Bits(old(a[..]))[nr]
    ensures Bits(a[..]) == Bits(old(a[..]))[nr := true]
  {
    var i, k := nr / 8, nr % 8;
    ghost var s, b := a[..], a[i];
    was := BitOf(a[i], k);
    MaskFits(a[i], k, 8);
    if !was {
      forall j: nat ensures BitOf(b + Mask(k), j) == (j == k || BitOf(b, j)) { MaskAdds(b, k, j); }
      a[i] := a[i] + Mask(k);
    }
    BitsAfter(s, nr, a[i], true);
    assert a[..] == s[i := a[i]];
  }

  method ClearBit(a: array<Byte>, nr: nat) returns (was: bool)
    requires nr < 8 * a.Length
    modifies a
    ensures was == Bits(old(a[..]))[nr]
    ensures Bits(a[..]) == Bits(old(a[..]))[nr := false]
  {
    var i, k := nr / 8, nr % 8;
    ghost var s, b := a[..], a[i];
    was := BitOf(a[i], k);
    MaskFits(a[i], k, 8);
    if was {
      forall j: nat ensures BitOf(b - Mask(k), j) == (j != k && BitOf(b, j)) { MaskSubtracts(b, k, j); }
      a[i] := a[i] - Mask(k);
    }
    BitsAfter(s, nr, a[i], false);
    assert a[..] == s[i := a[i]];
  }

  /** mask & *ADDR itself: zero or the mask, so 1 only for the lowest bit of a byte. */
  method TestBit(a: array<Byte>, nr: nat) returns (r: nat)
    requires nr < 8 * a.Length
    ensures r == if Bits(a[..])[nr] then Mask(nr % 8) else 0
    ensures r == 1 <==> Bits(a[..])[nr] && nr % 8 == 0
  {
    r := if BitOf(a[nr / 8], nr % 8) then Mask(nr % 8) else 0;
  }

  lemma {:induction false} AllOnes(b: nat, n: nat, j: nat)
    requires b == Mask(n) - 1 && j < n
    ensures BitOf(b, j)
  {
    if j > 0 {
      assert b / 2 == Mask(n - 1) - 1;
      AllOnes(b / 2, n - 1, j - 1);
    }
  }

  lemma {:induction false} SomeZero(b: nat, n: nat) returns (j: nat)
    requires b < Mask(n) - 1
    ensures j < n && !BitOf(b, j)
  {
    if b % 2 == 0 {
      j := 0;
    } else {
      j := SomeZero(b / 2, n - 1);
      j := j + 1;
    }
  }

  /** All eight bits of one byte. */
  ghost predicate FullByte(s: seq<Byte>, i: nat)
    requires i < |s|
  {
    forall n :: 8 * i <= n < 8 * i + 8 ==> Bits(s)[n]
  }

  lemma FullByteIs255(s: seq<Byte>, i: nat)
    requires i < |s|
    ensures FullByte(s, i) <==> s[i] == 255
  {
    assert Mask(8) == 256 by { assert Mask(4) == 16; }
    if s[i] == 255 {
      forall n | 8 * i <= n < 8 * i + 8 ensures Bits(s)[n] {
        AllOnes(s[i], 8, n - 8 * i);
      }
    } else {
      var j := SomeZero(s[i], 8);
      assert !Bits(s)[8 * i + j];
    }
  }

  /** *p == 0xffffffff */
  method WordFull(a: array<Byte>, p: nat) returns (full: bool)
    requires p + 4 <= a.Length
    ensures full <==> forall n :: 8 * p <= n < 8 * p + 32 ==> Bits(a[..])[n]
  {
    hide Bits;
    full := a[p] == 255 && a[p + 1] == 255 && a[p + 2] == 255 && a[p + 3] == 255;
    FullByteIs255(a[..], p);
    FullByteIs255(a[..], p + 1);
    FullByteIs255(a[..], p + 2);
    FullByteIs255(a[..], p + 3);
    assert full <==> FullByte(a[..], p) && FullByte(a[..], p + 1) && FullByte(a[..], p + 2) && FullByte(a[..], p + 3);
  }

  /** The least clear bit, or NONE when all are set.  The source looks at the word past the end
      before it sees that it is past the end; here the test comes first. */
  method FindFirstZero(a: array<Byte>) returns (r: nat)
    requires a.Length % 4 == 0 && 8 * a.Length < NONE
    ensures r != NONE ==> r < 8 * a.Length && !Bits(a[..])[r]
    ensures forall n :: 0 <= n < r && n < 8 * a.Length ==> Bits(a[..])[n]
  {
    hide Bits;
    r := NONE;
    var p, block := 0, 0;
    var full := true;
    while p < a.Length && full
      invariant 0 <= p <= a.Length && p % 4 == 0 && block == 8 * p
      invariant forall n :: 0 <= n < block ==> Bits(a[..])[n]
      invariant !full ==> p < a.Length && exists n :: block <= n < block + 32 && !Bits(a[..])[n]
      decreases a.Length - p, full
    {
      full := WordFull(a, p);
      if full {
        p, block := p + 4, block + 32;
      }
    }
    if p >= a.Length {
      return;
    }
    var i := 0;
    while i < 32
      invariant 0 <= i <= 32
      invariant forall n :: 0 <= n < block + i ==> Bits(a[..])[n]
    {
      var t := TestBit(a, block + i);
      if t == 0 {
        return block + i;
      }
      i := i + 1;
    }
  }
}
