/** Bytes, and copying them into a buffer. */
module Bytes {
  type Byte = b: int | 0 <= b < 256

  function Splice<T>(s: seq<T>, at: nat, part: seq<T>): (r: seq<T>)
    requires at + |part| <= |s|
    ensures |r| == |s|
  {
    s[..at] + part + s[at + |part|..]
  }

  lemma SubSlice<T>(s: seq<T>, at: nat, n: nat, o: nat, m: nat)
    requires at + n <= |s| && o + m <= n
    ensures s[at..at + n][o..o + m] == s[at + o..at + o + m]
  {
    var l, r := s[at..at + n][o..o + m], s[at + o..at + o + m];
    forall i | 0 <= i < m ensures l[i] == r[i] {}
  }

  lemma SpliceNothing<T>(s: seq<T>, at: nat)
    requires at <= |s|
    ensures Splice(s, at, []) == s
  {}

  lemma SplicePart<T>(s: seq<T>, at: nat, part: seq<T>)
    requires at + |part| <= |s|
    ensures Splice(s, at, part)[at..at + |part|] == part
  {}

  lemma SpliceKeeps<T>(s: seq<T>, at: nat, part: seq<T>, k: nat)
    requires at + |part| <= k < |s|
    ensures Splice(s, at, part)[k] == s[k]
  {}

  lemma SpliceJoin<T>(s: seq<T>, at: nat, a: seq<T>, b: seq<T>)
    requires at + |a| + |b| <= |s|
    ensures Splice(Splice(s, at, a), at + |a|, b) == Splice(s, at, a + b)
  {}

  lemma SplicePush<T>(s: seq<T>, at: nat, part: seq<T>, v: T)
    requires at + |part| < |s|
    ensures Splice(s, at, part)[at + |part| := v] == Splice(s, at, part + [v])
  {}

  /** memcpy into part of a buffer. */
  method CopyInto(dest: array<Byte>, at: nat, src: seq<Byte>)
    requires at + |src| <= dest.Length
    modifies dest
    ensures dest[..] == Splice(old(dest[..]), at, src)
  {
    var i := 0;
    while i < |src|
      invariant 0 <= i <= |src|
      invariant dest[..] == Splice(old(dest[..]), at, src[..i])
    {
      SplicePush(old(dest[..]), at, src[..i], src[i]);
      assert src[..i + 1] == src[..i] + [src[i]];
      dest[at + i] := src[i];
      i := i + 1;
    }
    assert src[..i] == src;
  }

  /** memcpy or memmove within a buffer, byte by byte upwards, to a lower place. */
  method MoveDown(a: array<Byte>, to: nat, from: nat, n: nat)
    requires to <= from && from + n <= a.Length
    modifies a
    ensures a[..] == Splice(old(a[..]), to, old(a[..])[from..from + n])
  {
    hide Splice;
    ghost var was := a[..];
    ghost var part := was[from..from + n];
    var i := 0;
    SpliceNothing(was, to);
    while i < n
      invariant 0 <= i <= n
      invariant a[..] == Splice(was, to, part[..i])
    {
      SpliceKeeps(was, to, part[..i], from + i);
      SplicePush(was, to, part[..i], part[i]);
      assert part[..i + 1] == part[..i] + [part[i]];
      assert a[from + i] == a[..][from + i];
      a[to + i] := a[from + i];
      i := i + 1;
    }
    assert part[..i] == part;
  }

  lemma SpliceInside<T>(s: seq<T>, at: nat, part: seq<T>)
    requires at + |part| <= |s|
    ensures Splice(s, at, part)[at..at + |part|] == part
  {}

  lemma SpliceWithin<T>(s: seq<T>, at: nat, part: seq<T>, o: nat, n: nat)
    requires at + |part| <= |s| && o + n <= |part|
    ensures Splice(s, at, part)[at + o..at + o + n] == part[o..o + n]
  {}

  lemma SpliceOutside<T>(s: seq<T>, at: nat, part: seq<T>, lo: nat, hi: nat)
    requires at + |part| <= |s| && lo <= hi <= |s|
    requires hi <= at || at + |part| <= lo
    ensures Splice(s, at, part)[lo..hi] == s[lo..hi]
  {}

  /** A part, and then a shorter one at the same place. */
  lemma SpliceTwice<T>(s: seq<T>, at: nat, part: seq<T>, front: seq<T>)
    requires at + |part| <= |s| && |front| <= |part|
    ensures var r := Splice(Splice(s, at, part), at, front);
      && r[..at] == s[..at] && r[at..at + |front|] == front
      && r[at + |front|..at + |part|] == part[|front|..] && r[at + |part|..] == s[at + |part|..]
  {
    hide Splice;
    var mid := Splice(s, at, part);
    var r, n := Splice(mid, at, front), at + |part|;
    SpliceInside(mid, at, front);
    SpliceOutside(mid, at, front, 0, at);
    SpliceOutside(s, at, part, 0, at);
    assert r[..at] == r[0..at] && s[..at] == s[0..at];
    SpliceOutside(mid, at, front, at + |front|, n);
    SpliceWithin(s, at, part, |front|, |part| - |front|);
    SpliceOutside(mid, at, front, n, |s|);
    SpliceOutside(s, at, part, n, |s|);
    assert r[n..] == r[n..|s|] && s[n..] == s[n..|s|];
  }
}
