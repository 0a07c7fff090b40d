/** What fs/cache.c promises about which blocks are in memory, apart from pointers.

    The ring is a sequence of entries, least recently used first; each pairs a slot with
    the block number it is tagged with. */
module Lru {
  /** block = -1 in an unsigned 32-bit tag: a slot never used. */
  const EMPTY := 0xffff_ffff

  datatype Entry<S> = Entry(slot: S, tag: int)

  /** The last position holding b, or -1. */
  function Find<S>(es: seq<Entry<S>>, b: int): (i: int)
    ensures -1 <= i < |es|
    ensures i >= 0 ==> es[i].tag == b
    ensures forall j :: i < j < |es| ==> es[j].tag != b
  {
    if es == [] then -1
    else if es[|es| - 1].tag == b then |es| - 1
    else Find(es[..|es| - 1], b)
  }

  /** A successful request: the entry found, or else the oldest slot retagged, moves to the back. */
  function Touch<S>(es: seq<Entry<S>>, b: int): seq<Entry<S>>
    requires |es| > 0
  {
    var i := Find(es, b);
    if i >= 0 then Moved(es, i) else es[1..] + [Entry(es[0].slot, b)]
  }

  function TouchAll<S>(es: seq<Entry<S>>, trace: seq<int>): (r: seq<Entry<S>>)
    requires |es| > 0
    ensures |r| == |es|
    decreases |trace|
  {
    if trace == [] then es else Touch(TouchAll(es, trace[..|trace| - 1]), trace[|trace| - 1])
  }

  function Tags<S>(es: seq<Entry<S>>): seq<int> {
    seq(|es|, i requires 0 <= i < |es| => es[i].tag)
  }

  // ----- the reference: distinct blocks of a trace in order of last use -----

  /** The last time b was requested. */
  function LastUse(trace: seq<int>, b: int): (i: nat)
    requires b in trace
    ensures i < |trace| && trace[i] == b && forall j :: i < j < |trace| ==> trace[j] != b
  {
    if trace[|trace| - 1] == b then |trace| - 1 else LastUse(trace[..|trace| - 1], b)
  }

  /** r runs through blocks of the trace, each used later than the one before. */
  ghost predicate InOrder(trace: seq<int>, r: seq<int>) {
    && (forall i :: 0 <= i < |r| ==> r[i] in trace)
    && (forall i, j :: 0 <= i < j < |r| ==> LastUse(trace, r[i]) < LastUse(trace, r[j]))
  }

  /** r lists every block of the trace, once, in order of last use. */
  ghost predicate ByLastUse(trace: seq<int>, r: seq<int>) {
    InOrder(trace, r) && forall b :: b in trace ==> b in r
  }

  function Without(r: seq<int>, b: int): seq<int> {
    if r == [] then []
    else
      var w := Without(r[..|r| - 1], b);
      if r[|r| - 1] == b then w else w + [r[|r| - 1]]
  }

  lemma {:induction false} WithoutMembers(r: seq<int>, b: int, x: int)
    ensures x in Without(r, b) <==> x in r && x != b
  {
    if r != [] {
      WithoutMembers(r[..|r| - 1], b, x);
      assert r == r[..|r| - 1] + [r[|r| - 1]];
    }
  }

  function Recent(trace: seq<int>): seq<int> {
    if trace == [] then []
    else Without(Recent(trace[..|trace| - 1]), trace[|trace| - 1]) + [trace[|trace| - 1]]
  }

  /** Dropping one block keeps the others in order. */
  lemma {:induction false} WithoutKeepsOrder(trace: seq<int>, r: seq<int>, b: int)
    requires InOrder(trace, r)
    ensures InOrder(trace, Without(r, b))
  {
    if r != [] {
      var t, e := r[..|r| - 1], r[|r| - 1];
      WithoutKeepsOrder(trace, t, b);
      forall x | x in Without(t, b) ensures x in trace && LastUse(trace, x) < LastUse(trace, e) {
        WithoutMembers(t, b, x);
        InOrderBefore(trace, r, x);
      }
      InOrderAppend(trace, Without(t, b), e);
    }
  }

  lemma InOrderAppend(trace: seq<int>, w: seq<int>, e: int)
    requires InOrder(trace, w) && e in trace
    requires forall x :: x in w ==> x in trace && LastUse(trace, x) < LastUse(trace, e)
    ensures InOrder(trace, w + [e])
  {}

  lemma InOrderBefore(trace: seq<int>, r: seq<int>, x: int)
    requires InOrder(trace, r) && |r| > 0 && x in r[..|r| - 1]
    ensures x in trace && LastUse(trace, x) < LastUse(trace, r[|r| - 1])
  {}

  /** A later request of b moves b alone. */
  lemma InOrderExtends(trace: seq<int>, r: seq<int>, b: int)
    requires InOrder(trace, r) && b !in r
    ensures InOrder(trace + [b], r + [b])
  {}

  lemma {:induction false} RecentIsByLastUse(trace: seq<int>)
    ensures ByLastUse(trace, Recent(trace))
  {
    if trace != [] {
      var t, b := trace[..|trace| - 1], trace[|trace| - 1];
      RecentIsByLastUse(t);
      WithoutKeepsOrder(t, Recent(t), b);
      assert trace == t + [b];
      WithoutMembers(Recent(t), b, b);
      InOrderExtends(t, Without(Recent(t), b), b);
      forall x | x in trace ensures x in Recent(trace) {
        WithoutMembers(Recent(t), b, x);
        assert x in t || x == b;
      }
    }
  }

  // ----- the cache holds the n most recent blocks -----

  function Unused(n: nat): seq<int> {
    seq(n, _ => EMPTY)
  }

  /** The last n of r, with unused slots in front if there are fewer. */
  function LastN(r: seq<int>, n: nat): (t: seq<int>)
    ensures |t| == n
  {
    seq(n, i => if 0 <= i + |r| - n < |r| then r[i + |r| - n] else EMPTY)
  }

  function TouchTags(t: seq<int>, b: int): seq<int>
    requires |t| > 0
  {
    if b in t then Without(t, b) + [b] else t[1..] + [b]
  }

  lemma {:induction false} WithoutAt(r: seq<int>, i: nat)
    requires i < |r| && forall j :: 0 <= j < |r| && j != i ==> r[j] != r[i]
    ensures Without(r, r[i]) == r[..i] + r[i + 1..]
  {
    var n := |r| - 1;
    if i == n {
      WithoutAbsent(r[..n], r[n]);
    } else {
      WithoutAt(r[..n], i);
      assert r[i + 1..] == r[..n][i + 1..] + [r[n]];
    }
  }

  lemma {:induction false} WithoutAbsent(r: seq<int>, b: int)
    requires b !in r
    ensures Without(r, b) == r
  {
    if r != [] { WithoutAbsent(r[..|r| - 1], b); }
  }

  /** No block is in two slots. */
  ghost predicate DistinctTags(t: seq<int>) {
    forall i, j :: 0 <= i < j < |t| && t[i] == t[j] ==> t[i] == EMPTY
  }

  function Moved<T>(s: seq<T>, i: nat): seq<T>
    requires i < |s|
  {
    s[..i] + s[i + 1..] + [s[i]]
  }

  lemma TagsMoved<S>(es: seq<Entry<S>>, i: nat)
    requires i < |es|
    ensures Tags(Moved(es, i)) == Moved(Tags(es), i)
  {}

  lemma TagsShifted<S>(es: seq<Entry<S>>, s: S, b: int)
    requires |es| > 0
    ensures Tags(es[1..] + [Entry(s, b)]) == Tags(es)[1..] + [b]
  {}

  lemma TagsAfterTouch<S>(es: seq<Entry<S>>, b: int)
    requires |es| > 0
    ensures var t, i := Tags(es), Find(es, b);
      Tags(Touch(es, b)) == if i >= 0 then Moved(t, i) else t[1..] + [b]
  {
    var i := Find(es, b);
    if i >= 0 { TagsMoved(es, i); } else { TagsShifted(es, es[0].slot, b); }
  }

  lemma TouchIsOnTags<S>(es: seq<Entry<S>>, b: int)
    requires |es| > 0 && b != EMPTY && DistinctTags(Tags(es))
    ensures Tags(Touch(es, b)) == TouchTags(Tags(es), b)
  {
    var t := Tags(es);
    var i := Find(es, b);
    TagsAfterTouch(es, b);
    if i >= 0 {
      assert t[i] == b;
      WithoutAt(t, i);
    } else {
      assert forall k :: 0 <= k < |t| ==> t[k] == es[k].tag;
      assert b !in t;
    }
  }

  lemma MovedDistinct(t: seq<int>, i: nat)
    requires DistinctTags(t) && i < |t|
    ensures DistinctTags(Moved(t, i))
  {}

  lemma TouchKeepsDistinct(t: seq<int>, b: int)
    requires |t| > 0 && b != EMPTY && DistinctTags(t)
    ensures DistinctTags(TouchTags(t, b))
  {
    if b in t {
      var i :| 0 <= i < |t| && t[i] == b;
      WithoutAt(t, i);
      MovedDistinct(t, i);
    }
  }

  lemma {:induction false} RecentIsDistinct(trace: seq<int>)
    ensures forall i, j :: 0 <= i < j < |Recent(trace)| ==> Recent(trace)[i] != Recent(trace)[j]
  {
    RecentIsByLastUse(trace);
    var r := Recent(trace);
    forall i, j | 0 <= i < j < |r| ensures r[i] != r[j] {
      assert LastUse(trace, r[i]) < LastUse(trace, r[j]);
    }
  }

  lemma LastNTouches(r: seq<int>, n: nat, b: int)
    requires n > 0 && b != EMPTY
    requires forall i, j :: 0 <= i < j < |r| ==> r[i] != r[j]
    ensures LastN(Without(r, b) + [b], n) == TouchTags(LastN(r, n), b)
  {
    hide LastN, Without;
    if b in r {
      var k :| 0 <= k < |r| && r[k] == b;
      WithoutAt(r, k);
      if k + n >= |r| {
        LastNMovesOne(r, n, k);
      } else {
        LastNMovesNew(r, n, k);
      }
    } else {
      WithoutAbsent(r, b);
      LastNShifts(r, n, b);
    }
  }

  lemma LastNShifts(r: seq<int>, n: nat, b: int)
    requires n > 0
    ensures LastN(r + [b], n) == LastN(r, n)[1..] + [b]
    ensures b !in r && b != EMPTY ==> b !in LastN(r, n)
  {}

  /** The block is one of the last n. */
  lemma LastNMovesOne(r: seq<int>, n: nat, k: nat)
    requires n > 0 && k < |r| <= k + n && r[k] != EMPTY
    requires forall i, j :: 0 <= i < j < |r| ==> r[i] != r[j]
    ensures LastN(r[..k] + r[k + 1..] + [r[k]], n) == TouchTags(LastN(r, n), r[k])
  {
    var t, i := LastN(r, n), k + n - |r|;
    assert t[i] == r[k];
    assert forall j :: 0 <= j < n && j != i ==> t[j] != r[k];
    assert LastN(r[..k] + r[k + 1..] + [r[k]], n) == t[..i] + t[i + 1..] + [r[k]];
    hide LastN;
    WithoutAt(t, i);
  }

  /** It is not. */
  lemma LastNMovesNew(r: seq<int>, n: nat, k: nat)
    requires n > 0 && k + n < |r| && r[k] != EMPTY
    requires forall i, j :: 0 <= i < j < |r| ==> r[i] != r[j]
    ensures LastN(r[..k] + r[k + 1..] + [r[k]], n) == TouchTags(LastN(r, n), r[k])
  {
    var t := LastN(r, n);
    assert r[k] !in t;
    assert LastN(r[..k] + r[k + 1..] + [r[k]], n) == t[1..] + [r[k]];
  }

  /** After any trace of successful requests, starting from unused slots, the tags are the n
      most recently used distinct blocks, oldest first. */
  lemma {:induction false} CacheHoldsMostRecent<S>(es: seq<Entry<S>>, trace: seq<int>)
    requires |es| > 0 && Tags(es) == Unused(|es|) && EMPTY !in trace
    ensures Tags(TouchAll(es, trace)) == LastN(Recent(trace), |es|)
    ensures DistinctTags(Tags(TouchAll(es, trace)))
    decreases |trace|
  {
    if trace != [] {
      var t, b := trace[..|trace| - 1], trace[|trace| - 1];
      CacheHoldsMostRecent(es, t);
      TouchIsOnTags(TouchAll(es, t), b);
      TouchKeepsDistinct(Tags(TouchAll(es, t)), b);
      RecentIsDistinct(t);
      LastNTouches(Recent(t), |es|, b);
    } else {
      assert LastN([], |es|) == Unused(|es|);
      assert TouchAll(es, []) == es;
    }
  }

  lemma LastNGrows(r: seq<int>, n: nat, m: nat, b: int)
    requires n <= m && b in LastN(r, n)
    ensures b in LastN(r, m) || b == EMPTY
  {
    var i :| 0 <= i < n && LastN(r, n)[i] == b;
    if i + |r| >= n { assert LastN(r, m)[i + m - n] == r[i + |r| - n] == b; }
  }

  /** A larger cache holds everything a smaller one does. */
  lemma LargerCacheHoldsMore<S, T>(small: seq<Entry<S>>, large: seq<Entry<T>>, trace: seq<int>, b: int)
    requires 0 < |small| <= |large| && EMPTY !in trace
    requires Tags(small) == Unused(|small|) && Tags(large) == Unused(|large|)
    requires b in Tags(TouchAll(small, trace)) && b != EMPTY
    ensures b in Tags(TouchAll(large, trace))
  {
    CacheHoldsMostRecent(small, trace);
    CacheHoldsMostRecent(large, trace);
    LastNGrows(Recent(trace), |small|, |large|, b);
  }

  // ----- how long a returned slot stays put -----

  function BlocksIn(trace: seq<int>): set<int> {
    set x | x in trace
  }

  /** t lists the elements of a set, each once. */
  ghost predicate Lists(t: seq<int>, since: set<int>) {
    && (forall x :: x in t <==> x in since)
    && (forall i, j :: 0 <= i < j < |t| ==> t[i] != t[j])
  }

  lemma {:induction false} ListsCount(t: seq<int>, since: set<int>)
    requires Lists(t, since)
    ensures |t| == |since|
  {
    if t == [] {
      assert since == {} by { forall x ensures x !in since { assert x !in t; } }
    } else {
      var u, x := t[..|t| - 1], t[|t| - 1];
      forall y ensures y in u <==> y in since - {x} {
        if y in u { var k :| 0 <= k < |u| && u[k] == y; assert t[k] == y; }
        if y in since - {x} { assert y in t; }
      }
      ListsCount(u, since - {x});
    }
  }

  lemma ListsMoves(t: seq<int>, since: set<int>, c: int)
    requires Lists(t, since)
    ensures Lists(Without(t, c) + [c], since + {c})
  {
    var w := Without(t, c);
    if c in t {
      var i :| 0 <= i < |t| && t[i] == c;
      WithoutAt(t, i);
    } else {
      WithoutAbsent(t, c);
    }
    assert c !in w;
  }

  /** The tags behind the last b in the ring: the blocks used since b was. */
  function UsedSince(t: seq<int>, b: int): seq<int> {
    if t == [] || t[|t| - 1] == b then [] else UsedSince(t[..|t| - 1], b) + [t[|t| - 1]]
  }

  lemma {:induction false} UsedSinceWithout(t: seq<int>, b: int, c: int)
    requires b != c
    ensures UsedSince(Without(t, c), b) == Without(UsedSince(t, b), c)
  {
    if t != [] {
      var u, x := t[..|t| - 1], t[|t| - 1];
      UsedSinceWithout(u, b, c);
      if x == b {
        assert (Without(u, c) + [x])[..|Without(u, c)|] == Without(u, c);
      } else {
        assert (UsedSince(u, b) + [x])[..|UsedSince(u, b)|] == UsedSince(u, b);
        if x != c { assert (Without(u, c) + [x])[..|Without(u, c)|] == Without(u, c); }
      }
    }
  }

  lemma {:induction false} UsedSinceTail(t: seq<int>, b: int)
    requires b in t
    ensures b in t[1..] ==> UsedSince(t[1..], b) == UsedSince(t, b)
    ensures b !in t[1..] ==> UsedSince(t, b) == t[1..]
  {
    var u, x := t[..|t| - 1], t[|t| - 1];
    assert t == u + [x];
    if x != b {
      UsedSinceTail(u, b);
      assert t[1..] == u[1..] + [x];
      assert (u[1..] + [x])[..|u[1..]|] == u[1..];
    } else if |t| > 1 {
      assert t[1..][|t| - 2] == b;
    }
  }

  /** What a request of another block does: b keeps its slot and c joins the blocks behind
      it, unless b was the oldest and c is new. */
  lemma TouchUsedSince(t: seq<int>, b: int, c: int)
    requires b in t && c != b
    ensures c in t || b in t[1..] ==>
      b in TouchTags(t, c) && UsedSince(TouchTags(t, c), b) == Without(UsedSince(t, b), c) + [c]
    ensures c !in t && b !in t[1..] ==>
      b !in TouchTags(t, c) && UsedSince(t, b) == t[1..]
  {
    UsedSinceTail(t, b);
    if c in t {
      WithoutMembers(t, c, b);
      UsedSinceWithout(t, b, c);
      assert (Without(t, c) + [c])[..|Without(t, c)|] == Without(t, c);
    } else {
      assert (t[1..] + [c])[..|t[1..]|] == t[1..];
      if b in t[1..] {
        UsedSinceMembers(t, b, c);
        WithoutAbsent(UsedSince(t, b), c);
      }
    }
  }

  lemma {:induction false} UsedSinceMembers(t: seq<int>, b: int, x: int)
    ensures x in UsedSince(t, b) ==> x in t && x != b
  {
    if t != [] {
      UsedSinceMembers(t[..|t| - 1], b, x);
      assert t == t[..|t| - 1] + [t[|t| - 1]];
    }
  }

  /** Slot s is tagged b, and the blocks used since are exactly `since`. */
  ghost predicate Pinned<S>(es: seq<Entry<S>>, s: S, b: int, since: set<int>) {
    Entry(s, b) in es && Lists(UsedSince(Tags(es), b), since)
  }

  lemma EntryHasTag<S>(es: seq<Entry<S>>, s: S, b: int)
    requires Entry(s, b) in es
    ensures b in Tags(es)
  {
    var i :| 0 <= i < |es| && es[i] == Entry(s, b);
    assert Tags(es)[i] == b;
  }

  lemma EntrySurvives<S>(es: seq<Entry<S>>, s: S, b: int, c: int)
    requires Entry(s, b) in es && c != b && b in Tags(Touch(es, c))
    requires DistinctTags(Tags(es)) && b != EMPTY
    ensures Entry(s, b) in Touch(es, c)
  {
    var i :| 0 <= i < |es| && es[i] == Entry(s, b);
    var k := Find(es, c);
    if k >= 0 {
      MovedAt(es, k, i);
    } else {
      EntrySurvivesShift(es, s, b, c, i);
    }
  }

  lemma MovedAt<T>(s: seq<T>, i: nat, at: nat)
    requires i < |s| && at < |s| && i != at
    ensures s[at] in Moved(s, i)
  {}

  lemma EntrySurvivesShift<S>(es: seq<Entry<S>>, s: S, b: int, c: int, i: nat)
    requires i < |es| && es[i] == Entry(s, b) && c != b && b != EMPTY && DistinctTags(Tags(es))
    requires b in Tags(es[1..] + [Entry(es[0].slot, c)])
    ensures Entry(s, b) in es[1..] + [Entry(es[0].slot, c)]
  {
    var r := es[1..] + [Entry(es[0].slot, c)];
    var k :| 0 <= k < |r| && Tags(r)[k] == b;
    assert r[k] == es[k + 1];
    assert Tags(es)[k + 1] == b && Tags(es)[i] == b;
    assert k + 1 == i;
  }

  /** A slot just returned for b keeps b for as long as fewer than n other blocks have been
      requested, and loses it at the n-th. */
  lemma {:induction false} StaysUntilNOthers<S>(es: seq<Entry<S>>, s: S, b: int, trace: seq<int>)
    requires |es| > 0 && es[|es| - 1] == Entry(s, b) && b != EMPTY && DistinctTags(Tags(es))
    requires b !in trace && EMPTY !in trace
    ensures DistinctTags(Tags(TouchAll(es, trace)))
    ensures if |BlocksIn(trace)| < |es| then Pinned(TouchAll(es, trace), s, b, BlocksIn(trace))
            else b !in Tags(TouchAll(es, trace))
    decreases |trace|
  {
    if trace == [] {
      assert UsedSince(Tags(es), b) == [];
    } else {
      var t, c := trace[..|trace| - 1], trace[|trace| - 1];
      assert trace == t + [c];
      assert c in trace && BlocksIn(trace) == BlocksIn(t) + {c};
      StaysUntilNOthers(es, s, b, t);
      var now := TouchAll(es, t);
      TouchIsOnTags(now, c);
      TouchKeepsDistinct(Tags(now), c);
      if |BlocksIn(t)| < |es| {
        PinnedOneMore(now, s, b, BlocksIn(t), c);
      } else {
        WithoutMembers(Tags(now), c, b);
        assert c in BlocksIn(t) ==> BlocksIn(trace) == BlocksIn(t);
      }
    }
  }

  lemma PinnedOneMore<S>(es: seq<Entry<S>>, s: S, b: int, since: set<int>, c: int)
    requires Pinned(es, s, b, since) && DistinctTags(Tags(es)) && b != EMPTY && c != EMPTY && c != b
    ensures if |since + {c}| < |es| then Pinned(Touch(es, c), s, b, since + {c})
            else b !in Tags(Touch(es, c))
  {
    hide Touch, TouchTags, Without, UsedSince, DistinctTags, Find, Tags;
    var t := Tags(es);
    EntryHasTag(es, s, b);
    TouchIsOnTags(es, c);
    TouchUsedSince(t, b, c);
    ListsCount(UsedSince(t, b), since);
    TagsLength(es, c);
    if c in t || b in t[1..] {
      ListsMoves(UsedSince(t, b), since, c);
      ListsCount(UsedSince(TouchTags(t, c), b), since + {c});
      UsedSinceShorter(TouchTags(t, c), b);
      EntrySurvives(es, s, b, c);
    } else {
      UsedSinceMembers(t, b, c);
      NotListed(UsedSince(t, b), since, c);
    }
  }

  lemma TagsLength<S>(es: seq<Entry<S>>, c: int)
    requires es != []
    ensures |Tags(es)| == |es| && |Tags(Touch(es, c))| == |Touch(es, c)| == |es|
  {}

  lemma NotListed(t: seq<int>, since: set<int>, c: int)
    requires Lists(t, since) && c !in t
    ensures |since + {c}| == |since| + 1
  {}

  lemma {:induction false} UsedSinceShorter(t: seq<int>, b: int)
    requires b in t
    ensures |UsedSince(t, b)| < |t|
  {
    if t[|t| - 1] != b {
      assert t == t[..|t| - 1] + [t[|t| - 1]];
      UsedSinceShorter(t[..|t| - 1], b);
    }
  }
}
