/** Which inode owns which block of a TFS volume.

    A volume is its two bitmaps and its inode table; inode number n is table index n - 1. */
module Ownership {
  const N_BLOCKS := 8

  /** The fields of an inode that the code acts on. */
  datatype Node = Node(mode: int, size: int, data: seq<int>)

  datatype Vol = Vol(area: int, count: int, used: seq<bool>, live: seq<bool>, nodes: seq<Node>)

  predicate Live(v: Vol, i: int) { 0 <= i < |v.nodes| && i < |v.live| && v.live[i] }

  predicate InArea(v: Vol, b: int) { v.area <= b < v.count }

  /** Pointer k of live inode i is b. */
  predicate Points(v: Vol, i: int, k: int, b: int) {
    Live(v, i) && 0 <= k < |v.nodes[i].data| && v.nodes[i].data[k] == b
  }

  /** The bits for metadata blocks, for blocks past the end and for inodes past the end are set, as
      mkfs leaves them. */
  predicate Reserved(v: Vol) {
    && 0 < v.area <= v.count <= |v.used| && |v.nodes| <= |v.live|
    && (forall b :: 0 <= b < |v.used| && !InArea(v, b) ==> v.used[b])
    && (forall i :: |v.nodes| <= i < |v.live| ==> v.live[i])
    && (forall i :: 0 <= i < |v.nodes| ==> |v.nodes[i].data| == N_BLOCKS)
  }

  ghost predicate PointersUsed(v: Vol)
    requires Reserved(v)
  {
    forall i, k, b :: Points(v, i, k, b) && b != 0 ==> InArea(v, b) && v.used[b]
  }

  ghost predicate Unshared(v: Vol) {
    forall i, k, j, l, b :: Points(v, i, k, b) && Points(v, j, l, b) && b != 0 ==> i == j && k == l
  }

  /** Every nonzero pointer has its bit set, and no block belongs to two inodes or two indexes. */
  ghost predicate Sound(v: Vol) {
    Reserved(v) && PointersUsed(v) && Unshared(v)
  }

  ghost predicate Owned(v: Vol, b: int) { exists i, k :: Points(v, i, k, b) }

  /** And nothing leaks: every used data block belongs to an inode. */
  ghost predicate Tight(v: Vol) {
    forall b :: InArea(v, b) && 0 <= b < |v.used| && v.used[b] ==> Owned(v, b)
  }

  // ----- the steps -----

  function WithPointer(v: Vol, i: nat, k: nat, b: int): Vol
    requires i < |v.nodes| && k < |v.nodes[i].data|
  {
    v.(nodes := v.nodes[i := v.nodes[i].(data := v.nodes[i].data[k := b])])
  }

  function Taken(v: Vol, b: nat): Vol
    requires b < |v.used|
  {
    v.(used := v.used[b := true])
  }

  lemma PointsAfter(v: Vol, i: nat, k: nat, b: int)
    requires Live(v, i) && k < |v.nodes[i].data|
    ensures forall j, l, c :: Points(WithPointer(v, i, k, b), j, l, c) <==>
      if j == i && l == k then c == b else Points(v, j, l, c)
  {}

  /** A free block becomes the pointer that was zero. */
  lemma TakeStep(v: Vol, i: nat, k: nat, b: nat)
    requires Sound(v) && Live(v, i) && k < N_BLOCKS && v.nodes[i].data[k] == 0
    requires b < |v.used| && !v.used[b]
    ensures var w := WithPointer(Taken(v, b), i, k, b);
      Sound(w) && (Tight(v) ==> Tight(w))
  {
    var t := Taken(v, b);
    var w := WithPointer(t, i, k, b);
    assert forall j, l, c :: Points(t, j, l, c) <==> Points(v, j, l, c);
    PointsAfter(t, i, k, b);
    if Tight(v) {
      forall c | InArea(w, c) && w.used[c] ensures Owned(w, c) {
        if c == b {
          assert Points(w, i, k, b);
        } else {
          var j, l :| Points(v, j, l, c);
          assert Points(w, j, l, c);
        }
      }
    }
  }

  /** A block that is taken and given to nobody is lost. */
  lemma LeakStep(v: Vol, b: nat)
    requires Sound(v) && b < |v.used| && !v.used[b]
    ensures Sound(Taken(v, b)) && !Tight(Taken(v, b))
  {
    var t := Taken(v, b);
    assert forall j, l, c :: Points(t, j, l, c) <==> Points(v, j, l, c);
    assert InArea(t, b) && t.used[b];
    assert !Owned(t, b);
  }

  /** A pointer to no block of the volume breaks ownership. */
  lemma AstrayStep(v: Vol, i: nat, k: nat, b: int)
    requires Sound(v) && Live(v, i) && k < N_BLOCKS && b != 0 && !InArea(v, b)
    ensures !Sound(WithPointer(v, i, k, b))
  {
    PointsAfter(v, i, k, b);
    assert Points(WithPointer(v, i, k, b), i, k, b);
  }

  function Resized(v: Vol, i: nat, mode: int, size: int): Vol
    requires i < |v.nodes|
  {
    v.(nodes := v.nodes[i := v.nodes[i].(mode := mode, size := size)])
  }

  lemma ResizeStep(v: Vol, i: nat, mode: int, size: int)
    requires Sound(v) && i < |v.nodes|
    ensures Sound(Resized(v, i, mode, size)) && (Tight(v) ==> Tight(Resized(v, i, mode, size)))
  {
    var w := Resized(v, i, mode, size);
    assert forall j, l, c :: Points(w, j, l, c) <==> Points(v, j, l, c);
    if Tight(v) {
      forall c | InArea(w, c) && w.used[c] ensures Owned(w, c) {
        var j, l :| Points(v, j, l, c);
        assert Points(w, j, l, c);
      }
    }
  }

  const ZEROS: seq<int> := [0, 0, 0, 0, 0, 0, 0, 0]

  /** A fresh inode has no blocks. */
  function Born(v: Vol, i: nat, mode: int): Vol
    requires i < |v.nodes| && i < |v.live|
  {
    v.(live := v.live[i := true], nodes := v.nodes[i := Node(mode, 0, ZEROS)])
  }

  lemma BornStep(v: Vol, i: nat, mode: int)
    requires Sound(v) && i < |v.nodes| && !v.live[i]
    ensures Sound(Born(v, i, mode)) && (Tight(v) ==> Tight(Born(v, i, mode)))
  {
    var w := Born(v, i, mode);
    assert forall j, l, c :: Points(w, j, l, c) && c != 0 <==> Points(v, j, l, c) && c != 0;
    if Tight(v) {
      forall c | InArea(w, c) && w.used[c] ensures Owned(w, c) {
        var j, l :| Points(v, j, l, c);
        assert Points(w, j, l, c);
      }
    }
  }

  // ----- release -----

  /** The pointers before the first zero one: what the release loop walks. */
  function Run(data: seq<int>): (n: nat)
    ensures n <= |data| && (n < |data| ==> data[n] == 0)
    ensures forall k :: 0 <= k < n ==> data[k] != 0
  {
    if data == [] || data[0] == 0 then 0 else 1 + Run(data[1..])
  }

  predicate Prefix(data: seq<int>) {
    forall k :: Run(data) <= k < |data| ==> data[k] == 0
  }

  /** Bitmap u without the blocks of data[..n]. */
  ghost predicate Without(u: seq<bool>, was: seq<bool>, data: seq<int>, n: nat)
    requires n <= |data|
  {
    && |u| == |was|
    && forall b :: 0 <= b < |u| ==> u[b] == (was[b] && b !in data[..n])
  }

  function Dropped(v: Vol, i: nat, u: seq<bool>): Vol
    requires i < |v.live|
  {
    v.(live := v.live[i := false], used := u)
  }

  /** Releasing an inode keeps ownership, and leaks nothing exactly when its pointers form a prefix. */
  lemma ReleaseStep(v: Vol, i: nat, u: seq<bool>)
    requires Sound(v) && Live(v, i)
    requires var data := v.nodes[i].data; Without(u, v.used, data, Run(data))
    ensures Sound(Dropped(v, i, u))
    ensures Tight(v) ==> (Tight(Dropped(v, i, u)) <==> Prefix(v.nodes[i].data))
  {
    var data := v.nodes[i].data;
    var n := Run(data);
    var w := Dropped(v, i, u);
    assert forall j, l, c :: Points(w, j, l, c) <==> Points(v, j, l, c) && j != i;
    forall j, l, c | Points(w, j, l, c) && c != 0 ensures InArea(w, c) && w.used[c] {
      assert Points(v, j, l, c);
      forall m | 0 <= m < n ensures data[m] != c { assert Points(v, i, m, data[m]); }
    }
    forall b | 0 <= b < |w.used| && !InArea(w, b) ensures w.used[b] {
      forall m | 0 <= m < n ensures data[m] != b { assert Points(v, i, m, data[m]); }
    }
    if Tight(v) {
      if Prefix(data) {
        StillTight(v, i, u);
      } else {
        var k :| n <= k < |data| && data[k] != 0;
        assert Points(v, i, k, data[k]);
        forall m | 0 <= m < n ensures data[m] != data[k] { assert Points(v, i, m, data[m]); }
        assert InArea(w, data[k]) && w.used[data[k]];
        assert !Owned(w, data[k]);
      }
    }
  }

  lemma StillTight(v: Vol, i: nat, u: seq<bool>)
    requires Sound(v) && Live(v, i) && Tight(v) && Prefix(v.nodes[i].data)
    requires var data := v.nodes[i].data; Without(u, v.used, data, Run(data))
    requires Reserved(Dropped(v, i, u))
    ensures Tight(Dropped(v, i, u))
  {
    var data := v.nodes[i].data;
    var w := Dropped(v, i, u);
    assert forall l :: 0 <= l < Run(data) ==> data[..Run(data)][l] == data[l];
    forall c | InArea(w, c) && w.used[c] ensures Owned(w, c) {
      var j, l :| Points(v, j, l, c);
      assert j != i;
      assert Points(w, j, l, c);
    }
  }
}
