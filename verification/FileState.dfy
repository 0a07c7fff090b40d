/** What writing blocks into a file does to the volume and to the file's bytes. */
module FileState {
  import opened Bytes
  import opened Ownership
  import opened Contents
  import opened DirStore
  import opened TfsState

  /** A number of blocks in bytes. */
  function Times(k: int, size: int): int { k * size }

  /** All the bytes in an inode's blocks, beyond its size too. */
  function Whole(s: State, i: int): seq<Byte> {
    if 0 <= i < |s.v.nodes| && Mapped(s.disk, Data(s, i), Run(Data(s, i)))
    then Content(s.disk, Data(s, i), Run(Data(s, i))) else []
  }

  ghost predicate IsFile(s: State, i: int) { Live(s.v, i) && s.v.nodes[i].mode != DIR }

  /** Steps on file i alone, which lose no block. */
  ghost predicate Later(s: State, s': State, i: int) {
    Untouched(s, s', i) && (Tight(s.v) ==> Tight(s'.v))
  }

  lemma LaterSame(s: State, i: int)
    ensures Later(s, s, i)
  {}

  lemma LaterTwice(s: State, s1: State, s2: State, i: int)
    requires Later(s, s1, i) && Later(s1, s2, i)
    ensures Later(s, s2, i)
  {
    StepsOnOne(s, s1, s2, i);
  }

  // ----- a new block -----

  function WithBlock(s: State, i: nat, k: nat, b: nat): State
    requires i < |s.v.nodes| && k < |Data(s, i)| && b < |s.v.used|
  {
    s.(v := WithPointer(Ownership.Taken(s.v, b), i, k, b))
  }

  /** Block b, with whatever it holds, becomes the end of the file. */
  lemma Grow(s: State, size: nat, i: nat, b: nat)
    requires Good(s, size) && IsFile(s, i) && Prefix(Data(s, i)) && Run(Data(s, i)) < N_BLOCKS
    requires b < |s.v.used| && !s.v.used[b]
    ensures b < |s.disk| && b != 0
    ensures var n, s' := Run(Data(s, i)), WithBlock(s, i, Run(Data(s, i)), b);
      && Good(s', size) && IsFile(s', i) && Later(s, s', i)
      && Prefix(Data(s', i)) && Run(Data(s', i)) == n + 1
      && Whole(s', i) == Whole(s, i) + s.disk[b]
  {
    assert InArea(s.v, b);
    PointersGood(s, size, i);
    var n, data := Run(Data(s, i)), Data(s, i);
    var s' := WithBlock(s, i, n, b);
    TakeStep(s.v, i, n, b);
    RunGrows(data, b);
    Elsewhere(s, s', size, i, []);
    ContentFrame(s.disk, s.disk, data, data[n := b], n);
    GoodStep(s, s', size, i);
  }

  // ----- the inode in memory ahead of the table -----

  /** More blocks behind the same. */
  predicate Grown(d: seq<int>, d': seq<int>) {
    |d| == |d'| && Run(d) <= Run(d') && d'[..Run(d)] == d[..Run(d)]
  }

  lemma GrownSame(d: seq<int>)
    ensures Grown(d, d)
  {}

  lemma GrownTwice(d: seq<int>, d1: seq<int>, d2: seq<int>)
    requires Grown(d, d1) && Grown(d1, d2)
    ensures Grown(d, d2)
  {
    hide Run;
    assert d2[..Run(d)] == d2[..Run(d1)][..Run(d)] && d1[..Run(d)] == d1[..Run(d1)][..Run(d)];
  }

  lemma GrownByOne(d: seq<int>, b: int)
    requires Prefix(d) && Run(d) < |d| && b != 0
    ensures Grown(d, d[Run(d) := b])
  {
    RunGrows(d, b);
  }

  /** Two prefixes of the same length are the same pointers. */
  lemma SamePointers(d: seq<int>, d': seq<int>)
    requires Prefix(d) && Prefix(d') && Grown(d, d') && Run(d) == Run(d')
    ensures d == d'
  {
    forall k | 0 <= k < |d| ensures d[k] == d'[k] {
      if k < Run(d) { assert d[k] == d[..Run(d)][k] == d'[..Run(d)][k]; }
    }
  }

  function WithNode(s: State, i: nat, t: Node): State
    requires i < |s.v.nodes|
  {
    s.(v := s.v.(nodes := s.v.nodes[i := t]))
  }

  /** With an older record of inode i, which has fewer blocks, nothing is shared or free that should not
      be; and a block is lost exactly if there is one that the record does not have. */
  lemma OlderRecord(s: State, size: nat, i: nat, t: Node)
    requires Good(s, size) && IsFile(s, i) && Prefix(Data(s, i))
    requires t.mode != DIR && Prefix(t.data) && Grown(t.data, Data(s, i))
    ensures Good(WithNode(s, i, t), size)
    ensures Tight(s.v) ==> (Tight(WithNode(s, i, t).v) <==> Run(t.data) == Run(Data(s, i)))
  {
    hide DirOk, Run, Prefix;
    var s' := WithNode(s, i, t);
    FewerPointers(s, i, t);
    OlderSound(s, size, i, t);
    Elsewhere(s, s', size, i, []);
    GoodStep(s, s', size, i);
    if Tight(s.v) {
      if Run(t.data) == Run(Data(s, i)) {
        SamePointers(t.data, Data(s, i));
        OlderTight(s, i, t);
      } else {
        OlderLeaks(s, size, i, t);
      }
    }
  }

  /** And its blocks are the first of the file's. */
  lemma OlderWhole(s: State, size: nat, i: nat, t: Node)
    requires Good(s, size) && IsFile(s, i) && Grown(t.data, Data(s, i))
    ensures 0 <= Times(Run(t.data), size) <= |Whole(s, i)|
    ensures Whole(WithNode(s, i, t), i) == Whole(s, i)[..Times(Run(t.data), size)]
  {
    hide Run;
    PointersGood(s, size, i);
    var d, n := Data(s, i), Run(t.data);
    assert forall k :: 0 <= k < n ==> t.data[k] == t.data[..n][k] == d[..n][k] == d[k];
    ContentFrame(s.disk, s.disk, d, t.data, n);
    ContentPrefix(s.disk, size, d, n, Run(d));
  }

  lemma FewerPointers(s: State, i: nat, t: Node)
    requires i < |s.v.nodes| && Prefix(t.data) && Grown(t.data, Data(s, i))
    ensures forall j, k, b :: Points(WithNode(s, i, t).v, j, k, b) && b != 0 ==> Points(s.v, j, k, b)
    ensures forall j, k, b :: Points(WithNode(s, i, t).v, j, k, b) && b != 0 && j == i ==> k < Run(t.data)
  {
    var d := Data(s, i);
    assert forall k :: 0 <= k < Run(t.data) ==> t.data[k] == d[..Run(t.data)][k];
  }

  lemma OlderSound(s: State, size: nat, i: nat, t: Node)
    requires Good(s, size) && IsFile(s, i) && |t.data| == N_BLOCKS
    requires forall j, k, b :: Points(WithNode(s, i, t).v, j, k, b) && b != 0 ==> Points(s.v, j, k, b)
    ensures Fits(WithNode(s, i, t), size) && Sound(WithNode(s, i, t).v)
  {
    hide DirOk;
  }

  lemma OlderTight(s: State, i: nat, t: Node)
    requires i < |s.v.nodes| && t.data == Data(s, i) && Tight(s.v)
    ensures Tight(WithNode(s, i, t).v)
  {
    var s' := WithNode(s, i, t);
    forall b | InArea(s'.v, b) && 0 <= b < |s'.v.used| && s'.v.used[b] ensures Owned(s'.v, b) {
      var j, k :| Points(s.v, j, k, b);
      assert Points(s'.v, j, k, b);
    }
  }

  lemma OlderLeaks(s: State, size: nat, i: nat, t: Node)
    requires Good(s, size) && IsFile(s, i) && Run(t.data) < Run(Data(s, i))
    requires forall j, k, b :: Points(WithNode(s, i, t).v, j, k, b) && b != 0 ==> Points(s.v, j, k, b)
    requires forall j, k, b :: Points(WithNode(s, i, t).v, j, k, b) && b != 0 && j == i ==> k < Run(t.data)
    ensures !Tight(WithNode(s, i, t).v)
  {
    hide DirOk;
    var s', n := WithNode(s, i, t), Run(t.data);
    var b := Data(s, i)[n];
    assert Points(s.v, i, n, b);
    assert InArea(s'.v, b) && s'.v.used[b];
    assert !Owned(s'.v, b);
  }

  // ----- a store into a block -----

  function Written(s: State, i: nat, k: nat, o: nat, part: seq<Byte>, n: int): State
    requires i < |s.v.nodes| && k < |Data(s, i)| && 0 <= Data(s, i)[k] < |s.disk|
    requires o + |part| <= |s.disk[Data(s, i)[k]]|
  {
    var b := Data(s, i)[k];
    Sized(s.(disk := s.disk[b := Splice(s.disk[b], o, part)]), i, n)
  }

  lemma WriteOver(s: State, size: nat, i: nat, k: nat, o: nat, part: seq<Byte>, n: int)
    requires Good(s, size) && IsFile(s, i) && k < Run(Data(s, i)) && o + |part| <= size
    ensures 0 <= Data(s, i)[k] < |s.disk| && 0 <= k * size + o <= |Whole(s, i)| - |part|
    ensures var s' := Written(s, i, k, o, part, n);
      && Good(s', size) && IsFile(s', i) && Later(s, s', i)
      && Data(s', i) == Data(s, i) && s'.v.nodes[i].size == n
      && Whole(s', i) == Splice(Whole(s, i), k * size + o, part)
  {
    hide Splice, PointersUsed, Unshared, Untouched, Tight;
    PointersGood(s, size, i);
    var data := Data(s, i);
    var s' := Written(s, i, k, o, part, n);
    OwnStore(s, size, i, k, Splice(s.disk[data[k]], o, part), n);
    PartStored(s.disk, size, data, Run(data), k, o, part);
    GoodStep(s, s', size, i);
  }

  lemma WholeLength(s: State, size: nat, i: nat)
    requires Good(s, size) && Live(s.v, i)
    ensures |Whole(s, i)| == Times(Run(Data(s, i)), size) && Run(Data(s, i)) <= N_BLOCKS == |Data(s, i)|
  {
    PointersGood(s, size, i);
    ContentLength(s.disk, size, Data(s, i), Run(Data(s, i)));
  }

  lemma Products(k: nat, n: nat, size: nat)
    ensures k <= n ==> Times(k, size) <= Times(n, size)
    ensures k < n ==> Times(k, size) + size <= Times(n, size)
  {
    if k < n {
      assert (k + 1) * size <= n * size;
    }
  }

  /** pos >> block_shift and pos & (block_size - 1) */
  function BlockIndex(pos: nat, size: nat): nat
    requires size > 0
  {
    pos / size
  }

  function BlockOffset(pos: nat, size: nat): nat
    requires size > 0
  {
    pos % size
  }

  /** A file of n blocks has the block of a position in it, or gets it next. */
  lemma PosInFile(pos: nat, size: nat, n: nat)
    requires size > 0
    ensures Times(BlockIndex(pos, size), size) + BlockOffset(pos, size) == pos && BlockOffset(pos, size) < size
    ensures Times(BlockIndex(pos, size), size) >= 0
    ensures pos <= Times(n, size) ==>
      BlockIndex(pos, size) < n || (BlockIndex(pos, size) == n && BlockOffset(pos, size) == 0)
    ensures pos < Times(n, size) ==> BlockIndex(pos, size) < n
  {}

  lemma SpliceFront(w: seq<Byte>, pos: nat, part: seq<Byte>)
    requires pos + |part| <= |w|
    ensures Splice(w, pos, part)[..pos + |part|] == w[..pos] + part
  {}

  /** Bytes o and on of block k, which are bytes pos and on of the file. */
  lemma WriteStep(s: State, size: nat, i: nat, k: nat, o: nat, pos: nat, part: seq<Byte>)
    requires Good(s, size) && IsFile(s, i) && pos == Times(k, size) + o
    requires k < Run(Data(s, i)) && o + |part| <= size
    ensures 0 <= Data(s, i)[k] < |s.disk|
    ensures var s' := Written(s, i, k, o, part, pos + |part|);
      && Good(s', size) && IsFile(s', i) && Later(s, s', i)
      && Data(s', i) == Data(s, i) && s'.v.nodes[i].size == pos + |part|
      && pos + |part| <= |Whole(s, i)| == |Whole(s', i)|
      && Whole(s', i)[..pos + |part|] == Whole(s, i)[..pos] + part
  {
    hide Whole, Good, Later, Splice;
    WriteOver(s, size, i, k, o, part, pos + |part|);
    SpliceFront(Whole(s, i), pos, part);
  }
}
