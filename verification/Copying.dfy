/** fs/tfs/tfs_cmd.c: cp, and fs/exec.c: the loop that loads a program. */
module Copying {
  import opened Bytes
  import opened Bitmap
  import opened Ownership
  import opened Contents
  import opened TfsState
  import opened FileState
  import opened FreeBlocks
  import opened Tfs
  import opened FileData

  const CHUNK := 1024

  /** Two open files on one volume, for two inodes, the source as the inode table has it. */
  ghost predicate Pair(from: File, to: File)
    reads from, to, from.vol, from.inode, to.inode
  {
    && from.vol == to.vol && from != to && from.inode != to.inode && from.inode.ino != to.inode.ino
    && to.Valid() && to.offset <= |to.Stored()|
    && from.Readable() && Source(from, to)
  }

  ghost predicate Source(from: File, to: File)
    requires from.vol == to.vol && 1 <= to.inode.ino <= |to.vol.table|
    reads from.vol, from.inode, to.vol, to.inode
  {
    var s, i := to.State(), from.inode.ino - 1;
    Live(s.v, i) && s.v.nodes[i] == from.inode.Record()
  }

  /** Writing the target leaves the source readable, and the same. */
  lemma SourceKept(from: File, to: File, s: State, held: seq<Byte>)
    requires from.vol == to.vol && from.inode.ino != to.inode.ino && to.Valid()
    requires Good(s, to.vol.bsize) && Later(s, to.State(), to.inode.ino - 1)
    requires var i := from.inode.ino - 1; Live(s.v, i) && s.v.nodes[i] == from.inode.Record()
    requires held == Whole(s, from.inode.ino - 1) && |held| < WRAP
    requires 0 <= from.inode.size <= |held| && from.offset < WRAP
    ensures from.Readable() && Source(from, to) && from.Held() == held
  {
    hide DirOk, PointersUsed, Unshared, Tight, Prefix, Content, Run;
    var s', i := to.State(), from.inode.ino - 1;
    SameContent(s, s', to.vol.bsize, i);
    to.Facts();
  }

  // ----- arithmetic of chunks -----

  /** The block size divides the chunk size. */
  predicate Divides(bsize: nat, chunk: nat) { bsize > 0 && chunk > 0 && chunk % bsize == 0 }

  lemma MultipleCeil(k: nat, n: nat, size: nat)
    requires size > 0
    ensures Ceil(k * size + n, size) == k + Ceil(n, size)
  {
    CeilFacts(n, size);
    CeilFacts(k * size + n, size);
    var a, b := Ceil(k * size + n, size), k + Ceil(n, size);
    Distributes(k, Ceil(n, size), size);
    if a < b {
      Products(a, b, size);
    } else if b < a {
      Products(b, a, size);
    }
  }

  /** A chunk boundary is a block boundary. */
  lemma ChunkBlocks(off: nat, bsize: nat, chunk: nat) returns (k: nat)
    requires Divides(bsize, chunk) && off % chunk == 0
    ensures off == k * bsize
  {
    var q := Multiple(bsize, chunk);
    var m := off / chunk;
    k := m * q;
    Associates(m, q, bsize);
  }

  lemma Associates(m: nat, q: nat, bsize: nat)
    ensures m * (q * bsize) == (m * q) * bsize
  {}

  lemma MultipleOffset(k: nat, bsize: nat)
    requires bsize > 0
    ensures BlockOffset(k * bsize, bsize) == 0
  {
    PosInFile(k * bsize, bsize, k);
    Products(BlockIndex(k * bsize, bsize), k, bsize);
  }

  lemma ChunkMath(off: nat, count: nat, bsize: nat, chunk: nat)
    requires Divides(bsize, chunk) && off % chunk == 0
    ensures BlockOffset(off, bsize) == 0
    ensures Times(Ceil(off + count, bsize), bsize) == off + Times(Ceil(count, bsize), bsize)
  {
    var k := ChunkBlocks(off, bsize, chunk);
    MultipleOffset(k, bsize);
    MultipleCeil(k, count, bsize);
    Distributes(k, Ceil(count, bsize), bsize);
  }

  lemma Distributes(a: nat, b: nat, size: nat)
    ensures Times(a + b, size) == a * size + Times(b, size)
  {}

  lemma CeilFits(count: nat, bsize: nat, chunk: nat)
    requires Divides(bsize, chunk) && count <= chunk
    ensures Times(Ceil(count, bsize), bsize) <= chunk && bsize <= chunk
  {
    hide Ceil, Times, Divides;
    var q := Multiple(bsize, chunk);
    OneTime(bsize);
    CeilFacts(count, bsize);
    Products(q, Ceil(count, bsize), bsize);
    Products(Ceil(count, bsize), q, bsize);
    Products(1, q, bsize);
  }

  lemma OneTime(size: nat)
    ensures Times(1, size) == size
  {}

  lemma Multiple(bsize: nat, chunk: nat) returns (q: nat)
    requires Divides(bsize, chunk)
    ensures q > 0 && bsize > 0 && chunk == q * bsize == Times(q, bsize)
  {
    q := chunk / bsize;
    assert chunk == q * bsize + chunk % bsize;
  }

  lemma CeilGrows(a: nat, b: nat, size: nat)
    requires a <= b && size > 0
    ensures Ceil(a, size) <= Ceil(b, size) && Times(Ceil(a, size), size) <= Times(Ceil(b, size), size)
  {
    CeilFacts(a, size);
    CeilFacts(b, size);
    if Ceil(a, size) > Ceil(b, size) {
      Products(Ceil(b, size), Ceil(a, size), size);
    }
    Products(Ceil(a, size), Ceil(b, size), size);
  }

  // ----- cp -----

  /** What was there before the loop: the volume, the bytes of the source that count and all it holds, the
      blocks that the target has or can get, and the target's record and pointers. */
  datatype Before = Before(s: State, total: nat, held: seq<Byte>, supply: nat, record: Node, data: seq<int>)

  ghost predicate Origin(from: File, to: File, b: Before)
    reads from.inode
  {
    var i := from.inode.ino - 1;
    && Good(b.s, to.vol.bsize) && Live(b.s.v, i) && b.s.v.nodes[i] == from.inode.Record()
    && b.held == Whole(b.s, i) && b.total == from.inode.size
  }

  /** Both files are usable, and nothing but the target has changed. */
  ghost predicate Steady(from: File, to: File, b: Before)
    reads from, to, from.vol, from.inode, to.inode
  {
    && Pair(from, to) && Origin(from, to, b) && Later(b.s, to.State(), to.inode.ino - 1)
    && from.Held() == b.held && to.Supply() == b.supply && from.offset <= from.inode.size
    && Grown(b.data, to.inode.data)
  }

  /** The blocks of the whole chunks for which so many blocks are enough. */
  function Fitting(supply: nat, bsize: nat): nat
    requires bsize > 0
  {
    var q := Ceil(CHUNK, bsize);
    if q > 0 then supply - supply % q else 0
  }

  /** The length of the last chunk. */
  function LastCount(n: nat): nat { if n % CHUNK == 0 then Min(n, CHUNK) else n % CHUNK }

  /** The last chunk is shorter than the one that did not fit, and fits in its place. */
  predicate LastFits(supply: nat, n: nat, bsize: nat)
    requires bsize > 0
  {
    && Times(Fitting(supply, bsize), bsize) + CHUNK < n
    && Fitting(supply, bsize) + Ceil(LastCount(n), bsize) <= supply
  }

  /** Everything up to off has been copied, and is in the table. */
  ghost predicate Going(to: File, b: Before, off: nat)
    requires 1 <= to.inode.ino <= |to.vol.table| && to.vol.bsize > 0
    reads to, to.vol, to.inode
  {
    && to.offset == off <= |to.Stored()| && off <= |b.held| && to.Stored()[..off] == b.held[..off]
    && (off == 0 ==> to.Record() == b.record && to.inode.data == b.data)
    && (off > 0 ==> to.vol.Open(to.inode))
    && (off > 0 ==> to.inode.size == Times(Ceil(off, to.vol.bsize), to.vol.bsize))
    && (off > 0 ==> Run(to.inode.data) == Max(Run(b.data), Ceil(off, to.vol.bsize)))
  }

  /** A chunk did not fit.  The table has the chunks before; the blocks are all taken. */
  ghost predicate Stuck(to: File, b: Before, off: nat)
    requires 1 <= to.inode.ino <= |to.vol.table| && to.vol.bsize > 0
    reads to, to.vol, to.inode
  {
    var w := to.offset;
    && b.supply < Ceil(b.total, to.vol.bsize) && (off == b.total ==> !LastFits(b.supply, b.total, to.vol.bsize))
    && w < off && w % CHUNK == 0 && w == Times(Fitting(b.supply, to.vol.bsize), to.vol.bsize)
    && w <= |to.Stored()| && w <= |b.held| && to.Stored()[..w] == b.held[..w]
    && Run(to.inode.data) == b.supply
    && (w == 0 ==> to.Record() == b.record)
    && (w > 0 ==> to.Behind() && to.Record().size == w)
    && (w > 0 ==> Run(to.Record().data) == Max(Run(b.data), Fitting(b.supply, to.vol.bsize)))
  }

  /** A chunk did not fit, but the last one did, and lies in its place. */
  ghost predicate Spliced(to: File, b: Before, off: nat)
    requires 1 <= to.inode.ino <= |to.vol.table| && to.vol.bsize > 0
    reads to, to.vol, to.inode
  {
    && b.supply < Ceil(b.total, to.vol.bsize) && LastFits(b.supply, b.total, to.vol.bsize)
    && off == b.total <= |b.held| && to.vol.Open(to.inode)
    && var w, c := Times(Fitting(b.supply, to.vol.bsize), to.vol.bsize), LastCount(b.total);
    && to.inode.size == w + Times(Ceil(c, to.vol.bsize), to.vol.bsize)
    && 0 <= w <= w + c <= |to.Stored()| && w <= b.total - c
    && to.Stored()[..w + c] == b.held[..w] + b.held[b.total - c..b.total]
  }

  datatype Phase = IsGoing | IsStuck | IsSpliced

  ghost predicate Progress(to: File, b: Before, off: nat, p: Phase)
    requires 1 <= to.inode.ino <= |to.vol.table| && to.vol.bsize > 0
    reads to, to.vol, to.inode
  {
    match p
    case IsGoing => Going(to, b, off)
    case IsStuck => Stuck(to, b, off)
    case IsSpliced => Spliced(to, b, off)
  }

  ghost predicate Copying(from: File, to: File, b: Before, p: Phase)
    reads from, to, from.vol, from.inode, to.inode
  {
    && Steady(from, to, b) && to.vol.bsize > 0
    && (from.offset == from.inode.size || from.offset % CHUNK == 0)
    && Progress(to, b, from.offset, p)
  }

  /** The target starts with the bytes of the source. */
  ghost predicate Copied(from: File, to: File)
    requires from.vol == to.vol && from.Readable() && to.Valid()
    reads from, to, from.vol, from.inode, to.inode
  {
    from.inode.size <= to.inode.size && to.Text()[..from.inode.size] == from.Held()[..from.inode.size]
  }

  lemma FetchRoom(off: nat, need: nat, bsize: nat, chunk: nat)
    requires Divides(bsize, chunk) && need <= chunk && off % chunk == 0
    ensures BlockOffset(off, bsize) == 0 && need <= Times(Ceil(need, bsize), bsize) <= chunk
  {
    CeilFits(need, bsize, chunk);
    CeilFacts(need, bsize);
    ChunkMath(off, 0, bsize, chunk);
  }

  /** Reading the next chunk. */
  method ReadChunk(from: File, buf: array<Byte>) returns (count: int)
    requires from.Readable() && buf.Length == CHUNK && Divides(from.vol.bsize, CHUNK)
    requires from.offset <= from.inode.size && (from.offset == from.inode.size || from.offset % CHUNK == 0)
    modifies buf, from`offset
    ensures from.Readable() && from.offset <= from.inode.size
    ensures from.offset == from.inode.size || from.offset % CHUNK == 0
    ensures count == Min(CHUNK, from.inode.size - old(from.offset)) && from.offset == old(from.offset) + count
    ensures count > 0 ==> buf[..count] == from.Held()[old(from.offset)..from.offset]
  {
    hide Content, Run, Times, BlockIndex, BlockOffset, Ceil;
    from.NeedIs(CHUNK);
    if from.offset % CHUNK == 0 {
      FetchRoom(from.offset, from.Need(CHUNK), from.vol.bsize, CHUNK);
    }
    count := from.SysRead(buf, 0, CHUNK);
    assert count > 0 ==> buf[..count] == buf[0..count];
  }

  /** A chunk boundary in blocks. */
  lemma ChunkIndex(off: nat, count: nat, bsize: nat)
    requires Divides(bsize, CHUNK) && off % CHUNK == 0
    ensures BlockOffset(off, bsize) == 0 && off == Times(BlockIndex(off, bsize), bsize)
    ensures Ceil(off, bsize) == BlockIndex(off, bsize)
    ensures Ceil(off + count, bsize) == BlockIndex(off, bsize) + Ceil(count, bsize)
    ensures Times(Ceil(off + count, bsize), bsize) == off + Times(Ceil(count, bsize), bsize)
  {
    var k := ChunkBlocks(off, bsize, CHUNK);
    MultipleOffset(k, bsize);
    PosInFile(off, bsize, k);
    MultipleCeil(k, 0, bsize);
    MultipleCeil(k, count, bsize);
    CeilFacts(0, bsize);
    SameTimes(k, BlockIndex(off, bsize), bsize);
    Distributes(k, Ceil(count, bsize), bsize);
  }

  lemma SameTimes(a: nat, b: nat, size: nat)
    requires size > 0 && Times(a, size) == Times(b, size)
    ensures a == b
  {
    Products(a, b, size);
    Products(b, a, size);
  }

  /** The first chunk that does not fit starts behind the whole chunks that do. */
  lemma FittingIs(supply: nat, off: nat, bsize: nat)
    requires Divides(bsize, CHUNK) && off % CHUNK == 0
    requires BlockIndex(off, bsize) <= supply < BlockIndex(off, bsize) + Ceil(CHUNK, bsize)
    ensures Fitting(supply, bsize) == BlockIndex(off, bsize)
  {
    hide BlockIndex, Ceil;
    var m, q, k := off / CHUNK, Ceil(CHUNK, bsize), BlockIndex(off, bsize);
    ManyChunks(m, bsize);
    assert off == m * CHUNK;
    DivIs(supply, q, m, supply - k);
  }

  lemma {:induction false} ManyChunks(m: nat, bsize: nat)
    requires Divides(bsize, CHUNK)
    ensures BlockIndex(m * CHUNK, bsize) == Ceil(CHUNK, bsize) * m
  {
    hide BlockIndex, Ceil;
    ChunkIndex(m * CHUNK, 0, bsize);
    if m > 0 {
      ManyChunks(m - 1, bsize);
      ChunkIndex((m - 1) * CHUNK, CHUNK, bsize);
      assert m * CHUNK == (m - 1) * CHUNK + CHUNK;
      ChunkIndex(m * CHUNK, 0, bsize);
      OneMore(Ceil(CHUNK, bsize), m);
    } else {
      ZeroIndex(bsize);
    }
  }

  lemma OneMore(q: nat, m: nat)
    requires m > 0
    ensures q * m == q * (m - 1) + q
  {}

  lemma ZeroIndex(bsize: nat)
    requires bsize > 0
    ensures BlockIndex(0, bsize) == 0
  {}

  /** When a write fails the target has all the blocks there are, and they are too few. */
  lemma TooFew(from: File, to: File, b: Before, off: nat, count: nat, r: int)
    requires Steady(from, to, b) && Divides(to.vol.bsize, CHUNK) && off % CHUNK == 0
    requires count > 0 && off + count <= from.inode.size
    requires |to.Stored()| < off + Times(Ceil(count, to.vol.bsize), to.vol.bsize)
    requires Run(to.inode.data) == N_BLOCKS || Free(Bits(to.vol.blockMap)) == 0
    ensures b.supply < Ceil(from.inode.size, to.vol.bsize) && Run(to.inode.data) < N_BLOCKS
  {
    hide Good, Later, Content, Whole, Bits, Times, Ceil, Free;
    var size, n := to.vol.bsize, from.inode.size;
    ChunkMath(off, count, size, CHUNK);
    CeilGrows(off + count, n, size);
    to.Length();
    from.HeldLength();
    CeilFacts(n, size);
    var run, need := Run(to.inode.data), Ceil(n, size);
    Products(need, run, size);
    Products(Run(from.inode.data) + 1, need, size);
    ProductSteps(Run(from.inode.data) + 1, Run(from.inode.data), size);
  }

  /** Writing the chunk: the source is as it was, and the target has the chunk at its offset, if that
      is the start of a block, and its record in the table; or the blocks are too few. */
  method WriteChunk(from: File, to: File, buf: array<Byte>, count: nat, ghost b: Before)
    returns (r: int)
    requires Steady(from, to, b) && buf.Length == CHUNK && Divides(to.vol.bsize, CHUNK) && 0 < count <= CHUNK
    modifies to.vol`blockMap, to.vol`disk, to.vol`table, to.inode`data, to.inode`size, to`offset
    ensures Steady(from, to, b) && Grown(old(to.inode.data), to.inode.data)
    ensures r < 0 <==> to.Limit() < old(BlockIndex(to.offset, to.vol.bsize)) + Ceil(count, to.vol.bsize)
    ensures r >= 0 ==> to.vol.Open(to.inode)
    ensures r >= 0 ==>
      Run(to.inode.data) ==
        Max(old(Run(to.inode.data)), old(BlockIndex(to.offset, to.vol.bsize)) + Ceil(count, to.vol.bsize))
    ensures r < 0 ==> to.vol.table == old(to.vol.table) && Run(to.inode.data) == to.Limit()
    ensures r < 0 ==> to.offset == old(to.offset) <= |to.Stored()|
    ensures r < 0 ==> to.Stored()[..to.offset] == old(to.Stored())[..to.offset]
    ensures old(BlockOffset(to.offset, to.vol.bsize)) == 0 ==>
      var off, extent := old(to.offset), Times(Ceil(count, to.vol.bsize), to.vol.bsize);
      if r >= 0 then
        && to.offset == off + count <= |to.Stored()| && to.inode.size == off + extent
        && to.Stored()[..off + count] == old(to.Stored())[..off] + buf[..count]
      else
        |to.Stored()| < off + extent && (Run(to.inode.data) == N_BLOCKS || Free(Bits(to.vol.blockMap)) == 0)
  {
    hide Good, Later, Content, Whole, Bits, Times, Ceil, Free, BlockIndex, BlockOffset, Run, Mapped, Grown;
    hide DirOk, PointersUsed, Unshared, Tight, Prefix, Untouched;
    ghost var s, w, off, d := to.State(), to.Stored(), to.offset, to.inode.data;
    CeilFits(count, to.vol.bsize, CHUNK);
    CeilFacts(count, to.vol.bsize);
    r := to.SysWrite(buf, 0, count);
    LaterTwice(b.s, s, to.State(), to.inode.ino - 1);
    GrownTwice(b.data, d, to.inode.data);
    SourceKept(from, to, b.s, b.held);
    if r >= 0 && count <= to.inode.size - off {
      Overlaid(to.Stored(), to.inode.size, w[..off], buf[0..to.inode.size - off], count);
      assert buf[0..to.inode.size - off][..count] == buf[..count];
    }
  }

  lemma Overlaid(stored: seq<Byte>, size: nat, front: seq<Byte>, part: seq<Byte>, count: nat)
    requires size <= |stored| && stored[..size] == front + part && count <= |part|
    ensures stored[..|front| + count] == front + part[..count]
  {}

  // ----- the phases of the loop -----

  /** What a source of this size needs is at most what an inode can have. */
  lemma NeedIsSmall(from: File, bsize: nat)
    requires from.Readable() && bsize == from.vol.bsize
    ensures Ceil(from.inode.size, bsize) <= N_BLOCKS
  {
    hide Content, Run, Times, Ceil;
    from.HeldLength();
    CeilFacts(from.inode.size, bsize);
    var run, need := Run(from.inode.data), Ceil(from.inode.size, bsize);
    Products(run + 1, need, bsize);
    ProductSteps(run + 1, run, bsize);
  }

  /** The record, when all chunks so far are in it. */
  lemma GoingRecord(to: File, b: Before, off: nat)
    requires to.Valid() && Divides(to.vol.bsize, CHUNK) && Going(to, b, off) && off > 0 && off % CHUNK == 0
    ensures var t := to.Record();
      && t.mode != DIR && Prefix(t.data) && t.data == to.inode.data && t.size == off
      && Run(t.data) == Max(Run(b.data), Ceil(off, to.vol.bsize))
  {
    hide Good, Bits, Run, Prefix, Whole, Times, Ceil;
    to.OpenFile();
    ChunkIndex(off, 0, to.vol.bsize);
  }

  /** A chunk more. */
  lemma GoesOn(to: File, b: Before, off: nat, count: nat, was: seq<Byte>, run: nat)
    requires to.Valid() && Divides(to.vol.bsize, CHUNK) && off % CHUNK == 0 && count > 0
    requires off + count <= |b.held| && off <= |was| && was[..off] == b.held[..off]
    requires to.offset == off + count <= |to.Stored()| && to.vol.Open(to.inode)
    requires to.inode.size == off + Times(Ceil(count, to.vol.bsize), to.vol.bsize)
    requires to.Stored()[..off + count] == was[..off] + b.held[off..off + count]
    requires Run(to.inode.data) == Max(run, BlockIndex(off, to.vol.bsize) + Ceil(count, to.vol.bsize))
    requires if off == 0 then run == Run(b.data) else run == Max(Run(b.data), Ceil(off, to.vol.bsize))
    ensures Going(to, b, off + count)
  {
    hide Good, Bits, Run, Whole, Times, Ceil, BlockIndex, BlockOffset;
    ChunkIndex(off, count, to.vol.bsize);
    assert b.held[..off] + b.held[off..off + count] == b.held[..off + count];
  }

  /** The chunk at off does not fit; t is the record. */
  lemma GetsStuck(to: File, b: Before, off: nat, count: nat, was: seq<Byte>, d: seq<int>)
    requires to.Valid() && Divides(to.vol.bsize, CHUNK) && off % CHUNK == 0 && 0 < count <= CHUNK
    requires off + count <= b.total && off <= |b.held| && off <= |was| && was[..off] == b.held[..off]
    requires b.supply == to.Supply() && Ceil(b.total, to.vol.bsize) <= N_BLOCKS
    requires to.offset == off <= |to.Stored()| && to.Stored()[..off] == was[..off]
    requires to.Limit() < BlockIndex(off, to.vol.bsize) + Ceil(count, to.vol.bsize)
    requires Run(to.inode.data) == to.Limit() && Grown(d, to.inode.data)
    requires BlockIndex(off, to.vol.bsize) <= b.supply
    requires if off == 0 then to.Record() == b.record
      else var t := to.Record();
        && t.mode != DIR && Prefix(t.data) && t.data == d && t.size == off
        && Run(t.data) == Max(Run(b.data), Ceil(off, to.vol.bsize))
    ensures Stuck(to, b, off + count)
  {
    hide Good, Bits, Run, Whole, Times, Ceil, BlockIndex, BlockOffset, Free, Prefix, Grown, LastCount, Fitting;
    ChunkIndex(off, count, to.vol.bsize);
    CeilGrows(count, CHUNK, to.vol.bsize);
    CeilGrows(off + count, b.total, to.vol.bsize);
    FittingIs(b.supply, off, to.vol.bsize);
  }

  lemma StuckIndex(to: File, b: Before, off: nat)
    requires to.Valid() && Divides(to.vol.bsize, CHUNK) && Stuck(to, b, off)
    ensures BlockIndex(to.offset, to.vol.bsize) == Fitting(b.supply, to.vol.bsize)
    ensures Fitting(b.supply, to.vol.bsize) <= b.supply < Fitting(b.supply, to.vol.bsize) + Ceil(CHUNK, to.vol.bsize)
  {
    hide Good, Bits, Run, Whole, Times, Ceil, BlockIndex, BlockOffset, Free, Prefix, Grown, LastCount;
    CeilFacts(CHUNK, to.vol.bsize);
    ChunkIndex(to.offset, 0, to.vol.bsize);
    SameTimes(BlockIndex(to.offset, to.vol.bsize), Fitting(b.supply, to.vol.bsize), to.vol.bsize);
  }

  lemma LastCountIs(off: nat, count: nat)
    requires off % CHUNK == 0 && 0 < count <= CHUNK
    ensures LastCount(off + count) == count
  {}

  lemma NextChunk(w: nat, off: nat, count: nat)
    requires w % CHUNK == 0 && off % CHUNK == 0 && w < off && count > 0
    ensures w + CHUNK < off + count
  {}

  /** The last one does. */
  lemma GetsSpliced(to: File, b: Before, off: nat, count: nat, was: seq<Byte>, w: nat)
    requires to.Valid() && Divides(to.vol.bsize, CHUNK) && off % CHUNK == 0 && 0 < count <= CHUNK
    requires off + count <= b.total <= |b.held| && (off + count == b.total || (off + count) % CHUNK == 0)
    requires b.supply == to.Supply() && b.supply < Ceil(b.total, to.vol.bsize)
    requires w % CHUNK == 0 && w < off && w == Times(Fitting(b.supply, to.vol.bsize), to.vol.bsize)
    requires b.supply < Fitting(b.supply, to.vol.bsize) + Ceil(CHUNK, to.vol.bsize)
    requires Fitting(b.supply, to.vol.bsize) + Ceil(count, to.vol.bsize) <= to.Limit()
    requires w <= |was| && was[..w] == b.held[..w] && to.vol.Open(to.inode)
    requires to.inode.size == w + Times(Ceil(count, to.vol.bsize), to.vol.bsize) && w + count <= |to.Stored()|
    requires to.Stored()[..w + count] == was[..w] + b.held[off..off + count]
    ensures Spliced(to, b, off + count)
  {
    hide Good, Bits, Run, Whole, Times, Ceil, BlockIndex, BlockOffset, Free, Prefix, Grown, LastCount, Fitting;
    LastCountIs(off, count);
    NextChunk(w, off, count);
    assert count < CHUNK;
    assert off + count == b.total by { ShortChunk(off, count); }
  }

  lemma ShortChunk(off: nat, count: nat)
    requires off % CHUNK == 0 && 0 < count < CHUNK
    ensures (off + count) % CHUNK != 0
  {}

  lemma IndexInSupply(to: File)
    requires to.Valid() && to.offset <= |to.Stored()|
    ensures BlockIndex(to.offset, to.vol.bsize) <= to.Supply()
  {
    hide Good, Bits, Whole, Free, Prefix, Run;
    to.Length();
    PosInFile(to.offset, to.vol.bsize, Run(to.inode.data));
  }

  lemma StuckFacts(to: File, b: Before, off: nat)
    requires to.Valid() && Stuck(to, b, off)
    ensures b.supply < Ceil(b.total, to.vol.bsize) && to.offset < off && to.offset % CHUNK == 0
    ensures to.offset == Times(Fitting(b.supply, to.vol.bsize), to.vol.bsize)
    ensures to.offset <= |to.Stored()| && to.offset <= |b.held| && to.Stored()[..to.offset] == b.held[..to.offset]
  {}

  /** The record of a target that is stuck. */
  ghost predicate StuckRecord(b: Before, t: Node, w: nat, d: seq<int>, bsize: nat)
    requires bsize > 0
  {
    if w == 0 then t == b.record
    else
      && t.mode != DIR && Prefix(t.data) && Grown(t.data, d) && t.size == w
      && Run(t.data) == Max(Run(b.data), Fitting(b.supply, bsize))
  }

  lemma StuckRecordIs(to: File, b: Before, off: nat)
    requires to.Valid() && Stuck(to, b, off)
    ensures to.vol.bsize > 0 && StuckRecord(b, to.Record(), to.offset, to.inode.data, to.vol.bsize)
  {
    to.Facts();
  }

  lemma StuckRecordStays(b: Before, t: Node, w: nat, d: seq<int>, d': seq<int>, bsize: nat)
    requires bsize > 0 && StuckRecord(b, t, w, d, bsize) && Grown(d, d')
    ensures StuckRecord(b, t, w, d', bsize)
  {
    hide Grown, Run, Prefix, Fitting;
    if w > 0 { GrownTwice(t.data, d, d'); }
  }

  /** A later chunk does not fit either. */
  lemma StaysStuck(to: File, b: Before, off: nat, count: nat, was: seq<Byte>)
    requires to.Valid() && Divides(to.vol.bsize, CHUNK) && off % CHUNK == 0 && 0 < count <= CHUNK
    requires off + count <= b.total && Ceil(b.total, to.vol.bsize) <= N_BLOCKS && b.supply == to.Supply()
    requires b.supply < Ceil(b.total, to.vol.bsize) && to.offset < off && to.offset % CHUNK == 0
    requires to.offset == Times(Fitting(b.supply, to.vol.bsize), to.vol.bsize)
    requires to.Limit() < Fitting(b.supply, to.vol.bsize) + Ceil(count, to.vol.bsize)
    requires Run(to.inode.data) == to.Limit()
    requires to.offset <= |to.Stored()| && to.offset <= |was| && to.offset <= |b.held|
    requires to.Stored()[..to.offset] == was[..to.offset] == b.held[..to.offset]
    requires StuckRecord(b, to.Record(), to.offset, to.inode.data, to.vol.bsize)
    ensures Stuck(to, b, off + count)
  {
    hide Good, Bits, Run, Whole, Times, Ceil, BlockIndex, BlockOffset, Free, Prefix, Grown, LastCount, Fitting;
    LastCountIs(off, count);
  }

  /** What the phases rely on before a chunk of count bytes is written. */
  lemma BeforeChunk(to: File, b: Before, off: nat, count: nat, p: Phase)
    requires to.Valid() && to.offset <= |to.Stored()| && Divides(to.vol.bsize, CHUNK)
    requires off % CHUNK == 0 && 0 < count <= CHUNK && off + count <= b.total && b.supply == to.Supply()
    requires Progress(to, b, off, p)
    ensures p.IsGoing? || p.IsStuck?
    ensures to.offset % CHUNK == 0 && BlockOffset(to.offset, to.vol.bsize) == 0
    ensures p.IsGoing? ==>
      to.offset == off && BlockIndex(off, to.vol.bsize) <= b.supply && to.Stored()[..off] == b.held[..off]
    ensures p.IsGoing? ==>
      Run(to.inode.data) == if off == 0 then Run(b.data) else Max(Run(b.data), Ceil(off, to.vol.bsize))
    ensures p.IsGoing? && off == 0 ==> to.Record() == b.record
    ensures p.IsGoing? && off > 0 ==>
      var t := to.Record();
      && t.mode != DIR && Prefix(t.data) && t.data == to.inode.data && t.size == off
      && Run(t.data) == Max(Run(b.data), Ceil(off, to.vol.bsize))
    ensures p.IsStuck? ==>
      && b.supply < Ceil(b.total, to.vol.bsize) && to.offset < off
      && to.offset == Times(Fitting(b.supply, to.vol.bsize), to.vol.bsize)
      && to.offset <= |b.held| && to.Stored()[..to.offset] == b.held[..to.offset]
    ensures p.IsStuck? ==>
      && BlockIndex(to.offset, to.vol.bsize) == Fitting(b.supply, to.vol.bsize)
      && b.supply < Fitting(b.supply, to.vol.bsize) + Ceil(CHUNK, to.vol.bsize)
      && StuckRecord(b, to.Record(), to.offset, to.inode.data, to.vol.bsize)
  {
    hide Good, Whole, Bits, Times, Ceil, Free, BlockIndex, BlockOffset, Run, Grown, Prefix, Stuck, Fitting, StuckRecord;
    IndexInSupply(to);
    if p.IsGoing? {
      ChunkIndex(off, count, to.vol.bsize);
      if off > 0 { GoingRecord(to, b, off); }
    } else if p.IsStuck? {
      StuckFacts(to, b, off);
      StuckIndex(to, b, off);
      StuckRecordIs(to, b, off);
      ChunkIndex(to.offset, count, to.vol.bsize);
    }
  }

  /** The chunk, and what it makes of the phase. */
  method StoreChunk(from: File, to: File, buf: array<Byte>, count: nat, ghost off: nat, ghost b: Before, ghost p: Phase)
    returns (r: int, ghost p': Phase)
    requires Steady(from, to, b) && buf.Length == CHUNK && Divides(to.vol.bsize, CHUNK)
    requires 0 < count <= CHUNK && from.offset == off + count && off % CHUNK == 0
    requires from.offset == from.inode.size || from.offset % CHUNK == 0
    requires off + count <= |b.held| && buf[..count] == b.held[off..off + count]
    requires Progress(to, b, off, p)
    modifies to.vol`blockMap, to.vol`disk, to.vol`table, to.inode`data, to.inode`size, to`offset
    ensures Copying(from, to, b, p')
  {
    hide Good, Later, Content, Whole, Bits, Times, Ceil, Free, BlockIndex, BlockOffset, Run, Mapped, Origin;
    hide Grown, Prefix;
    hide Going, Stuck, Spliced, Fitting, LastFits, StuckRecord, Progress;
    SourceTotal(from, to, b);
    NeedIsSmall(from, to.vol.bsize);
    BeforeChunk(to, b, off, count, p);
    ghost var was, run, d, t, w := to.Stored(), Run(to.inode.data), to.inode.data, to.Record(), to.offset;
    r := WriteChunk(from, to, buf, count, b);
    p' := AfterChunk(to, b, off, count, p, r, was, run, d, t, w);
  }

  /** The phase afterwards, where r is the result of the write, and was, run, d, t and w are the target's
      bytes, the number of its blocks, its pointers, its record and its offset before. */
  lemma AfterChunk(to: File, b: Before, off: nat, count: nat, p: Phase, r: int,
                   was: seq<Byte>, run: nat, d: seq<int>, t: Node, w: nat)
    returns (p': Phase)
    requires to.Valid() && Divides(to.vol.bsize, CHUNK) && off % CHUNK == 0 && 0 < count <= CHUNK
    requires off + count <= b.total <= |b.held| && (off + count == b.total || (off + count) % CHUNK == 0)
    requires Ceil(b.total, to.vol.bsize) <= N_BLOCKS && b.supply == to.Supply() && (p.IsGoing? || p.IsStuck?)
    requires w <= |was| && w % CHUNK == 0 && w <= |b.held| && was[..w] == b.held[..w] && Grown(d, to.inode.data)
    requires r < 0 <==> to.Limit() < BlockIndex(w, to.vol.bsize) + Ceil(count, to.vol.bsize)
    requires r >= 0 ==>
      && to.vol.Open(to.inode) && to.offset == w + count <= |to.Stored()|
      && to.inode.size == w + Times(Ceil(count, to.vol.bsize), to.vol.bsize)
      && to.Stored()[..w + count] == was[..w] + b.held[off..off + count]
      && Run(to.inode.data) == Max(run, BlockIndex(w, to.vol.bsize) + Ceil(count, to.vol.bsize))
    requires r < 0 ==>
      && to.Record() == t && Run(to.inode.data) == to.Limit()
      && to.offset == w <= |to.Stored()| && to.Stored()[..w] == was[..w]
    requires p.IsGoing? ==>
      && w == off && BlockIndex(off, to.vol.bsize) <= b.supply
      && run == (if off == 0 then Run(b.data) else Max(Run(b.data), Ceil(off, to.vol.bsize)))
      && if off == 0 then t == b.record
         else t.mode != DIR && Prefix(t.data) && t.data == d && t.size == off
              && Run(t.data) == Max(Run(b.data), Ceil(off, to.vol.bsize))
    requires p.IsStuck? ==>
      && b.supply < Ceil(b.total, to.vol.bsize) && w < off
      && w == Times(Fitting(b.supply, to.vol.bsize), to.vol.bsize)
      && BlockIndex(w, to.vol.bsize) == Fitting(b.supply, to.vol.bsize)
      && b.supply < Fitting(b.supply, to.vol.bsize) + Ceil(CHUNK, to.vol.bsize)
      && StuckRecord(b, t, w, d, to.vol.bsize)
    ensures Progress(to, b, off + count, p')
  {
    hide Good, Whole, Bits, Times, Ceil, Free, BlockIndex, BlockOffset, Run, Grown, Prefix;
    hide Going, Stuck, Spliced, Fitting, LastFits, StuckRecord;
    if p.IsGoing? && r >= 0 {
      GoesOn(to, b, off, count, was, run);
      p' := IsGoing;
    } else if p.IsGoing? {
      GetsStuck(to, b, off, count, was, d);
      p' := IsStuck;
    } else if r >= 0 {
      GetsSpliced(to, b, off, count, was, w);
      p' := IsSpliced;
    } else {
      StuckRecordStays(b, t, w, d, to.inode.data, to.vol.bsize);
      StaysStuck(to, b, off, count, was);
      p' := IsStuck;
    }
  }

  lemma SourceTotal(from: File, to: File, b: Before)
    requires Origin(from, to, b)
    ensures b.total == from.inode.size
  {}

  // ----- the end of the loop -----

  /** Whether a cp leaves every used block with an owner, from the blocks that the target has or can get, how
      many of them are free, and the size of the source. */
  predicate NoneLost(supply: nat, free: nat, n: nat, bsize: nat)
    requires bsize > 0
  {
    || supply >= Ceil(n, bsize) || free == 0
    || Fitting(supply, bsize) == supply || LastFits(supply, n, bsize)
  }

  /** The same in bytes: w is the largest multiple of 1024 that so many blocks can hold, and the last
      chunk, of (n - 1) % 1024 + 1 bytes, takes the place behind it if it is a later one and the
      blocks can hold it there. */
  lemma CutInBytes(supply: nat, free: nat, n: nat, bsize: nat)
    requires Divides(bsize, CHUNK) && n > 0
    ensures var w, c, room := Times(Fitting(supply, bsize), bsize), LastCount(n), supply * bsize;
      && w % 1024 == 0 && w <= room < w + 1024
      && c == (n - 1) % 1024 + 1
      && (LastFits(supply, n, bsize) <==> w + 1024 < n && w + c <= room)
      && (NoneLost(supply, free, n, bsize) <==>
          n <= room || free == 0 || w == room || (w + 1024 < n && w + c <= room))
  {
    var w, c, f, q := Times(Fitting(supply, bsize), bsize), LastCount(n), Fitting(supply, bsize), Ceil(CHUNK, bsize);
    FittingInChunks(supply, bsize);
    LastCountInBytes(n);
    assert supply * bsize == Times(supply, bsize);
    EnoughBytes(n, supply, bsize);
    EnoughBytes(c, supply - f, bsize);
    hide Times, Ceil, LastCount, Fitting, Divides;
    TimesMinus(supply, f, bsize);
    Products(f, supply, bsize);
    if f < supply { Products(f, supply, bsize); }
  }

  lemma TimesMinus(a: nat, b: nat, size: nat)
    requires b <= a
    ensures Times(a, size) == Times(b, size) + Times(a - b, size)
  {
    Distributes(b, a - b, size);
  }

  lemma LastCountInBytes(n: nat)
    requires n > 0
    ensures LastCount(n) == (n - 1) % 1024 + 1
  {}

  lemma EnoughBytes(n: nat, k: nat, size: nat)
    requires size > 0
    ensures Ceil(n, size) <= k <==> n <= Times(k, size)
  {
    CeilFacts(n, size);
    hide Ceil, Times;
    Products(Ceil(n, size), k, size);
    Products(k, Ceil(n, size), size);
  }

  lemma FittingInChunks(supply: nat, bsize: nat)
    requires Divides(bsize, CHUNK)
    ensures var w := Times(Fitting(supply, bsize), bsize);
      w % 1024 == 0 && w <= Times(supply, bsize) < w + 1024 && 0 <= Fitting(supply, bsize) <= supply
  {
    var q := Multiple(bsize, CHUNK);
    var f := Fitting(supply, bsize);
    ChunkCeil(q, bsize);
    var m := supply / q;
    QuotientIs(supply, q);
    assert f == m * q;
    Associates(m, q, bsize);
    assert Times(f, bsize) == m * 1024;
    hide Fitting, Ceil, Times;
    MultipleOf(m);
    Products(f, supply, bsize);
    Products(supply, f + q, bsize);
    Distributes(q, f, bsize);
  }

  lemma MultipleOf(m: nat)
    ensures (m * 1024) % 1024 == 0
  {}

  lemma QuotientIs(a: nat, b: nat)
    requires b > 0
    ensures a - a % b == (a / b) * b && a % b < b
  {}

  lemma ChunkCeil(q: nat, bsize: nat)
    requires Divides(bsize, CHUNK) && CHUNK == Times(q, bsize)
    ensures Ceil(CHUNK, bsize) == q
  {
    MultipleCeil(q, 0, bsize);
    CeilFacts(0, bsize);
  }

  /** What is left of the target on the volume when the blocks were too few: the source up to the last
      whole chunk that they are enough for, with the source's last chunk behind it if that fits there;
      or, if not even one chunk fits, the record there was. */
  ghost predicate CutShort(to: File, supply: nat, n: nat, held: seq<Byte>, record: Node)
    requires 1 <= to.inode.ino <= |to.vol.table| && to.vol.bsize > 0
    reads to, to.vol, to.inode
  {
    var w, c, now := Times(Fitting(supply, to.vol.bsize), to.vol.bsize), LastCount(n),
      Whole(to.vol.Now(), to.inode.ino - 1);
    && 0 <= w <= |held|
    && if LastFits(supply, n, to.vol.bsize) then
         && w + c <= n <= |held| && w + c <= |now| && now[..w + c] == held[..w] + held[n - c..n]
         && to.Record().size == w + Times(Ceil(c, to.vol.bsize), to.vol.bsize)
       else if w > 0 then to.Record().size == w <= |now| && now[..w] == held[..w]
       else to.Record() == record
  }

  /** A target that has all its blocks in the table. */
  lemma AllRecorded(to: File)
    requires to.Valid() && to.vol.Open(to.inode)
    ensures to.Record() == to.inode.Record() && Whole(to.vol.Now(), to.inode.ino - 1) == to.Stored()
    ensures to.vol.Now() == to.State()
  {
    to.OpenFile();
  }

  lemma SplicedIsCut(to: File, b: Before)
    requires to.Valid() && Spliced(to, b, b.total)
    ensures CutShort(to, b.supply, b.total, b.held, b.record)
  {
    hide Good, Whole, Bits, Times, Ceil, Run, LastFits, Fitting, LastCount, Tight;
    AllRecorded(to);
  }

  lemma StuckIsCut(to: File, b: Before)
    requires to.Valid() && Stuck(to, b, b.total)
    ensures CutShort(to, b.supply, b.total, b.held, b.record)
  {
    hide Good, Bits, Times, Ceil, Run, LastFits, LastCount, Tight, Grown, Prefix, Fitting;
    if to.offset > 0 {
      to.Closed();
      var w, n := to.offset, Run(to.Record().data);
      Products(Fitting(b.supply, to.vol.bsize), n, to.vol.bsize);
      assert to.Stored()[..Times(n, to.vol.bsize)][..w] == to.Stored()[..w];
    }
  }

  /** The target starts with the source exactly when it had the blocks for it. */
  lemma CopyEnds(from: File, to: File, b: Before, p: Phase)
    requires Copying(from, to, b, p) && from.offset == from.inode.size
    ensures from.vol == to.vol && from.Readable() && to.Valid()
    ensures Copied(from, to) <==> b.supply >= Ceil(from.inode.size, to.vol.bsize)
    ensures p.IsGoing? <==> b.supply >= Ceil(from.inode.size, to.vol.bsize)
    ensures b.supply < Ceil(from.inode.size, to.vol.bsize) ==> CutShort(to, b.supply, b.total, b.held, b.record)
  {
    hide Good, Later, Content, Whole, Bits, Times, Ceil, Free, Run, Origin, Grown, Fitting, LastFits, LastCount;
    hide CutShort;
    SourceTotal(from, to, b);
    SupplyBound(from, to, b);
    match p
    case IsGoing => GoingEnds(from, to, b);
    case IsStuck => StuckIsCut(to, b);
    case IsSpliced => SplicedIsCut(to, b);
  }

  /** With too few blocks the target is too short to start with the source. */
  lemma SupplyBound(from: File, to: File, b: Before)
    requires Steady(from, to, b)
    ensures b.supply < Ceil(from.inode.size, to.vol.bsize) ==> !Copied(from, to)
  {
    hide Good, Later, Content, Whole, Bits, Times, Ceil, Free, Run, Origin, Grown;
    var n, size := from.inode.size, to.vol.bsize;
    to.Length();
    CeilFacts(n, size);
    var run, need := Run(to.inode.data), Ceil(n, size);
    Products(run + 1, need, size);
    ProductSteps(run + 1, run, size);
  }

  lemma GoingEnds(from: File, to: File, b: Before)
    requires Steady(from, to, b) && Going(to, b, from.inode.size) && to.vol.bsize > 0
    ensures Copied(from, to) && b.supply >= Ceil(from.inode.size, to.vol.bsize)
  {
    hide Good, Later, Content, Whole, Bits, Times, Ceil, Free, Run, Origin, Grown;
    var n, size := from.inode.size, to.vol.bsize;
    to.Length();
    CeilFacts(n, size);
    var run, need := Run(to.inode.data), Ceil(n, size);
    Products(run + 1, need, size);
    ProductSteps(run + 1, run, size);
    assert to.Text()[..n] == to.Stored()[..n];
  }

  /** When cp loses a block. */
  lemma CopyLoses(from: File, to: File, b: Before, p: Phase)
    requires Copying(from, to, b, p) && from.offset == from.inode.size && Tight(b.s.v)
    requires b.record.mode != DIR && b.record.data == b.data && Prefix(b.data) && b.supply >= Run(b.data)
    ensures Good(to.vol.Now(), to.vol.bsize)
    ensures Tight(to.vol.Now().v) <==> NoneLost(b.supply, b.supply - Run(b.data), b.total, to.vol.bsize)
  {
    hide Good, Content, Whole, Bits, Times, Ceil, Free, Run, Grown, LastFits, LastCount, Tight, Prefix;
    hide CutShort, Copied;
    SourceTotal(from, to, b);
    CopyEnds(from, to, b, p);
    if p.IsSpliced? || (p.IsGoing? && from.offset > 0) {
      AllRecorded(to);
    } else {
      to.Closed();
      if p.IsStuck? { StuckFitting(to, b); }
    }
  }

  lemma StuckFitting(to: File, b: Before)
    requires to.Valid() && Stuck(to, b, b.total)
    ensures to.offset == 0 ==> Fitting(b.supply, to.vol.bsize) == 0
    ensures !LastFits(b.supply, b.total, to.vol.bsize) && Run(to.inode.data) == b.supply
  {
    if to.offset == 0 && Fitting(b.supply, to.vol.bsize) > 0 {
      Products(1, Fitting(b.supply, to.vol.bsize), to.vol.bsize);
    }
  }

  lemma SourceHeld(from: File, to: File)
    requires Pair(from, to)
    ensures Good(to.State(), to.vol.bsize) && from.Held() == Whole(to.State(), from.inode.ino - 1)
  {}

  /** cp, after both files have been opened.  The source's bytes do not change, and everything else on the
      volume but the target stays as it was.  The target ends up starting with the bytes of the source,
      and so does its record, exactly when the free blocks and its own were enough.  Otherwise its record
      is CutShort; and when the target is closed, blocks are lost exactly if NoneLost does not hold. */
  method Cp(from: File, to: File)
    requires Pair(from, to) && from.offset == 0 && to.offset == 0 && Divides(to.vol.bsize, CHUNK)
    modifies to.vol`blockMap, to.vol`disk, to.vol`table, to.inode`data, to.inode`size, to`offset, from`offset
    ensures Pair(from, to) && from.Held() == old(from.Held())
    ensures Later(old(to.State()), to.State(), to.inode.ino - 1)
    ensures Copied(from, to) <==> old(to.Supply()) >= Ceil(from.inode.size, to.vol.bsize)
    ensures Copied(from, to) && from.inode.size > 0 ==>
      to.inode.size == Times(Ceil(from.inode.size, to.vol.bsize), to.vol.bsize)
    ensures Copied(from, to) && from.inode.size > 0 ==> to.vol.Open(to.inode)
    ensures from.inode.size == 0 ==> to.Record() == old(to.Record())
    ensures !Copied(from, to) ==>
      CutShort(to, old(to.Supply()), from.inode.size, from.Held(), old(to.Record()))
    ensures old(to.vol.Open(to.inode)) && old(Tight(to.vol.Now().v)) ==>
      && Good(to.vol.Now(), to.vol.bsize)
      && (Tight(to.vol.Now().v) <==>
            NoneLost(old(to.Supply()), old(Free(Bits(to.vol.blockMap))), from.inode.size, to.vol.bsize))
  {
    hide Good, Later, Content, Whole, Bits, Times, Ceil, Free, Run, Mapped, Grown, Prefix, Tight, CutShort, NoneLost;
    hide Progress, Origin;
    hide DirOk, PointersUsed, Unshared, Untouched, Going, Stuck, Spliced;
    SourceHeld(from, to);
    ghost var b := Before(to.State(), from.inode.size, from.Held(), to.Supply(), to.Record(), to.inode.data);
    ghost var p := IsGoing;
    LaterSame(b.s, to.inode.ino - 1);
    Starts(from, to, b);
    ghost var wasOpen := to.vol.Open(to.inode) && Tight(to.vol.Now().v);
    if wasOpen { to.OpenFile(); }
    var buf := new Byte[CHUNK];
    while true
      invariant Copying(from, to, b, p) && fresh(buf)
      decreases from.inode.size - from.offset
    {
      ghost var off := from.offset;
      var count := ReadChunk(from, buf);
      if count <= 0 {
        break;
      }
      count, p := StoreChunk(from, to, buf, count, off, b, p);
    }
    CopyEnds(from, to, b, p);
    SourceTotal(from, to, b);
    EndsInTable(from, to, b, p);
    if wasOpen { CopyLoses(from, to, b, p); }
  }

  /** A source of two blocks, an empty target and one free block: the block is taken, the second is missing,
      and the target, when it is closed, is still empty.  Nobody owns the block any more. */
  method CpLosesBlock(from: File, to: File)
    requires Pair(from, to) && from.offset == 0 && to.offset == 0 && to.vol.bsize == 512
    requires from.inode.size == 1024 && to.vol.Open(to.inode) && Tight(to.vol.Now().v)
    requires to.inode.data == ZEROS && to.inode.size == 0 && Free(Bits(to.vol.blockMap)) == 1
    modifies to.vol`blockMap, to.vol`disk, to.vol`table, to.inode`data, to.inode`size, to`offset, from`offset
    ensures Pair(from, to)
    ensures !Tight(to.vol.Now().v) && to.Record() == old(to.Record()) && to.Record().size == 0
  {
    hide Good, Later, Content, Whole, Times, Ceil, Free, Mapped, Grown, Prefix, Tight, Fitting, LastFits;
    OneBlockShort();
    assert to.Supply() == 1 by { assert Run(ZEROS) == 0; }
    to.OpenFile();
    Cp(from, to);
  }

  lemma OneBlockShort()
    ensures Ceil(1024, 512) == 2 && Fitting(1, 512) == 0 && Times(0, 512) == 0
    ensures !LastFits(1, 1024, 512) && !NoneLost(1, 1, 1024, 512)
  {}

  lemma Starts(from: File, to: File, b: Before)
    requires Pair(from, to) && from.offset == 0 && to.offset == 0
    requires b == Before(to.State(), from.inode.size, from.Held(), to.Supply(), to.Record(), to.inode.data)
    requires Later(b.s, to.State(), to.inode.ino - 1) && Good(to.State(), to.vol.bsize)
    requires from.Held() == Whole(to.State(), from.inode.ino - 1)
    ensures Copying(from, to, b, IsGoing)
  {
    hide Good, Later, Content, Whole, Bits, Times, Ceil, Free, Run, Mapped, Prefix;
  }

  lemma EndsInTable(from: File, to: File, b: Before, p: Phase)
    requires Copying(from, to, b, p) && from.offset == from.inode.size && b.total == from.inode.size
    ensures p.IsGoing? && b.total > 0 ==>
      to.vol.Open(to.inode) && to.inode.size == Times(Ceil(b.total, to.vol.bsize), to.vol.bsize)
    ensures p.IsGoing? && b.total == 0 ==> to.Record() == b.record
  {
    hide Good, Later, Content, Whole, Bits, Times, Ceil, Free, Run, Mapped, Prefix;
  }

  // ----- sys_execve -----

  const PAGE := 4096

  /** One call of sys_read into memory that the program fits. */
  method LoadPage(file: File, mem: array<Byte>, p: nat) returns (r: int)
    requires file.Readable() && file.offset == p <= file.inode.size && Divides(file.vol.bsize, PAGE)
    requires p == file.inode.size || p % PAGE == 0
    requires p <= mem.Length && Times(Ceil(file.inode.size, file.vol.bsize), file.vol.bsize) <= mem.Length
    modifies mem, file`offset
    ensures file.Readable() && 0 <= r == Min(PAGE, file.inode.size - p) && file.offset == p + r <= mem.Length
    ensures mem[..p] == old(mem[..p]) && (r > 0 ==> mem[p..p + r] == file.Held()[p..p + r])
  {
    hide Content, Run, Times, BlockIndex, BlockOffset, Ceil, Mapped;
    file.NeedIs(PAGE);
    if p % PAGE == 0 {
      LoadRoom(p, file.Need(PAGE), file.inode.size, file.vol.bsize);
    }
    r := file.SysRead(mem, p, PAGE);
  }

  /** The load loop of sys_execve: mem is memory from the load address on.  It ends, and then the
      program lies there in order. */
  method Load(file: File, mem: array<Byte>) returns (p: nat)
    requires file.Readable() && file.offset == 0 && Divides(file.vol.bsize, PAGE)
    requires Times(Ceil(file.inode.size, file.vol.bsize), file.vol.bsize) <= mem.Length
    modifies mem, file`offset
    ensures p == file.inode.size <= mem.Length && mem[..p] == file.Held()[..p]
  {
    hide Content, Run, Times, Ceil, Mapped;
    p := 0;
    while true
      invariant file.Readable() && file.offset == p <= file.inode.size && p <= mem.Length
      invariant p == file.inode.size || p % PAGE == 0
      invariant mem[..p] == file.Held()[..p]
      decreases file.inode.size - p
    {
      var r := LoadPage(file, mem, p);
      if r <= 0 {
        break;
      }
      assert mem[..p + r] == mem[..p] + mem[p..p + r];
      p := p + r;
    }
  }

  lemma LoadRoom(p: nat, need: nat, size: nat, bsize: nat)
    requires Divides(bsize, PAGE) && need <= PAGE && p % PAGE == 0 && p + need <= size
    ensures BlockOffset(p, bsize) == 0 && need <= Times(Ceil(need, bsize), bsize)
    ensures p + Times(Ceil(need, bsize), bsize) <= Times(Ceil(size, bsize), bsize)
  {
    FetchRoom(p, need, bsize, PAGE);
    ChunkMath(p, need, bsize, PAGE);
    CeilGrows(p + need, size, bsize);
  }
}
