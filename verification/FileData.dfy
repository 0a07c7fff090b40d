/** fs/tfs/file.c and fs/file.c: reading and writing a file by blocks and by bytes. */
module FileData {
  import opened Bytes
  import opened Bitmap
  import opened Ownership
  import opened Contents
  import opened TfsState
  import opened FileState
  import opened FreeBlocks
  import opened Namespace
  import opened Tfs

  const WRAP := 0x1_0000_0000

  function Min(a: int, b: int): int { if a < b then a else b }

  function Max(a: int, b: int): int { if a < b then b else a }

  class File {
    const vol: Volume
    const inode: Inode
    var offset: nat

    constructor (vol: Volume, inode: Inode)
      ensures this.vol == vol && this.inode == inode && offset == 0
    {
      this.vol, this.inode, offset := vol, inode, 0;
    }

    /** The volume, with the file's inode as it is in memory. */
    ghost function State(): State
      requires 1 <= inode.ino <= |vol.table|
      reads vol, inode
    {
      vol.With(inode)
    }

    ghost predicate Valid()
      reads vol, inode
    {
      && vol.Ready(inode) && inode.mode != DIR && Prefix(inode.data)
      && 0 <= inode.size <= |Whole(State(), inode.ino - 1)|
    }

    /** The bytes in its blocks, and those that count. */
    ghost function Stored(): seq<Byte>
      requires 1 <= inode.ino <= |vol.table|
      reads vol, inode
    {
      Whole(State(), inode.ino - 1)
    }

    ghost function Text(): seq<Byte>
      requires 1 <= inode.ino <= |vol.table| && 0 <= inode.size <= |Stored()|
      reads vol, inode
    {
      Stored()[..inode.size]
    }

    /** Free blocks and the file's own: allocation conserves the sum. */
    ghost function Supply(): nat
      reads vol, inode
    {
      Free(Bits(vol.blockMap)) + Run(inode.data)
    }

    lemma Facts()
      requires Valid()
      ensures |inode.data| == N_BLOCKS && Run(inode.data) <= N_BLOCKS
      ensures |Stored()| == Times(Run(inode.data), vol.bsize)
      ensures Data(State(), inode.ino - 1) == inode.data && IsFile(State(), inode.ino - 1)
      ensures Mapped(vol.disk, inode.data, Run(inode.data)) && BlocksOf(vol.disk, vol.bsize)
      ensures Stored() == Content(vol.disk, inode.data, Run(inode.data))
      ensures vol.bsize > 0
    {
      PointersGood(State(), vol.bsize, inode.ino - 1);
      WholeLength(State(), vol.bsize, inode.ino - 1);
    }

    lemma Length()
      requires Valid()
      ensures |Stored()| == Times(Run(inode.data), vol.bsize) && vol.bsize > 0 && Run(inode.data) <= N_BLOCKS
    {
      Facts();
    }

    /** The block for an index: mapped already, or taken now. */
    method BlockFor(index: nat) returns (block: int)
      requires Valid() && index <= Run(inode.data)
      modifies vol`blockMap, inode`data
      ensures Valid() && Supply() == old(Supply())
      ensures Later(old(State()), State(), inode.ino - 1)
      ensures block < 0 ==> State() == old(State())
      ensures block < 0 ==> block == (if index >= N_BLOCKS then -EFBIG else -ENOSPC) && index == Run(inode.data)
      ensures block == -ENOSPC ==> Free(Bits(vol.blockMap)) == 0
      ensures block >= 0 ==> index < Run(inode.data) && block == inode.data[index]
      ensures Run(inode.data) == if block >= 0 && index == old(Run(inode.data)) then index + 1 else old(Run(inode.data))
      ensures Grown(old(inode.data), inode.data)
      ensures |old(Stored())| <= |Stored()| && Stored()[..|old(Stored())|] == old(Stored())
    {
      hide Good, Bits, Mapped, Later, Whole, Prefix, Free, Times, BlockIndex, BlockOffset;
      ghost var s, i := State(), inode.ino - 1;
      LaterSame(s, i);
      Facts();
      block := inode.BMap(index);
      if block == 0 {
        if index >= N_BLOCKS {
          return -EFBIG;
        }
        NoneFree(Bits(vol.blockMap));
        block := vol.AllocBlock(vol.area);
        if block < 0 {
          return -ENOSPC;
        }
        OneLess(Bits(old(vol.blockMap)), block);
        Grow(s, vol.bsize, i, block);
        GrownByOne(inode.data, block);
        inode.data := inode.data[index := block];
        assert State() == WithBlock(s, i, index, block);
      }
    }

    /** i_size += MAX(0, offset + bytes_written - i_size), all unsigned, so that the maximum is always
        the difference. */
    method Resize(end: nat)
      requires 0 <= inode.size < WRAP && end < WRAP
      modifies inode`size
      ensures inode.size == end
    {
      var grown := (end - inode.size) % WRAP;
      inode.size := (inode.size + grown) % WRAP;
    }

    /** The bytes into a block that the file has, the size, and the write back. */
    method StoreBlock(index: nat, o: nat, pos: nat, part: seq<Byte>)
      requires Valid() && index < Run(inode.data) && pos == Times(index, vol.bsize) + o && o + |part| == vol.bsize
      modifies vol`disk, inode`size
      ensures Valid() && Later(old(State()), State(), inode.ino - 1)
      ensures inode.size == pos + |part| <= |Stored()|
      ensures pos <= |old(Stored())| && Stored()[..pos + |part|] == old(Stored())[..pos] + part
    {
      hide Good, Bits, Mapped, Later, Whole, Prefix, Free, Times, BlockIndex, BlockOffset, Splice, Run;
      ghost var s, i := State(), inode.ino - 1;
      Facts();
      WriteStep(s, vol.bsize, i, index, o, pos, part);
      SizeFits();
      var block := inode.BMap(index);
      vol.disk := vol.disk[block := Splice(vol.disk[block], o, part)];
      Resize(pos + |part|);
      assert State() == Written(s, i, index, o, part, pos + |part|);
    }

    /** Part of block index, from o to its end, which is where the file is written at pos. */
    method WriteBlock(index: nat, o: nat, pos: nat, part: seq<Byte>) returns (r: int)
      requires Valid() && pos == Times(index, vol.bsize) + o && o + |part| == vol.bsize
      requires index < Run(inode.data) || (index == Run(inode.data) && o == 0)
      modifies vol`blockMap, vol`disk, inode`data, inode`size
      ensures Valid() && Supply() == old(Supply()) && Later(old(State()), State(), inode.ino - 1)
      ensures r < 0 ==> State() == old(State())
      ensures r < 0 ==> if index >= N_BLOCKS then r == -EFBIG else r == -ENOSPC && Free(Bits(vol.blockMap)) == 0
      ensures r < 0 ==> index == Run(inode.data)
      ensures r >= 0 ==> inode.size == pos + |part| <= |Stored()| && index < Run(inode.data)
      ensures r >= 0 ==> pos <= |old(Stored())| && Stored()[..pos + |part|] == old(Stored())[..pos] + part
      ensures Run(inode.data) == if r >= 0 && index == old(Run(inode.data)) then index + 1 else old(Run(inode.data))
      ensures Grown(old(inode.data), inode.data)
    {
      hide Good, Bits, Mapped, Later, Whole, Prefix, Free, Times, BlockIndex, BlockOffset, Run, Grown;
      ghost var s0, w0, i := State(), Stored(), inode.ino - 1;
      Length();
      Products(index, Run(inode.data), vol.bsize);
      var block := BlockFor(index);
      if block < 0 {
        return block;
      }
      ghost var s, w := State(), Stored();
      StoreBlock(index, o, pos, part);
      LaterTwice(s0, s, State(), i);
      TakeTwice(w, w0, pos);
      return 0;
    }

    lemma SizeFits()
      requires Valid()
      ensures inode.size <= |Stored()| <= Times(N_BLOCKS, vol.bsize) < 0x8000_0000
    {
      Facts();
      Products(Run(inode.data), N_BLOCKS, vol.bsize);
    }

    /** What holds while a write is under way, of the file as it was: w bytes from buf are in it. */
    ghost predicate Writing(s0: TfsState.State, supply: nat, src: seq<Byte>)
      reads this, vol, inode
    {
      && Valid() && Supply() == supply && Later(s0, State(), inode.ino - 1)
      && inode.size == offset + |src| && offset <= |Whole(s0, inode.ino - 1)|
      && Stored()[..inode.size] == Whole(s0, inode.ino - 1)[..offset] + src
    }

    /** offset >> s_block_shift and offset & (s_block_size - 1) */
    method Position() returns (index: nat, bufoff: nat)
      requires Valid()
      ensures Times(index, vol.bsize) + bufoff == offset && bufoff < vol.bsize
      ensures index == BlockIndex(offset, vol.bsize) && bufoff == BlockOffset(offset, vol.bsize)
      ensures offset <= |Stored()| ==> index < Run(inode.data) || (index == Run(inode.data) && bufoff == 0)
    {
      hide Good, Bits, Mapped, Later, Whole, Prefix, Free, Times, BlockIndex, BlockOffset, Run;
      Length();
      PosInFile(offset, vol.bsize, Run(inode.data));
      index, bufoff := BlockIndex(offset, vol.bsize), BlockOffset(offset, vol.bsize);
    }

    /** The record of the inode in the table. */
    ghost function Record(): Node
      requires 1 <= inode.ino <= |vol.table|
      reads vol, inode
    {
      vol.table[inode.ino - 1]
    }

    /** The inode in memory may have more blocks than its record. */
    ghost predicate Behind()
      requires 1 <= inode.ino <= |vol.table|
      reads vol, inode
    {
      Record().mode != DIR && Prefix(Record().data) && Grown(Record().data, inode.data)
    }

    /** Without the inode in memory, as when the file is closed: the volume is good, and loses exactly the
        blocks that the record does not have. */
    lemma Closed()
      requires Valid() && Behind()
      ensures Good(vol.Now(), vol.bsize)
      ensures Tight(State().v) ==> (Tight(vol.Now().v) <==> Run(Record().data) == Run(inode.data))
      ensures 0 <= Times(Run(Record().data), vol.bsize) <= |Stored()|
      ensures Whole(vol.Now(), inode.ino - 1) == Stored()[..Times(Run(Record().data), vol.bsize)]
    {
      hide Good, Tight, Run, Prefix, Grown, Bits, Whole, Times, Mapped, Content, Free;
      OlderWhole(State(), vol.bsize, inode.ino - 1, Record());
      Facts();
      ghost var i := inode.ino - 1;
      OlderRecord(State(), vol.bsize, i, Record());
      assert vol.table[i := inode.Record()][i := vol.table[i]] == vol.table;
      assert WithNode(State(), i, Record()) == vol.Now();
    }

    /** A file whose inode is in memory as in the table. */
    lemma OpenFile()
      requires Valid() && vol.Open(inode)
      ensures State() == vol.Now() && Record() == inode.Record() && Behind()
    {
      vol.OpenReady(inode);
      assert Grown(inode.data, inode.data);
    }

    /** How many blocks the file has when the write ends. */
    ghost function Limit(): nat
      reads vol, inode
    {
      Min(N_BLOCKS, Supply())
    }

    /** tfs_write: whole blocks, the first from the offset on.  The file then ends where the write
        ends, even when it was longer.  When the blocks run out, all those before are written, in memory
        the file ends with them, and the table has the inode as before: a block that was taken is lost
        with the inode in memory. */
    method Write(buf: array<Byte>, at: nat, blocks: nat) returns (r: int)
      requires Valid() && offset <= |Stored()| && at + Times(blocks, vol.bsize) <= buf.Length
      modifies vol`blockMap, vol`disk, vol`table, inode`data, inode`size
      ensures Valid() && Supply() == old(Supply()) && Later(old(State()), State(), inode.ino - 1)
      ensures blocks == 0 ==> r == 0 && State() == old(State()) && vol.table == old(vol.table)
      ensures blocks > 0 && r >= 0 ==> r == Times(blocks, vol.bsize) - BlockOffset(offset, vol.bsize) && vol.Open(inode)
      ensures blocks > 0 && r >= 0 ==> at + r <= buf.Length && inode.size == offset + r
      ensures blocks > 0 && r >= 0 ==> Text() == old(Stored())[..offset] + buf[at..at + r]
      ensures r < 0 <==> blocks > 0 && Limit() < BlockIndex(offset, vol.bsize) + blocks
      ensures blocks > 0 && r >= 0 ==>
        Run(inode.data) == Max(old(Run(inode.data)), BlockIndex(offset, vol.bsize) + blocks)
      ensures r < 0 ==> r in {-EFBIG, -ENOSPC}
      ensures r < 0 ==> |Stored()| < offset - BlockOffset(offset, vol.bsize) + Times(blocks, vol.bsize)
      ensures r < 0 ==> offset <= |Stored()| && Stored()[..offset] == old(Stored())[..offset]
      ensures r < 0 ==> vol.table == old(vol.table) && Run(inode.data) == Limit()
      ensures r < 0 ==> Stops(old(Stored()), buf[..], at, old(inode.size))
      ensures r == -EFBIG ==> Run(inode.data) == N_BLOCKS
      ensures r == -ENOSPC ==> Free(Bits(vol.blockMap)) == 0
      ensures Grown(old(inode.data), inode.data) && Run(inode.data) >= old(Run(inode.data))
      ensures old(vol.Open(inode)) && old(Tight(vol.Now().v)) ==>
        (Tight(vol.Now().v) <==> r >= 0 || Run(inode.data) == old(Run(inode.data)))
    {
      hide Good, Bits, Mapped, Later, Whole, Prefix, Free, Times, BlockIndex, BlockOffset, Splice, Run, Tight, Grown;
      ghost var wasOpen := vol.Open(inode) && Tight(vol.Now().v);
      if wasOpen { OpenFile(); }
      r := WriteBlocks(buf, at, blocks);
      if wasOpen { AfterWrite(old(State()), old(vol.table), old(inode.data), r); }
    }

    /** What a failed write leaves in memory: whole blocks from the buffer, to the last that there was. */
    ghost predicate Stops(was: seq<Byte>, buf: seq<Byte>, at: nat, size: int)
      requires 1 <= inode.ino <= |vol.table|
      reads this, vol, inode
    {
      && offset <= |Stored()| && offset <= |was| && at + |Stored()| - offset <= |buf|
      && Stored() == was[..offset] + buf[at..at + |Stored()| - offset]
      && inode.size == if |Stored()| == offset then size else |Stored()|
    }

    /** tfs_write but for what it leaves of the volume when the file is closed. */
    method WriteBlocks(buf: array<Byte>, at: nat, blocks: nat) returns (r: int)
      requires Valid() && offset <= |Stored()| && at + Times(blocks, vol.bsize) <= buf.Length
      modifies vol`blockMap, vol`disk, vol`table, inode`data, inode`size
      ensures Valid() && Supply() == old(Supply()) && Later(old(State()), State(), inode.ino - 1)
      ensures blocks == 0 ==> r == 0 && State() == old(State()) && vol.table == old(vol.table)
      ensures blocks > 0 && r >= 0 ==> r == Times(blocks, vol.bsize) - BlockOffset(offset, vol.bsize) && vol.Open(inode)
      ensures blocks > 0 && r >= 0 ==> at + r <= buf.Length && inode.size == offset + r
      ensures blocks > 0 && r >= 0 ==> Text() == old(Stored())[..offset] + buf[at..at + r]
      ensures r < 0 <==> blocks > 0 && Limit() < BlockIndex(offset, vol.bsize) + blocks
      ensures blocks > 0 && r >= 0 ==>
        Run(inode.data) == Max(old(Run(inode.data)), BlockIndex(offset, vol.bsize) + blocks)
      ensures r < 0 ==> r in {-EFBIG, -ENOSPC}
      ensures r < 0 ==> |Stored()| < offset - BlockOffset(offset, vol.bsize) + Times(blocks, vol.bsize)
      ensures r < 0 ==> offset <= |Stored()| && Stored()[..offset] == old(Stored())[..offset]
      ensures r == -EFBIG ==> Run(inode.data) == N_BLOCKS
      ensures r == -ENOSPC ==> Free(Bits(vol.blockMap)) == 0
      ensures r < 0 ==> vol.table == old(vol.table) && Run(inode.data) == Limit()
      ensures r < 0 ==> Stops(old(Stored()), buf[..], at, old(inode.size))
      ensures Grown(old(inode.data), inode.data) && Run(inode.data) >= old(Run(inode.data))
    {
      hide Good, Bits, Mapped, Later, Whole, Prefix, Free, Times, BlockIndex, BlockOffset, Splice, Run, Grown;
      hide Limit, Stops;
      ghost var s0, supply := State(), Supply();
      assert s0.v.nodes[inode.ino - 1] == inode.Record();
      LaterSame(s0, inode.ino - 1);
      GrownSame(inode.data);
      if blocks == 0 {
        return 0;
      }
      var index, bufoff := Position();
      ProductSteps(blocks, index, vol.bsize);
      var written := vol.bsize - bufoff;
      r := WriteBlock(index, bufoff, offset, buf[at..at + written]);
      Length();
      LimitReached();
      if r < 0 {
        assert s0.v.nodes[inode.ino - 1] == inode.Record();
        NothingWritten(old(Stored()), buf[..], at);
        return r;
      }
      ghost var d := inode.data;
      r := WriteRest(buf, at, index + 1, written, blocks - 1, s0, supply);
      GrownTwice(old(inode.data), d, inode.data);
      LimitReached();
      if r < 0 {
        StopsBehind(old(Stored()), buf[..], at, old(inode.size));
      }
    }

    lemma NothingWritten(was: seq<Byte>, buf: seq<Byte>, at: nat)
      requires 1 <= inode.ino <= |vol.table| && Stored() == was && offset == |was| && at <= |buf|
      ensures Stops(was, buf, at, inode.size)
    {}

    lemma StopsBehind(was: seq<Byte>, buf: seq<Byte>, at: nat, size: int)
      requires 1 <= inode.ino <= |vol.table| && offset < |Stored()| && Stops(was, buf, at, 0)
      ensures Stops(was, buf, at, size)
    {}

    /** Closing the file after a write. */
    lemma AfterWrite(s: TfsState.State, table: seq<Node>, data: seq<int>, r: int)
      requires Valid() && Later(s, State(), inode.ino - 1) && Tight(s.v)
      requires inode.ino <= |table| && table[inode.ino - 1].mode != DIR && table[inode.ino - 1].data == data
      requires Prefix(data) && Grown(data, inode.data)
      requires vol.table == table || vol.Open(inode)
      requires r < 0 ==> vol.table == table
      requires vol.table == table && r >= 0 ==> inode.data == data
      ensures Tight(vol.Now().v) <==> r >= 0 || Run(inode.data) == Run(data)
    {
      hide Good, Tight, Run, Prefix, Bits;
      if vol.table == table {
        Closed();
      } else {
        OpenFile();
      }
    }

    /** The loop of tfs_write, and the inode written back. */
    method WriteRest(buf: array<Byte>, at: nat, first: nat, done: nat, blocks: nat,
                     ghost s0: TfsState.State, ghost supply: nat)
      returns (r: int)
      requires at + done + Times(blocks, vol.bsize) <= buf.Length && done > 0
      requires Writing(s0, supply, buf[at..at + done])
      requires first <= Run(inode.data) && Times(first, vol.bsize) == offset + done
      modifies vol`blockMap, vol`disk, vol`table, inode`data, inode`size
      ensures r < 0 ==> Valid() && Supply() == supply && Later(s0, State(), inode.ino - 1)
      ensures r < 0 ==> r in {-EFBIG, -ENOSPC}
      ensures r < 0 ==> |Stored()| < offset + done + Times(blocks, vol.bsize)
      ensures Run(inode.data) >= old(Run(inode.data)) && Grown(old(inode.data), inode.data)
      ensures r < 0 ==> offset <= |Stored()| && Stored()[..offset] == Whole(s0, inode.ino - 1)[..offset]
      ensures r < 0 ==> vol.table == old(vol.table) && Run(inode.data) == Limit() < first + blocks
      ensures r < 0 ==> offset < |Stored()| && Stops(Whole(s0, inode.ino - 1), buf[..], at, 0)
      ensures r >= 0 ==> Run(inode.data) == Max(old(Run(inode.data)), first + blocks)
      ensures r == -EFBIG ==> Run(inode.data) == N_BLOCKS
      ensures r == -ENOSPC ==> Free(Bits(vol.blockMap)) == 0
      ensures r >= 0 ==> r == done + Times(blocks, vol.bsize) && vol.Open(inode)
      ensures r >= 0 ==> Writing(s0, supply, buf[at..at + r])
    {
      hide Good, Bits, Mapped, Later, Whole, Prefix, Free, Times, BlockIndex, BlockOffset, Splice, Writing, Run;
      hide Grown, Stops, Limit;
      var left: nat, index: nat, written: nat := blocks, first, done;
      GrownSame(inode.data);
      ProductSteps(blocks + 1, 0, vol.bsize);
      while left > 0
        invariant left <= blocks && index <= Run(inode.data) && Times(index, vol.bsize) == offset + written
        invariant written + Times(left, vol.bsize) == done + Times(blocks, vol.bsize)
        invariant at + written <= buf.Length && Writing(s0, supply, buf[at..at + written])
        invariant Run(inode.data) == Max(old(Run(inode.data)), index) && Grown(old(inode.data), inode.data)
        invariant vol.table == old(vol.table) && index - first == blocks - left && written > 0
      {
        ghost var d := inode.data;
        ProductSteps(left, index, vol.bsize);
        ghost var src := buf[at..at + written];
        var part := buf[at + written..at + written + vol.bsize];
        assert buf[at..at + written + vol.bsize] == src + part;
        r := WriteMore(index, s0, supply, src, part);
        GrownTwice(old(inode.data), d, inode.data);
        if r < 0 {
          Products(0, left - 1, vol.bsize);
          ProductSteps(1, 0, vol.bsize);
          Length();
          LimitReached();
          FrontKept(s0, supply, src, buf[..], at);
          return r;
        }
        written := written + vol.bsize;
        left, index := left - 1, index + 1;
      }
      ProductSteps(1, 0, vol.bsize);
      Finish(s0, supply, buf[at..at + written]);
      return written;
    }

    /** When a write stops, its bytes are the last of the file. */
    lemma FrontKept(s0: TfsState.State, supply: nat, src: seq<Byte>, buf: seq<Byte>, at: nat)
      requires Writing(s0, supply, src) && |Stored()| == offset + |src| && src != []
      requires at + |src| <= |buf| && src == buf[at..at + |src|]
      ensures offset < |Stored()| && Stored()[..offset] == Whole(s0, inode.ino - 1)[..offset]
      ensures Stops(Whole(s0, inode.ino - 1), buf, at, 0)
    {
      hide Whole, Good, Later, Free, Run, Bits;
      assert Stored()[..inode.size] == Stored();
    }

    lemma LimitReached()
      requires Valid()
      ensures Run(inode.data) <= Limit()
      ensures Run(inode.data) == N_BLOCKS || Free(Bits(vol.blockMap)) == 0 ==> Run(inode.data) == Limit()
    {
      Facts();
    }

    method Finish(ghost s0: TfsState.State, ghost supply: nat, ghost src: seq<Byte>)
      requires Writing(s0, supply, src)
      modifies vol`table
      ensures Writing(s0, supply, src) && vol.Open(inode)
    {
      hide Good, Bits, Mapped, Later, Whole, Prefix, Free, Times, BlockIndex, BlockOffset, Splice;
      vol.IWrite(inode);
    }

    /** One more whole block. */
    method WriteMore(index: nat, ghost s0: TfsState.State, ghost supply: nat, ghost src: seq<Byte>, part: seq<Byte>)
      returns (r: int)
      requires Writing(s0, supply, src) && index <= Run(inode.data) && Times(index, vol.bsize) == offset + |src|
      requires |part| == vol.bsize
      modifies vol`blockMap, vol`disk, inode`data, inode`size
      ensures Valid() && Supply() == supply && Later(s0, State(), inode.ino - 1)
      ensures r < 0 ==> if index >= N_BLOCKS then r == -EFBIG else r == -ENOSPC && Free(Bits(vol.blockMap)) == 0
      ensures r < 0 ==> |Stored()| == Times(index, vol.bsize) && index == Run(inode.data)
      ensures Run(inode.data) >= old(Run(inode.data)) && Grown(old(inode.data), inode.data)
      ensures Run(inode.data) == if r >= 0 && index == old(Run(inode.data)) then index + 1 else old(Run(inode.data))
      ensures r < 0 ==> Writing(s0, supply, src)
      ensures r >= 0 ==> Writing(s0, supply, src + part) && index + 1 <= Run(inode.data)
    {
      hide Good, Bits, Mapped, Later, Whole, Prefix, Free, Times, BlockIndex, BlockOffset, Splice, Grown;
      ghost var s := State();
      assert s.v.nodes[inode.ino - 1] == inode.Record();
      r := WriteBlock(index, 0, Times(index, vol.bsize), part);
      assert State().v.nodes[inode.ino - 1] == inode.Record();
      Length();
      LaterTwice(s0, s, State(), inode.ino - 1);
      ghost var w := Whole(s0, inode.ino - 1)[..offset];
      assert w + src + part == w + (src + part);
    }

    // ----- reading -----

    /** The pointers and the size can be trusted; the rest of the volume does not matter. */
    ghost predicate Readable()
      reads this, vol, inode
    {
      && vol.bsize > 0 && BlocksOf(vol.disk, vol.bsize) && |inode.data| == N_BLOCKS
      && Mapped(vol.disk, inode.data, Run(inode.data))
      && 0 <= inode.size <= |Held()| < WRAP && offset < WRAP
    }

    ghost function Held(): seq<Byte>
      reads vol, inode
    {
      if Mapped(vol.disk, inode.data, Run(inode.data)) then Content(vol.disk, inode.data, Run(inode.data)) else []
    }

    lemma HeldLength()
      requires Readable()
      ensures |Held()| == Times(Run(inode.data), vol.bsize) && vol.bsize > 0
      ensures |inode.data| == N_BLOCKS && Run(inode.data) <= N_BLOCKS
    {
      ContentLength(vol.disk, vol.bsize, inode.data, Run(inode.data));
    }

    lemma HeldBlock(index: nat)
      requires Readable() && index < Run(inode.data)
      ensures 0 <= Times(index, vol.bsize) <= Times(index, vol.bsize) + vol.bsize <= |Held()|
      ensures Held()[Times(index, vol.bsize)..Times(index, vol.bsize) + vol.bsize] == vol.disk[inode.data[index]]
    {
      ContentBlock(vol.disk, vol.bsize, inode.data, Run(inode.data), index);
    }

    /** tfs_read, from a block that the file has: whole blocks up to the last one. */
    method Read(buf: array<Byte>, at: nat, blocks: nat) returns (r: int)
      requires Readable() && at + Times(blocks, vol.bsize) <= buf.Length
      modifies buf
      ensures blocks == 0 ==> r == 0
      ensures blocks > 0 && offset >= inode.size ==> r == -1
      ensures r <= 0 ==> buf[..] == old(buf[..])
      ensures blocks > 0 && offset < inode.size ==>
        var start := Times(BlockIndex(offset, vol.bsize), vol.bsize);
        var m := Min(blocks, Run(inode.data) - BlockIndex(offset, vol.bsize));
        && m > 0 && r == Times(m, vol.bsize) && 0 <= start <= start + r <= |Held()| && at + r <= buf.Length
        && buf[..] == Splice(old(buf[..]), at, Held()[start..start + r])
    {
      hide Content, Run, Splice, Times, BlockIndex, BlockOffset;
      if blocks == 0 {
        return 0;
      }
      if offset >= inode.size {
        return -1;
      }
      HeldLength();
      PosInFile(offset, vol.bsize, Run(inode.data));
      r := ReadFrom(buf, at, BlockIndex(offset, vol.bsize), blocks);
    }

    /** memcpy of one block to where the buffer pointer is. */
    method CopyBlock(buf: array<Byte>, at: nat, index: nat, ghost start: nat, copied: nat, ghost was: seq<Byte>)
      requires Readable() && index < Run(inode.data) && Times(index, vol.bsize) == start + copied <= |Held()|
      requires at + copied + vol.bsize <= buf.Length == |was|
      requires buf[..] == Splice(was, at, Held()[start..start + copied])
      modifies buf
      ensures start + copied + vol.bsize <= |Held()|
      ensures buf[..] == Splice(was, at, Held()[start..start + copied + vol.bsize])
    {
      hide Content, Run, Splice, Times, BlockIndex, BlockOffset;
      ghost var held := Held();
      HeldBlock(index);
      var block := inode.BMap(index);
      CopyInto(buf, at + copied, vol.disk[block]);
      SpliceJoin(was, at, held[start..start + copied], vol.disk[block]);
      assert held[start..start + copied] + vol.disk[block] == held[start..start + copied + vol.bsize];
    }

    /** The loop of tfs_read. */
    method ReadFrom(buf: array<Byte>, at: nat, first: nat, blocks: nat) returns (r: int)
      requires Readable() && at + Times(blocks, vol.bsize) <= buf.Length && first < Run(inode.data) && blocks > 0
      modifies buf
      ensures var start, m := Times(first, vol.bsize), Min(blocks, Run(inode.data) - first);
        && m > 0 && r == Times(m, vol.bsize) > 0 && 0 <= start <= start + r <= |Held()| && at + r <= buf.Length
        && buf[..] == Splice(old(buf[..]), at, Held()[start..start + r])
    {
      hide Content, Run, Splice, Times, BlockIndex, BlockOffset, Readable, Held, Mapped;
      ghost var n, held, was, start := Run(inode.data), Held(), buf[..], Times(first, vol.bsize);
      HeldLength();
      HeldBlock(first);
      ProductSteps(blocks, 0, vol.bsize);
      var left: nat, index: nat, copied: nat := blocks, first, 0;
      SpliceNothing(was, at);
      assert held[start..start] == [];
      while left > 0
        invariant left <= blocks && index <= n && index - first == blocks - left
        invariant Times(index, vol.bsize) == start + copied && copied == Times(blocks - left, vol.bsize)
        invariant copied + Times(left, vol.bsize) == Times(blocks, vol.bsize) && Times(left, vol.bsize) >= 0
        invariant start + copied <= |held| && buf[..] == Splice(was, at, held[start..start + copied])
      {
        var block := inode.BMap(index);
        if block == 0 {
          break;
        }
        ProductSteps(left, index, vol.bsize);
        ProductSteps(1, blocks - left, vol.bsize);
        CopyBlock(buf, at, index, start, copied, was);
        copied := copied + vol.bsize;
        left, index := left - 1, index + 1;
      }
      ProductSteps(Min(blocks, n - first), 0, vol.bsize);
      return copied;
    }

    // ----- sys_read and sys_write -----

    /** bytes_need, with the unsigned difference of size and offset. */
    function Need(size: nat): nat
      reads this, inode
    {
      Min(size, (inode.size - offset) % WRAP)
    }

    /** The bytes asked for lie in the blocks that sys_read asks tfs_read for; always so at the start
        of a block, as the number of blocks does not count the offset in the first. */
    predicate InBlocks(size: nat)
      requires vol.bsize > 0
      reads this, inode
    {
      BlockOffset(offset, vol.bsize) + Need(size) <= Times(Ceil(Need(size), vol.bsize), vol.bsize)
    }

    lemma AlignedInBlocks(size: nat)
      requires vol.bsize > 0 && BlockOffset(offset, vol.bsize) == 0
      ensures InBlocks(size)
    {}

    method SysRead(buf: array<Byte>, at: nat, size: nat) returns (r: int)
      requires Readable() && at <= buf.Length
      requires Need(size) > 0 ==>
        && at + Times(Ceil(Need(size), vol.bsize), vol.bsize) <= buf.Length
        && at + BlockOffset(offset, vol.bsize) + Need(size) <= buf.Length
      modifies buf, this`offset
      ensures old(offset) <= inode.size ==> r == Min(size, inode.size - old(offset)) && offset == old(offset) + r
      ensures old(offset) > inode.size && size > 0 ==> r == -1 && offset == old(offset)
      ensures at <= buf.Length && buf[..at] == old(buf[..at])
      ensures r <= 0 ==> buf[..] == old(buf[..])
      ensures r > 0 ==> at + r <= buf.Length && old(offset) <= offset <= |Held()|
      ensures r > 0 ==>
        Delivers(old(buf[..]), buf[..], at, Held(), old(offset), BlockOffset(old(offset), vol.bsize),
                 Times(Ceil(r, vol.bsize), vol.bsize), r)
      ensures r > 0 ==> (old(InBlocks(size)) <==>
        BlockOffset(old(offset), vol.bsize) + r <= Times(Ceil(r, vol.bsize), vol.bsize))
      ensures r > 0 && old(InBlocks(size)) ==> buf[at..at + r] == Held()[old(offset)..offset]
    {
      hide Content, Run, Splice, Times, BlockIndex, BlockOffset, Ceil, Held, Need;
      var need := Need(size);
      NeedIs(size);
      CeilFacts(need, vol.bsize);
      ProductSteps(1, 0, vol.bsize);
      if inode.size <= offset || need == 0 {
        var got := Read(buf, at, Ceil(need, vol.bsize));
        return Min(need, got);
      }
      r := ReadAndMove(buf, at, need, BlockOffset(offset, vol.bsize));
      offset := offset + r;
    }

    /** The case that reads something: whole blocks, and then the part asked for moved to the front. */
    method ReadAndMove(buf: array<Byte>, at: nat, need: nat, o: nat) returns (r: int)
      requires Readable() && 0 < need <= inode.size - offset && o == BlockOffset(offset, vol.bsize)
      requires at + Times(Ceil(need, vol.bsize), vol.bsize) <= buf.Length && at + o + need <= buf.Length
      modifies buf
      ensures r == need && at + r <= buf.Length && offset + need <= |Held()|
      ensures Delivers(old(buf[..]), buf[..], at, Held(), offset, o, Times(Ceil(need, vol.bsize), vol.bsize), need)
    {
      hide Content, Run, Splice, Times, BlockIndex, BlockOffset, Ceil, Held, Readable;
      ghost var was, held := buf[..], Held();
      var got; ghost var start;
      got, start := ReadNeeded(buf, at, need);
      r := Min(need, got);
      MoveDown(buf, at, at + o, r);
      Moved(was, at, held, start, got, o, r, buf[..]);
    }

    lemma NeedIs(size: nat)
      requires 0 <= inode.size < WRAP && offset < WRAP
      ensures offset <= inode.size ==> Need(size) == Min(size, inode.size - offset)
      ensures offset > inode.size && size > 0 ==> Need(size) > 0
    {}

    method ReadNeeded(buf: array<Byte>, at: nat, need: nat) returns (got: nat, ghost start: nat)
      requires Readable() && 0 < need <= inode.size - offset
      requires at + Times(Ceil(need, vol.bsize), vol.bsize) <= buf.Length
      modifies buf
      ensures got == Times(Ceil(need, vol.bsize), vol.bsize) >= need && at + got <= buf.Length
      ensures BlockOffset(offset, vol.bsize) <= got && buf.Length == |old(buf[..])|
      ensures start + BlockOffset(offset, vol.bsize) == offset && start + got <= |Held()| && offset + need <= |Held()|
      ensures buf[..] == Splice(old(buf[..]), at, Held()[start..start + got])
    {
      hide Content, Run, Splice, Times, BlockIndex, BlockOffset, Ceil;
      HeldLength();
      CeilFacts(need, vol.bsize);
      ReadMath(offset, need, vol.bsize, Run(inode.data));
      start := Times(BlockIndex(offset, vol.bsize), vol.bsize);
      got := Read(buf, at, Ceil(need, vol.bsize));
    }

    method SysWrite(buf: array<Byte>, at: nat, size: nat) returns (r: int)
      requires Valid() && offset <= |Stored()| && at + Times(Ceil(size, vol.bsize), vol.bsize) <= buf.Length
      modifies vol`blockMap, vol`disk, vol`table, inode`data, inode`size, this`offset
      ensures Valid() && Supply() == old(Supply()) && Later(old(State()), State(), inode.ino - 1)
      ensures Run(inode.data) >= old(Run(inode.data)) && offset <= |Stored()|
      ensures size == 0 ==> r == 0 && State() == old(State()) && vol.table == old(vol.table)
      ensures size > 0 && r >= 0 ==> vol.Open(inode) && at <= at + inode.size - old(offset) <= buf.Length
      ensures size > 0 && r >= 0 ==>
        inode.size == old(offset) - old(BlockOffset(offset, vol.bsize)) + Times(Ceil(size, vol.bsize), vol.bsize)
      ensures size > 0 && r >= 0 ==> Text() == old(Stored())[..old(offset)] + buf[at..at + inode.size - old(offset)]
      ensures size > 0 && r >= 0 ==> r == Min(size, inode.size - old(offset)) && offset == old(offset) + r
      ensures r < 0 <==> size > 0 && Limit() < old(BlockIndex(offset, vol.bsize)) + Ceil(size, vol.bsize)
      ensures size > 0 && r >= 0 ==>
        Run(inode.data) == Max(old(Run(inode.data)), old(BlockIndex(offset, vol.bsize)) + Ceil(size, vol.bsize))
      ensures r < 0 ==> vol.table == old(vol.table) && Run(inode.data) == Limit()
      ensures r < 0 ==> Stops(old(Stored()), buf[..], at, old(inode.size))
      ensures Grown(old(inode.data), inode.data)
      ensures old(vol.Open(inode)) && old(Tight(vol.Now().v)) ==>
        (Tight(vol.Now().v) <==> r >= 0 || Run(inode.data) == old(Run(inode.data)))
      ensures r < 0 ==> offset == old(offset) && r in {-EFBIG, -ENOSPC}
      ensures r < 0 ==>
        |Stored()| < old(offset) - old(BlockOffset(offset, vol.bsize)) + Times(Ceil(size, vol.bsize), vol.bsize)
      ensures r < 0 ==> Stored()[..offset] == old(Stored())[..offset]
      ensures r == -EFBIG ==> Run(inode.data) == N_BLOCKS
      ensures r == -ENOSPC ==> Free(Bits(vol.blockMap)) == 0
    {
      hide Good, Bits, Mapped, Later, Whole, Prefix, Free, Times, BlockIndex, BlockOffset, Ceil, Limit, Grown;
      hide Tight, Stops, Run;
      ghost var n := Run(inode.data);
      Length();
      CeilFacts(size, vol.bsize);
      var written := Write(buf, at, Ceil(size, vol.bsize));
      r := Min(size, written);
      Length();
      Products(n, Run(inode.data), vol.bsize);
      if r > 0 {
        offset := offset + r;
      }
    }
  }

  /** What sys_read leaves in the buffer.  The got bytes from the start of the first block on are in
      place; of these and what the buffer held behind them, the r bytes from the offset in the block
      on are moved to the front. */
  ghost predicate Delivers(was: seq<Byte>, buf: seq<Byte>, at: nat, held: seq<Byte>, offset: nat, o: nat,
                           got: nat, r: nat)
  {
    && o <= offset && o <= got && r <= got && offset - o + got <= |held|
    && at + got <= |was| == |buf| && at + o + r <= |was|
    && buf[..at] == was[..at]
    && (o + r <= got ==> buf[at..at + r] == held[offset..offset + r])
    && (o + r > got ==> buf[at..at + r] == held[offset..offset - o + got] + was[at + got..at + o + r])
    && buf[at + r..at + got] == held[offset - o + r..offset - o + got]
    && buf[at + got..] == was[at + got..]
  }

  lemma Moved(was: seq<Byte>, at: nat, held: seq<Byte>, start: nat, got: nat, o: nat, r: nat, buf: seq<Byte>)
    requires start + got <= |held| && at + got <= |was| && at + o + r <= |was| && o <= got && r <= got
    requires var mid := Splice(was, at, held[start..start + got]);
      buf == Splice(mid, at, mid[at + o..at + o + r])
    ensures Delivers(was, buf, at, held, start + o, o, got, r)
  {
    hide Splice;
    var part := held[start..start + got];
    var mid := Splice(was, at, part);
    MovedRange(was, at, held, start, got, o, r);
    SpliceTwice(was, at, part, mid[at + o..at + o + r]);
    assert part[r..] == held[start + r..start + got];
  }

  /** Bytes o and on of the blocks read and of what lay behind them. */
  lemma MovedRange(was: seq<Byte>, at: nat, held: seq<Byte>, start: nat, got: nat, o: nat, r: nat)
    requires start + got <= |held| && at + got <= |was| && at + o + r <= |was| && o <= got && r <= got
    ensures var mid := Splice(was, at, held[start..start + got]);
      mid[at + o..at + o + r] ==
        if o + r <= got then held[start + o..start + o + r]
        else held[start + o..start + got] + was[at + got..at + o + r]
  {
    var part := held[start..start + got];
    var mid := Splice(was, at, part);
    hide Splice;
    if o + r <= got {
      SpliceWithin(was, at, part, o, r);
      SubSlice(held, start, got, o, r);
    } else {
      SpliceWithin(was, at, part, o, got - o);
      SubSlice(held, start, got, o, got - o);
      SpliceOutside(was, at, part, at + got, at + o + r);
      assert mid[at + o..at + o + r] == mid[at + o..at + got] + mid[at + got..at + o + r];
    }
  }

  /** The bytes read are the file's exactly if the blocks asked for reach to their end, or the buffer
      happened to hold the rest of them already. */
  lemma DeliveredRight(was: seq<Byte>, buf: seq<Byte>, at: nat, held: seq<Byte>, offset: nat, o: nat, got: nat, r: nat)
    requires Delivers(was, buf, at, held, offset, o, got, r) && offset + r <= |held|
    ensures buf[at..at + r] == held[offset..offset + r] <==>
      o + r <= got || was[at + got..at + o + r] == held[offset - o + got..offset + r]
  {
    if o + r > got {
      var l, m := held[offset..offset - o + got], held[offset - o + got..offset + r];
      assert held[offset..offset + r] == l + m;
      var x := was[at + got..at + o + r];
      assert buf[at..at + r] == l + x;
      assert (l + x)[|l|..] == x && (l + m)[|l|..] == m;
    }
  }

  /** One byte into a file of two blocks, a read of one block's length gets one byte too few of the
      file: the last one is whatever the buffer held. */
  method UnalignedRead(buf: array<Byte>) returns (f: File, r: int)
    requires buf.Length == 1024 && buf[512] == 7
    modifies buf
    ensures fresh(f) && f.Readable() && r == 512 && f.offset == 513 <= |f.Held()|
    ensures buf[511] == 7 && f.Held()[512] == 9 && buf[..512] != f.Held()[1..513]
  {
    hide Content, Ceil, BlockIndex, BlockOffset, Times, Run;
    TwoBlocks();
    var vol := new Volume(512, 8, 0, 0, [], [], [], TwoBlockDisk);
    var inode := new Inode(1, Node(0, 1024, TwoPointers));
    f := new File(vol, inode);
    f.offset := 1;
    assert f.Held() == TwoBlockText;
    ghost var was := buf[..];
    r := f.SysRead(buf, 0, 512);
    assert buf[..][511] == was[512];
    assert f.Held()[1..513][511] == 9;
  }

  const TwoPointers: seq<int> := [1, 2, 0, 0, 0, 0, 0, 0]
  const TwoBlockText: seq<Byte> := seq(512, i => 8) + seq(512, i => 9)
  const TwoBlockDisk: seq<Block> := [TwoBlockText[..512], TwoBlockText[..512], TwoBlockText[512..]]

  lemma TwoBlocks()
    ensures Run(TwoPointers) == 2 && Times(2, 512) == 1024 && Times(1, 512) == 512
    ensures Content(TwoBlockDisk, TwoPointers, 2) == TwoBlockText
    ensures Ceil(512, 512) == 1 && BlockOffset(1, 512) == 1
  {
    assert Content(TwoBlockDisk, TwoPointers, 1) == TwoBlockText[..512];
  }

  /** What a write of part at an offset should leave of a file. */
  function Overwritten(text: seq<Byte>, offset: nat, part: seq<Byte>): seq<Byte>
    requires offset <= |text|
  {
    text[..offset] + part + if offset + |part| < |text| then text[offset + |part|..] else []
  }

  /** What Write leaves is that exactly when the write reaches the end of the file; otherwise the rest
      of the file is cut off. */
  lemma WriteCutsOff(text: seq<Byte>, offset: nat, part: seq<Byte>)
    requires offset <= |text|
    ensures text[..offset] + part == Overwritten(text, offset, part) <==> offset + |part| >= |text|
  {}

  /** (n + blksize - 1) >> block_shift */
  function Ceil(n: nat, size: nat): (r: nat)
    requires size > 0
  {
    (n + size - 1) / size
  }

  lemma CeilFacts(n: nat, size: nat)
    requires size > 0
    ensures n <= Times(Ceil(n, size), size) < n + size
    ensures n > 0 ==> Times(Ceil(n, size), size) >= size
    ensures Ceil(n, size) == 0 <==> n == 0
  {}

  lemma ReadMath(offset: nat, need: nat, size: nat, n: nat)
    requires size > 0 && need > 0 && offset + need <= Times(n, size)
    ensures Ceil(need, size) <= n - BlockIndex(offset, size)
    ensures offset == Times(BlockIndex(offset, size), size) + BlockOffset(offset, size)
    ensures Times(BlockIndex(offset, size), size) >= 0
    ensures BlockOffset(offset, size) <= Times(Ceil(need, size), size)
  {
    CeilFacts(need, size);
    var k, c := BlockIndex(offset, size), Ceil(need, size);
    PosInFile(offset, size, n);
    assert need <= (n - k) * size;
    if c > n - k {
      Products(n - k + 1, c, size);
    }
  }

  lemma ProductSteps(left: nat, index: nat, size: nat)
    requires left > 0
    ensures Times(left, size) == Times(left - 1, size) + size && Times(index + 1, size) == Times(index, size) + size
    ensures Times(0, size) == 0 && Times(left - 1, size) >= 0
  {}

  lemma TakeTwice(w: seq<Byte>, w0: seq<Byte>, pos: nat)
    requires |w0| <= |w| && w[..|w0|] == w0 && pos <= |w0|
    ensures w[..pos] == w0[..pos]
  {}
}
