/** fs/tfs: inodes and directories on a mounted volume.

    The volume is modelled behind its block cache, which behaves as the disk itself.  The blocks of
    metadata are held by role: the two bitmap blocks as bytes, the inode table as its records. */
module Tfs {
  import opened Bytes
  import opened Bitmap
  import opened Ownership
  import opened Directory
  import opened DirEntries
  import opened Contents
  import opened DirStore
  import opened TfsState
  import opened Namespace
  import opened FreeBlocks

  const ROOT_INODE := 1

  /** A block is at least one sector: the disk is read block << (s_block_shift - 9) sectors on. */
  const SECTOR := 512

  /** An inode in memory. */
  class Inode {
    const ino: nat
    var mode: int
    var size: int
    var data: seq<int>

    constructor (ino: nat, n: Node)
      ensures this.ino == ino && Record() == n
    {
      this.ino := ino;
      mode, size, data := n.mode, n.size, n.data;
    }

    function Record(): Node
      reads this
    {
      Node(mode, size, data)
    }

    /** tfs_bmap, for index >= 0 */
    function BMap(index: nat): int
      requires |data| == N_BLOCKS
      reads this
    {
      if index >= N_BLOCKS then 0 else data[index]
    }
  }

  method Cached(s: seq<Byte>) returns (a: array<Byte>)
    ensures fresh(a) && a[..] == s
  {
    a := new Byte[|s|](i requires 0 <= i < |s| => s[i]);
  }

  class Volume {
    const bsize: nat
    ghost const per: nat
    const area: nat
    const count: nat
    var blockMap: seq<Byte>
    var inodeMap: seq<Byte>
    var table: seq<Node>
    var disk: seq<Block>

    /** A volume as tfs_mount finds it. */
    constructor (bsize: nat, ghost per: nat, area: nat, count: nat, blockMap: seq<Byte>, inodeMap: seq<Byte>,
                 table: seq<Node>, disk: seq<Block>)
      ensures this.bsize == bsize && this.per == per && this.area == area && this.count == count
      ensures this.blockMap == blockMap && this.inodeMap == inodeMap && this.table == table && this.disk == disk
    {
      this.bsize, this.per, this.area, this.count := bsize, per, area, count;
      this.blockMap, this.inodeMap, this.table, this.disk := blockMap, inodeMap, table, disk;
    }

    ghost predicate Shape()
      reads this
    {
      && Per(bsize, per) && SECTOR <= bsize && 8 * bsize < 0x8000_0000
      && |blockMap| == bsize && |inodeMap| == bsize
      && area < 8 * bsize
    }

    /** The volume, with inode f as it is in memory. */
    ghost function With(f: Inode): State
      requires 1 <= f.ino <= |table|
      reads this, f
    {
      State(Vol(area, count, Bits(blockMap), Bits(inodeMap), table[f.ino - 1 := f.Record()]), disk)
    }

    ghost function Now(): State
      reads this
    {
      State(Vol(area, count, Bits(blockMap), Bits(inodeMap), table), disk)
    }

    ghost predicate Ready(f: Inode)
      reads this, f
    {
      && Shape() && 1 <= f.ino <= |table|
      && Good(With(f), bsize) && Live(With(f).v, f.ino - 1)
    }

    /** The table has f as it is in memory. */
    ghost predicate Clean(f: Inode)
      requires 1 <= f.ino <= |table|
      reads this, f
    {
      table[f.ino - 1] == f.Record()
    }

    ghost function Dir(f: Inode): seq<Slot>
      requires 1 <= f.ino <= |table|
      reads this, f
    {
      Slotted(With(f), f.ino - 1)
    }

    /** Some pointer of the volume is wrong. */
    ghost predicate Unsound(f: Inode)
      reads this, f
    {
      1 <= f.ino <= |table| && !Sound(With(f).v)
    }

    /** The names in a directory and the inodes they lead to. */
    ghost function List(f: Inode): map<Name, nat>
      requires 1 <= f.ino <= |table|
      reads this, f
    {
      Listing(Dir(f))
    }

    /** A good volume on which inode f is allocated, and is in memory as in the table. */
    ghost predicate Open(f: Inode)
      reads this, f
    {
      && Shape() && 1 <= f.ino <= |table| && Clean(f)
      && Good(Now(), bsize) && Live(Now().v, f.ino - 1)
    }

    lemma OpenReady(f: Inode)
      requires Open(f)
      ensures Ready(f) && With(f) == Now()
    {
      assert table[f.ino - 1 := f.Record()] == table;
    }

    // ----- balloc.c -----

    method AllocBlock(target: nat) returns (r: int)
      requires Shape() && target < 8 * bsize
      modifies this`blockMap
      ensures Shape()
      ensures r >= 0 ==> r < 8 * bsize && !Bits(old(blockMap))[r] && Bits(blockMap) == Bits(old(blockMap))[r := true]
      ensures r >= 0 ==>
        if Bits(old(blockMap))[target] then forall n :: 0 <= n < r ==> Bits(old(blockMap))[n] else r == target
      ensures r < 0 ==> r == -ENOSPC && blockMap == old(blockMap)
      ensures r < 0 ==> forall n :: 0 <= n < 8 * bsize ==> Bits(blockMap)[n]
    {
      var bitmap := Cached(blockMap);
      var block := target;
      var t := TestBit(bitmap, block);
      if t != 0 {
        block := FindFirstZero(bitmap);
      }
      if block != NONE {
        var was := SetBit(bitmap, block);
        blockMap := bitmap[..];
      } else {
        assert forall n :: 0 <= n < 8 * bsize ==> Bits(bitmap[..])[n];
        return -ENOSPC;
      }
      return block;
    }

    method FreeBlock(block: nat)
      requires Shape() && block < 8 * bsize
      modifies this`blockMap
      ensures Shape() && Bits(blockMap) == Bits(old(blockMap))[block := false]
    {
      var bitmap := Cached(blockMap);
      var was := ClearBit(bitmap, block);
      // a bit that was clear is reported, and the bitmap is not written back
      if was {
        blockMap := bitmap[..];
      }
    }

    // ----- ialloc.c -----

    /** The target is refused only when the bit test gives exactly 1, which a set bit does only at the
        low end of a byte.  So the result is a free inode unless the target is in use and is not such
        a bit. */
    method AllocInode(inr: int) returns (r: int)
      requires Shape() && inr <= 8 * bsize
      modifies this`inodeMap
      ensures Shape()
      ensures inr < 1 ==> r == -EINVAL
      ensures inr >= 1 && r < 0 ==> r == -ENOSPC
      ensures r < 0 ==> inodeMap == old(inodeMap)
      ensures r == -ENOSPC ==> forall n :: 0 <= n < 8 * bsize ==> Bits(inodeMap)[n]
      ensures r >= 0 ==> 1 <= r <= 8 * bsize && Bits(inodeMap) == Bits(old(inodeMap))[r - 1 := true]
      ensures r >= 0 ==> (!Bits(old(inodeMap))[r - 1] <==> !Bits(old(inodeMap))[inr - 1] || (inr - 1) % 8 == 0)
    {
      if inr < 1 {
        return -EINVAL;
      }
      var n: int := inr - 1;
      var bitmap := Cached(inodeMap);
      var t := TestBit(bitmap, n);
      if t == 1 {
        n := FindFirstZero(bitmap);
        if n == NONE {
          assert forall m :: 0 <= m < 8 * bsize ==> Bits(bitmap[..])[m];
          n := -1;
        }
      }
      if n < 0 {
        return -ENOSPC;
      }
      var was := SetBit(bitmap, n);
      inodeMap := bitmap[..];
      return n + 1;
    }

    method FreeInode(inr: nat)
      requires Shape() && 1 <= inr <= 8 * bsize
      modifies this`inodeMap
      ensures Shape() && Bits(inodeMap) == Bits(old(inodeMap))[inr - 1 := false]
    {
      var bitmap := Cached(inodeMap);
      var was := ClearBit(bitmap, inr - 1);
      if was {
        inodeMap := bitmap[..];
      }
    }

    // ----- dir.c -----

    /** What the scans of a directory rely on. */
    lemma Scanned(f: Inode)
      requires Ready(f)
      ensures BlocksOf(disk, bsize) && Mapped(disk, f.data, Run(f.data)) && |f.data| == N_BLOCKS
      ensures Dir(f) == DirSlots(disk, f.data, Run(f.data)) && |Dir(f)| == Pos(Run(f.data), per, 0)
      ensures Data(With(f), f.ino - 1) == f.data
      ensures forall k :: 0 <= k < Run(f.data) ==> f.data[k] >= area > 0
    {
      PointersGood(With(f), bsize, f.ino - 1);
      SlotsLength(disk, bsize, per, f.data, Run(f.data));
      forall k | 0 <= k < Run(f.data) ensures f.data[k] >= area {
        assert Points(With(f).v, f.ino - 1, k, f.data[k]);
      }
    }

    /** The name in the directory that find_entry takes this one for: the name itself, unless it is
        longer than an entry can hold. */
    ghost function Known(f: Inode, name: Name): Name
      reads this, f
    {
      Spelled(disk, bsize, per, f.data, Run(f.data), name)
    }

    /** tfs_find_entry */
    method FindEntry(f: Inode, name: Name) returns (r: Place)
      requires Ready(f) && CString(name)
      ensures r.NotFound? <==> Known(f, name) !in List(f)
      ensures r.At? ==> r.k < Run(f.data) && r.j < per && Has(Dir(f), Pos(r.k, per, r.j), Known(f, name))
      ensures |name| <= NAME_LEN || r.NotFound? ==> Known(f, name) == name
    {
      hide Good, MatchEntry, Bits, Listing, Run, DirSlots, Pos;
      Scanned(f);
      SeekFinds(disk, bsize, per, f.data, Run(f.data), name);
      ghost var n := Run(f.data);
      var block := f.data[0];
      if block == 0 {
        return NotFound;
      }
      var index, de := 1, 0;
      while true
        invariant 1 <= index <= n && block == f.data[index - 1]
        invariant 0 <= de <= per
        invariant Seek(disk, bsize, per, f.data, n, name, 0, 0) ==
          Seek(disk, bsize, per, f.data, n, name, index - 1, de)
        decreases N_BLOCKS - index, per - de
      {
        if ENTRY * de >= bsize {
          block := f.BMap(index);
          index := index + 1;
          if block < area {
            return NotFound;
          }
          de := 0;
        }
        var ino := Le32(InoBytes(disk[block], de));
        if ino != 0 && MatchEntry(name, ino, disk[block][ENTRY * de + 4..]) {
          return At(index - 1, de);
        }
        assert ino == 0 ==> !Hit(disk[block], de, name) by { NoInoNoMatch(name, disk[block][ENTRY * de + 4..]); }
        de := de + 1;
      }
    }

    /** The scan of add_entry: the first free slot, or the index after the last block. */
    method FindFree(f: Inode) returns (index: nat, de: nat, block: int)
      requires Ready(f)
      ensures block == 0 ==> index == Run(f.data) + 1 && FirstFree(Dir(f)) == |Dir(f)|
      ensures block != 0 ==> 1 <= index <= Run(f.data) && block == f.data[index - 1] && de < per
      ensures block != 0 ==> FirstFree(Dir(f)) == Pos(index - 1, per, de) < |Dir(f)|
    {
      hide Good, SlotAt, MatchEntry, Bits, Run, DirSlots, Pos, FirstFree;
      ghost var d := Dir(f);
      Scanned(f);
      PosSteps(0, per, 0);
      block, index, de := f.data[0], 1, 0;
      if block == 0 {
        FirstFreeIs(d, 0);
        return;
      }
      ghost var t := 0;
      while true
        invariant 1 <= index <= Run(f.data) && block == f.data[index - 1]
        invariant 0 <= de <= per && t == Pos(index - 1, per, de)
        invariant forall u :: 0 <= u < t && u < |d| ==> d[u].ino != 0
        decreases N_BLOCKS - index, per - de
      {
        PosSteps(index - 1, per, de);
        if ENTRY * de >= bsize {
          block := f.BMap(index);
          index := index + 1;
          if block == 0 {
            FirstFreeIs(d, t);
            return;
          }
          de := 0;
        }
        PosSteps(index - 1, per, de);
        SlotSeen(disk, bsize, per, f.data, Run(f.data), index - 1, de, []);
        if Le32(InoBytes(disk[block], de)) == 0 {
          FirstFreeIs(d, t);
          return;
        }
        de := de + 1;
        t := t + 1;
      }
    }

    ghost predicate DiskFull()
      reads this
    {
      Free(Bits(blockMap)) == 0
    }

    ghost predicate InodesFull()
      reads this
    {
      forall n :: 0 <= n < |Bits(inodeMap)| ==> Bits(inodeMap)[n]
    }

    /** The blocks that one more entry takes. */
    ghost function NewBlocks(f: Inode): nat
      requires 1 <= f.ino <= |table|
      reads this, f
    {
      if FirstFree(Dir(f)) < |Dir(f)| then 0 else 1
    }

    /** memset, d_inode, d_name and the write back, for a slot of a block that f has already. */
    method StoreEntry(f: Inode, k: nat, de: nat, block: nat, name: Name, inr: nat)
      requires Ready(f) && f.mode == DIR && CString(name) && 0 < inr < WORD && |name| <= NAME_LEN
      requires name !in List(f)
      requires k < Run(f.data) && block == f.data[k] && de < per && FirstFree(Dir(f)) == Pos(k, per, de) < |Dir(f)|
      modifies this`disk, f`size
      ensures Ready(f) && Entered(old(With(f)), With(f), bsize, f.ino - 1, name, inr)
      ensures Dir(f) == AddSlot(old(Dir(f)), Slot(inr, name), per)
    {
      hide Good, Bits, Run, DirSlots, Pos, FirstFree, Splice, EntryBytes, AddSlot, Slotted, DirOk, Listing;
      ghost var s, i := With(f), f.ino - 1;
      Scanned(f);
      SlotPlace(disk, bsize, per, f.data, Run(f.data), k, de);
      AddHere(s, bsize, per, i, k, de, inr, name);
      f.size := f.size + ENTRY;
      disk := disk[block := Splice(disk[block], ENTRY * de, EntryBytes(inr, name))];
      assert With(f) == AddedHere(s, i, k, de, EntryBytes(inr, name));
      Scanned(f);
    }

    /** The same for a block that has just been taken: the pointer, and the block cleared. */
    method StoreBlock(f: Inode, block: nat, name: Name, inr: nat, ghost was: State)
      requires Shape() && 1 <= f.ino <= |table| && f.mode == DIR && CString(name) && 0 < inr < WORD
      requires |name| <= NAME_LEN && Good(was, bsize) && IsDir(was, f.ino - 1)
      requires Run(f.data) < N_BLOCKS == |f.data| && block < |was.v.used| && !was.v.used[block]
      requires With(f) == was.(v := Ownership.Taken(was.v, block))
      requires Mapped(was.disk, f.data, Run(f.data))
      requires FirstFree(Slotted(was, f.ino - 1)) == |Slotted(was, f.ino - 1)| && name !in Names(was, f.ino - 1)
      modifies this`disk, f`size, f`data
      ensures Ready(f) && Entered(was, With(f), bsize, f.ino - 1, name, inr)
      ensures Dir(f) == AddSlot(Slotted(was, f.ino - 1), Slot(inr, name), per)
    {
      hide Good, Bits, Run, DirSlots, Pos, FirstFree, Splice, EntryBytes, AddSlot, Slotted, DirOk, Mapped, Listing;
      ghost var i := f.ino - 1;
      assert was.v.nodes[i] == f.Record() by { assert With(f).v.nodes[i] == f.Record(); }
      AddThere(was, bsize, per, i, block, inr, name);
      f.data := f.data[Run(f.data) := block];
      disk := disk[block := Nulls(bsize)];
      f.size := f.size + ENTRY;
      disk := disk[block := Splice(disk[block], 0, EntryBytes(inr, name))];
      assert With(f) == AddedThere(was, i, block, EntryBytes(inr, name), bsize);
      Scanned(f);
    }

    /** How add_entry ends, from what its caller can see before the call. */
    ghost function AddOutcome(f: Inode, name: Name): (r: Outcome)
      requires 1 <= f.ino <= |table|
      reads this, f
      ensures r in {Done, Failed(ENAMETOOLONG), Failed(EFBIG), Stray} && (r.Done? ==> |name| <= NAME_LEN)
    {
      AddEnd(Dir(f), f.data, Bits(blockMap), name)
    }

    lemma EightPointers(f: Inode)
      requires Ready(f)
      ensures |f.data| == N_BLOCKS
    {
      assert With(f).v.nodes[f.ino - 1].data == f.data;
    }

    /** A new name in the directory, or an error.  Two of the errors do harm: a directory of eight
        full blocks loses a free block, and on a full disk -ENOSPC is stored as a block pointer,
        because the test block < 0 is made on an unsigned number. */
    method AddEntry(f: Inode, name: Name, inr: nat) returns (r: Outcome)
      requires Ready(f) && f.mode == DIR && CString(name) && 0 < inr < WORD
      requires |name| <= NAME_LEN ==> name !in List(f)
      modifies this`blockMap, this`disk, f`size, f`data
      ensures Shape() && r == old(AddOutcome(f, name))
      ensures AddEnds(old(Dir(f)), old(f.data), old(Bits(blockMap)), name, r)
      ensures r.Done? ==> Ready(f) && Entered(old(With(f)), With(f), bsize, f.ino - 1, name, inr)
      ensures r.Done? ==> Dir(f) == AddSlot(old(Dir(f)), Slot(inr, name), per)
      ensures !r.Done? ==> disk == old(disk) && f.size == old(f.size)
      ensures r == Failed(ENAMETOOLONG) ==> With(f) == old(With(f))
      ensures r.Done? ==> Free(Bits(blockMap)) == old(Free(Bits(blockMap))) - old(NewBlocks(f))
      ensures r == Failed(EFBIG) ==> Ready(f) && f.data == old(f.data) && BlockLost(old(With(f)), With(f))
      ensures r == Failed(EFBIG) && old(!DiskFull()) ==> !Tight(With(f).v)
      ensures r.Stray? ==> Unsound(f) && blockMap == old(blockMap) && With(f) == Strayed(old(With(f)), f.ino - 1)
    {
      hide AddEnds, Good, Bits, Run, DirSlots, Pos, FirstFree, Splice, EntryBytes, AddSlot, Slotted, DirOk, Mapped;
      hide PointersUsed, Unshared, Untouched, Free, Tight, Listing, Entered, BlockLost, Strayed, Unsound;
      EightPointers(f);
      AddEndsSo(Dir(f), f.data, Bits(blockMap), name);
      if |name| > NAME_LEN {
        return Failed(ENAMETOOLONG);
      }
      Scanned(f);
      var index, de, block := FindFree(f);
      if block != 0 {
        StoreEntry(f, index - 1, de, block, name, inr);
        return Done;
      }
      r := AddBlock(f, index, name, inr);
    }

    /** The rest of add_entry, for a directory without a free slot. */
    method AddBlock(f: Inode, index: nat, name: Name, inr: nat) returns (r: Outcome)
      requires Ready(f) && f.mode == DIR && CString(name) && 0 < inr < WORD
      requires |name| <= NAME_LEN && name !in List(f)
      requires index == Run(f.data) + 1 && FirstFree(Dir(f)) == |Dir(f)|
      modifies this`blockMap, this`disk, f`size, f`data
      ensures Shape()
      ensures r == if index > N_BLOCKS then Failed(EFBIG) else if old(DiskFull()) then Stray else Done
      ensures r.Done? ==> Ready(f) && Entered(old(With(f)), With(f), bsize, f.ino - 1, name, inr)
      ensures r.Done? ==> Dir(f) == AddSlot(old(Dir(f)), Slot(inr, name), per)
      ensures !r.Done? ==> disk == old(disk) && f.size == old(f.size)
      ensures r.Done? ==> Free(Bits(blockMap)) == old(Free(Bits(blockMap))) - 1
      ensures r == Failed(EFBIG) ==> Ready(f) && f.data == old(f.data) && BlockLost(old(With(f)), With(f))
      ensures r == Failed(EFBIG) && old(!DiskFull()) ==> !Tight(With(f).v)
      ensures r.Stray? ==> Unsound(f) && blockMap == old(blockMap) && With(f) == Strayed(old(With(f)), f.ino - 1)
    {
      hide Good, Bits, Run, DirSlots, Pos, FirstFree, Splice, EntryBytes, AddSlot, Slotted, DirOk, Mapped, Listing;
      hide PointersUsed, Unshared, Untouched, Free, Tight;
      Scanned(f);
      ghost var s, i := With(f), f.ino - 1;
      NoneFree(Bits(blockMap));
      var a := AllocBlock(area);
      if a >= 0 {
        OneLess(s.v.used, a);
        assert !s.v.used[a] && With(f) == s.(v := Ownership.Taken(s.v, a));
      }
      if index > N_BLOCKS {
        if a >= 0 {
          LeakGood(s, bsize, a);
        }
        return Failed(EFBIG);
      }
      if a < 0 {
        f.data := f.data[index - 1 := NO_BLOCK];
        AstrayGood(s, bsize, i, index - 1, NO_BLOCK);
        assert With(f).v == WithPointer(s.v, i, index - 1, NO_BLOCK);
        return Stray;
      }
      StoreBlock(f, a, name, inr, s);
      return Done;
    }

    // ----- inode.c -----

    method IWrite(f: Inode)
      requires Shape() && 1 <= f.ino <= |table|
      modifies this`table
      ensures Shape() && |table| == old(|table|) && Clean(f)
      ensures Now() == With(f) == old(With(f))
    {
      table := table[f.ino - 1 := f.Record()];
    }

    method IGetByInr(inr: nat) returns (f: Inode)
      requires 1 <= inr <= |table|
      ensures fresh(f) && f.ino == inr && Clean(f)
      ensures With(f) == Now()
    {
      f := new Inode(inr, table[inr - 1]);
      assert table[inr - 1 := f.Record()] == table;
    }

    /** A free inode number; the table still holds whatever the number held before. */
    method NewInode(mode: int) returns (f: Inode?)
      requires Shape() && Good(Now(), bsize)
      modifies this`inodeMap
      ensures Shape()
      ensures f == null ==> inodeMap == old(inodeMap) && InodesFull()
      ensures f != null ==> fresh(f) && 1 <= f.ino <= |table| && f.ino <= 8 * bsize
      ensures f != null ==> Lost(old(Now()), With(f), f.ino - 1, mode)
    {
      var inr := AllocInode(ROOT_INODE);
      if inr < 0 {
        return null;
      }
      f := new Inode(inr, Node(mode, 0, ZEROS));
    }

    /** release_inode: the number, then the blocks up to the first zero pointer. */
    method ReleaseInode(f: Inode)
      requires Shape() && Good(Now(), bsize) && 1 <= f.ino && Live(Now().v, f.ino - 1)
      requires table[f.ino - 1].data == f.data
      modifies this`inodeMap, this`blockMap
      ensures Shape() && Good(Now(), bsize) && Untouched(old(Now()), Now(), f.ino - 1)
      ensures !Live(Now().v, f.ino - 1)
      ensures forall b :: 0 <= b < 8 * bsize ==>
        Bits(blockMap)[b] == (Bits(old(blockMap))[b] && b !in f.data[..Run(f.data)])
      ensures Tight(old(Now()).v) ==> (Tight(Now().v) <==> Prefix(f.data))
    {
      hide Good, Bits, Run, DirSlots, Pos, Mapped, Listing, PointersUsed, Unshared, Untouched, Prefix;
      ghost var s, i, u := Now(), f.ino - 1, Bits(blockMap);
      PointersInMap(f);
      FreeInode(f.ino);
      ghost var freed := inodeMap;
      var index := 0;
      var block := f.BMap(index);
      while block != 0
        invariant index <= Run(f.data) && block == f.BMap(index) && Shape() && inodeMap == freed
        invariant Without(Bits(blockMap), u, f.data, index)
        decreases N_BLOCKS - index
      {
        FreeBlock(block);
        index := index + 1;
        block := f.BMap(index);
      }
      ReleaseGood(s, bsize, i, Bits(blockMap));
      assert Now() == s.(v := Dropped(s.v, i, Bits(blockMap)));
    }

    lemma PointersInMap(f: Inode)
      requires Shape() && Good(Now(), bsize) && 1 <= f.ino && Live(Now().v, f.ino - 1)
      requires table[f.ino - 1].data == f.data
      ensures |f.data| == N_BLOCKS
      ensures forall k :: 0 <= k < N_BLOCKS && f.data[k] != 0 ==> 0 < f.data[k] < 8 * bsize
    {
      forall k | 0 <= k < N_BLOCKS && f.data[k] != 0 ensures 0 < f.data[k] < 8 * bsize {
        assert Points(Now().v, f.ino - 1, k, f.data[k]);
      }
    }

    /** The first half of tfs_mknod: a fresh inode, written to the table. */
    method StartInode(dir: Inode, mode: int) returns (f: Inode?)
      requires Open(dir)
      modifies this`inodeMap, this`table
      ensures Open(dir) && |table| == old(|table|)
      ensures f == null <==> old(InodesFull())
      ensures f == null ==> Now() == old(Now())
      ensures blockMap == old(blockMap) && NewBlocks(dir) == old(NewBlocks(dir))
      ensures f != null ==> fresh(f) && f.ino != dir.ino && Open(f) && f.ino <= 8 * bsize
      ensures f != null ==> Lost(old(Now()), Now(), f.ino - 1, mode)
      ensures f != null ==> Slotted(Now(), dir.ino - 1) == old(Slotted(Now(), dir.ino - 1))
      ensures forall n: Name :: AddOutcome(dir, n) == old(AddOutcome(dir, n))
    {
      hide Good, Bits, Run, Pos, Mapped, Listing, Untouched, DirOk, Slotted;
      ghost var s, d := Now(), dir.ino - 1;
      OpenReady(dir);
      f := NewInode(mode);
      if f == null {
        return;
      }
      IWrite(f);
      BornGood(s, bsize, f.ino - 1, mode);
      SameNames(s, Now(), bsize, f.ino - 1, d);
      OpenReady(dir);
    }

    /** The second half: the entry, and the directory written to the table. */
    method EnterInode(dir: Inode, f: Inode, name: Name, mode: int, ghost s: State) returns (r: Outcome)
      requires Open(dir) && dir.mode == DIR && Open(f) && f.ino != dir.ino && f.ino <= 8 * bsize && CString(name)
      requires Good(s, bsize) && IsDir(s, dir.ino - 1) && Lost(s, Now(), f.ino - 1, mode)
      requires |name| <= NAME_LEN ==> name !in Names(Now(), dir.ino - 1)
      modifies this`blockMap, this`table, this`disk, dir`size, dir`data
      ensures Shape() && |table| == old(|table|) && r == old(AddOutcome(dir, name))
      ensures r.Done? ==> Open(dir) && Open(f) && Made(s, Now(), bsize, dir.ino - 1, f.ino - 1, name, mode)
      ensures r.Done? ==> Free(Bits(blockMap)) == old(Free(Bits(blockMap))) - old(NewBlocks(dir))
      ensures !r.Done? ==> NotMade(s, Now(), With(dir), dir.ino - 1, f.ino - 1, mode, r)
      ensures r == Failed(ENAMETOOLONG) ==> Open(dir)
      ensures r == Failed(EFBIG) ==> Open(dir) && Live(Now().v, f.ino - 1)
      ensures r == Failed(EFBIG) ==> Slotted(Now(), dir.ino - 1) == old(Slotted(Now(), dir.ino - 1))
      ensures r.Stray? ==> Unsound(dir)
    {
      hide Good, Bits, Run, Pos, Mapped, Listing, Untouched, DirOk, Slotted, FirstFree, AddSlot, Made, Entered;
      hide AddOutcome;
      hide Free, Tight, NewBlocks, Strayed;
      ghost var s1 := Now();
      OpenReady(dir);
      r := AddEntry(dir, name, f.ino);
      if r.Done? {
        IWrite(dir);
        MakeSteps(s, s1, Now(), bsize, dir.ino - 1, f.ino - 1, name, mode);
      } else if r == Failed(EFBIG) {
        SlotsSame(s1, Now(), dir.ino - 1);
      }
    }

    /** How mknod ends, from what its caller can see before the call. */
    ghost function MkNodOutcome(dir: Inode, name: Name): (r: Outcome)
      requires 1 <= dir.ino <= |table|
      reads this, dir
      ensures r.Done? ==> |name| <= NAME_LEN
    {
      if Known(dir, name) in List(dir) then Failed(EEXIST)
      else if InodesFull() then Failed(ENOSPC)
      else AddOutcome(dir, name)
    }

    lemma MkNodEndsSo(dir: Inode, name: Name)
      requires Ready(dir)
      ensures MkNodEnds(Known(dir, name) in List(dir), Bits(inodeMap), Dir(dir), dir.data, Bits(blockMap), name,
                        MkNodOutcome(dir, name))
    {
      EightPointers(dir);
      hide Ready, Bits, AddEnds, Known, Listing, Slotted;
      AddEndsSo(Dir(dir), dir.data, Bits(blockMap), name);
    }

    /** tfs_mknod.  On success the directory has one more name, for an inode that was free.  A name
        that is too long, a directory of eight full blocks or a full disk costs an inode number: it
        stays allocated and no name leads to it. */
    method MkNod(dir: Inode, name: Name, mode: int) returns (r: Outcome, f: Inode?)
      requires Open(dir) && dir.mode == DIR && CString(name)
      modifies this`inodeMap, this`blockMap, this`table, this`disk, dir`size, dir`data
      ensures r == old(MkNodOutcome(dir, name))
      ensures MkNodEnds(old(Known(dir, name) in List(dir)), old(Bits(inodeMap)), old(Dir(dir)), old(dir.data),
                        old(Bits(blockMap)), name, r)
      ensures |name| <= NAME_LEN ==> (r == Failed(EEXIST) <==> name in old(Names(Now(), dir.ino - 1)))
      ensures f == null <==> r in {Failed(EEXIST), Failed(ENOSPC)}
      ensures f == null ==> Open(dir) && Now() == old(Now())
      ensures Shape() && |table| == old(|table|)
      ensures f != null ==> fresh(f) && f.ino != dir.ino && 1 <= f.ino <= |table|
      ensures r.Done? ==> f != null && Open(dir) && Open(f) && dir.ino <= 8 * bsize && f.ino <= 8 * bsize
      ensures r.Done? ==> Made(old(Now()), Now(), bsize, dir.ino - 1, f.ino - 1, name, mode)
      ensures r.Done? ==> Free(Bits(blockMap)) == old(Free(Bits(blockMap))) - old(NewBlocks(dir))
      ensures f != null && !r.Done? ==> NotMade(old(Now()), Now(), With(dir), dir.ino - 1, f.ino - 1, mode, r)
      ensures r in {Failed(ENAMETOOLONG), Failed(EFBIG)} ==> Open(dir)
      ensures r == Failed(EFBIG) ==> Names(Now(), dir.ino - 1) == old(Names(Now(), dir.ino - 1))
      ensures r.Stray? ==> Unsound(dir)
      ensures old(TreeOf(Now()) && InTree(Now(), dir.ino - 1)) ==> (TreeOf(Now()) <==> !(r.Done? && mode == DIR))
    {
      hide Good, Bits, Run, Pos, Mapped, Listing, Untouched, DirOk, Slotted, Made, Lost, TreeOf, InTree;
      hide AddOutcome, NotMade;
      hide Known, InodesFull, Free, NewBlocks, MkNodEnds;
      ghost var s, d := Now(), dir.ino - 1;
      OpenReady(dir);
      MkNodEndsSo(dir, name);
      var p := FindEntry(dir, name);
      f := null;
      if p.At? {
        return Failed(EEXIST), null;
      }
      f := StartInode(dir, mode);
      if f == null {
        return Failed(ENOSPC), null;
      }
      r := EnterInode(dir, f, name, mode, s);
      if TreeOf(s) && InTree(s, d) {
        if r.Done? {
          MadeTree(s, Now(), bsize, d, f.ino - 1, name, mode);
        } else {
          NotMadeTree(s, Now(), With(dir), bsize, d, f.ino - 1, mode, r);
        }
      }
    }

    /** The entries of a new directory, which is then written to the table.  With no free block for
        them they go astray, and the directory stays without. */
    method EnterDots(parent: Inode, dir: Inode, name: Name, ghost s: State) returns (r: Outcome)
      requires Open(parent) && Open(dir) && dir.ino <= 8 * bsize && parent.ino <= 8 * bsize && dir != parent
      requires Good(s, bsize) && Made(s, Now(), bsize, parent.ino - 1, dir.ino - 1, name, DIR)
      modifies this`blockMap, this`table, this`disk, dir`size, dir`data
      ensures Shape() && |table| == old(|table|) && Open(parent)
      ensures r == if old(DiskFull()) then Stray else Done
      ensures r.Done? ==> Open(dir) && MadeDir(s, Now(), bsize, parent.ino - 1, dir.ino - 1, name)
      ensures r.Stray? ==> Now() == old(Now()) && With(dir) == Strayed(Now(), dir.ino - 1)
    {
      hide Good, Bits, Run, Pos, Mapped, Listing, Untouched, DirOk, Slotted, FirstFree, AddSlot, Made, MadeDir, Entered;
      hide AddOutcome, Strayed, DiskFull, NewBlocks, Free;
      ghost var s1, i, d := Now(), dir.ino - 1, parent.ino - 1;
      OpenReady(dir);
      NoNames(s, s1, bsize, d, i, name);
      FirstDot(dir);
      r := AddEntry(dir, DOT, dir.ino);
      if !r.Done? {
        return;
      }
      ghost var s2 := With(dir);
      assert DOTDOT !in List(dir) by { EnteredNames(s1, s2, bsize, i, DOT, dir.ino); }
      SecondDot(dir, Slot(dir.ino, DOT));
      r := AddEntry(dir, DOTDOT, parent.ino);
      IWrite(dir);
      MakeDirSteps(s, s1, s2, Now(), bsize, d, i, name);
    }

    /** The first entry of a new directory needs a block. */
    lemma FirstDot(dir: Inode)
      requires Shape() && 1 <= dir.ino <= |table| && dir.data == ZEROS && Ready(dir)
      ensures Dir(dir) == [] && AddOutcome(dir, DOT) == if DiskFull() then Stray else Done
    {
      hide Good;
      assert Run(ZEROS) == 0;
      assert Content(disk, ZEROS, 0) == [];
    }

    /** The second goes to the same block. */
    lemma SecondDot(dir: Inode, e: Slot)
      requires Shape() && 1 <= dir.ino <= |table| && Dir(dir) == AddSlot([], e, per) && e.ino != 0
      ensures AddOutcome(dir, DOTDOT) == Done
    {
      assert AddSlot([], e, per) == [e] + FreeSlots(per - 1);
      FirstFreeIs(Dir(dir), 1);
    }

    /** How mkdir ends, from what its caller can see before the call: beside what mknod needs, one block
        for the dots. */
    ghost function MkDirOutcome(parent: Inode, name: Name): Outcome
      requires 1 <= parent.ino <= |table|
      reads this, parent
    {
      var r := MkNodOutcome(parent, name);
      if r.Done? && Free(Bits(blockMap)) < NewBlocks(parent) + 1 then Stray else r
    }

    lemma MkDirEndsSo(dir: Inode, name: Name)
      requires Ready(dir)
      ensures MkDirEnds(Known(dir, name) in List(dir), Bits(inodeMap), Dir(dir), dir.data, Bits(blockMap), name,
                        MkDirOutcome(dir, name))
    {
      MkNodEndsSo(dir, name);
      hide Ready, Bits, Known, Listing, Slotted, MkNodOutcome;
      NoneFree(Bits(blockMap));
    }

    /** tfs_mkdir: a directory that lists itself and its parent.  Every other end but that of a name that
        is there already and that of a full inode bitmap leaves a directory without dots behind: without a
        name, as after mknod, or in the parent when the disk fills in between. */
    method MkDir(parent: Inode, name: Name) returns (r: Outcome, ghost dir: Inode?)
      requires Open(parent) && parent.mode == DIR && CString(name)
      modifies this`inodeMap, this`blockMap, this`table, this`disk, parent`size, parent`data
      ensures r == old(MkDirOutcome(parent, name))
      ensures MkDirEnds(old(Known(parent, name) in List(parent)), old(Bits(inodeMap)), old(Dir(parent)),
                        old(parent.data), old(Bits(blockMap)), name, r)
      ensures |name| <= NAME_LEN ==> (name in old(Names(Now(), parent.ino - 1)) <==> r == Failed(EEXIST))
      ensures dir == null <==> r in {Failed(EEXIST), Failed(ENOSPC)}
      ensures dir == null ==> Open(parent) && Now() == old(Now())
      ensures Shape() && |table| == old(|table|)
      ensures dir != null ==> fresh(dir) && dir.ino != parent.ino && 1 <= dir.ino <= |table|
      ensures r.Done? ==> dir != null && Open(dir)
      ensures old(MkNodOutcome(parent, name)).Done? || r in {Failed(ENAMETOOLONG), Failed(EFBIG)} ==> Open(parent)
      ensures dir != null ==>
        MkDirEnd(old(Now()), Now(), With(parent), With(dir), bsize, parent.ino - 1, dir.ino - 1, name,
                 old(MkNodOutcome(parent, name)), r)
      ensures old(TreeOf(Now()) && InTree(Now(), parent.ino - 1)) ==>
        (TreeOf(Now()) <==> !(r.Stray? && old(MkNodOutcome(parent, name)).Done?))
    {
      hide Good, Bits, Run, Pos, Mapped, Listing, Untouched, DirOk, Slotted, Made, MadeDir, TreeOf, InTree;
      hide MkNodOutcome, MkNodEnds, MkDirEnds;
      hide NotMade, Strayed, Free, NewBlocks;
      ghost var s, d := Now(), parent.ino - 1;
      OpenReady(parent);
      MkDirEndsSo(parent, name);
      var f: Inode?;
      r, f := MkNod(parent, name, DIR);
      dir := f;
      if !r.Done? {
        return;
      }
      r := EnterDots(parent, f, name, s);
      OpenReady(parent);
      if r.Done? && TreeOf(s) && InTree(s, d) {
        MakingDirKeepsTree(s, Now(), bsize, d, f.ino - 1, name);
      }
    }

    /** What rmdir and unlink do once they have agreed to remove slot de of block k: f, which may be the
        directory itself, read a second time, is what the entry leads to. */
    method Detach(dir: Inode, k: nat, de: nat, f: Inode)
      requires Open(dir) && dir.mode == DIR && Open(f)
      requires k < Run(dir.data) && de < per && Directory.Taken(Dir(dir), Pos(k, per, de))
      modifies this`inodeMap, this`blockMap, this`table, this`disk, dir`size
      ensures f.ino != dir.ino ==> Open(dir)
      ensures f.ino != dir.ino ==>
        Removed(old(Now()), Now(), bsize, dir.ino - 1, f.ino - 1, old(Dir(dir)[Pos(k, per, de)].name))
      ensures f.ino == dir.ino ==> Shape() && RemovedSelf(old(Now()), Now(), bsize, dir.ino - 1)
    {
      hide Good, Bits, Run, Pos, Mapped, Listing, Untouched, DirOk, Slotted, Removed, RemovedSelf, Splice;
      hide Le32Bytes, Prefix;
      ghost var s, d, i, name := Now(), dir.ino - 1, f.ino - 1, Dir(dir)[Pos(k, per, de)].name;
      OpenReady(dir);
      Scanned(dir);
      SlotPlace(disk, bsize, per, dir.data, Run(dir.data), k, de);
      RemoveHere(s, bsize, per, d, k, de);
      dir.size := dir.size - ENTRY;
      IWrite(dir);
      disk := disk[dir.data[k] := Splice(disk[dir.data[k]], ENTRY * de, Le32Bytes(0))];
      ghost var s1 := Now();
      assert s1 == RemovedHere(s, d, k, de);
      if i != d {
        SameNames(s, s1, bsize, d, i);
      }
      ReleaseInode(f);
      if i != d {
        RemoveSteps(s, s1, Now(), bsize, d, i, name);
      } else {
        RemoveSelfSteps(s, s1, Now(), bsize, d);
      }
    }

    /** tfs_rmdir: only a directory of two names is removed.  In a tree these are its dots.  The name may
        lead to the directory itself, as its own dot does; if that lists nothing of its own, it goes away,
        although its parent still lists it. */
    method RmDir(dir: Inode, name: Name) returns (r: Outcome)
      requires Open(dir) && dir.mode == DIR && CString(name) && EntryLive(Now(), dir.ino - 1, Known(dir, name))
      modifies this`inodeMap, this`blockMap, this`table, this`disk, dir`size
      ensures r == RmDirOutcome(old(Now()), dir.ino - 1, old(Known(dir, name)))
      ensures r == Failed(ENOENT) <==> old(Known(dir, name)) !in old(Names(Now(), dir.ino - 1))
      ensures old(Known(dir, name)) in old(Names(Now(), dir.ino - 1)) ==>
        SizeDecides(old(Now()).v.nodes[Target(old(Now()), dir.ino - 1, old(Known(dir, name)))], r)
      ensures !r.Done? ==> Open(dir) && Now() == old(Now())
      ensures r.Done? && !LeadsBack(old(Now()), dir.ino - 1, old(Known(dir, name))) ==>
        Open(dir) && RemovedName(old(Now()), Now(), bsize, dir.ino - 1, old(Known(dir, name)))
      ensures r.Done? && LeadsBack(old(Now()), dir.ino - 1, old(Known(dir, name))) ==>
        Shape() && RemovedSelf(old(Now()), Now(), bsize, dir.ino - 1)
      ensures old(TreeOf(Now())) ==> (TreeOf(Now()) <==>
        !(LeadsToItself(dir.ino - 1, old(Known(dir, name))) && old(Names(Now(), dir.ino - 1)).Keys == {DOT, DOTDOT}))
      ensures Tight(old(Now()).v) ==> Tight(Now().v)
    {
      hide Good, Bits, Run, Mapped, Listing, Untouched, DirOk, Slotted, Removed, RemovedSelf, Pos, TreeOf, Known, Tight;
      ghost var s, d, known := Now(), dir.ino - 1, Known(dir, name);
      OpenReady(dir);
      RmDirFacts(s, bsize, d, known);
      if known in Names(s, d) { SizeDecidesSo(s, bsize, d, known); }
      hide SizeDecides;
      var p := FindEntry(dir, name);
      if p.NotFound? {
        return Failed(ENOENT);
      }
      var inr := EntryIno(dir, p.k, p.j, known);
      var f := IGetByInr(inr);
      if f.mode != DIR {
        return Failed(ENOTDIR);
      }
      var empty := IsEmptyDir(f.size);
      if empty == 0 {
        return Failed(ENOTEMPTY);
      } else if empty == -1 {
        return Failed(EINVAL);
      }
      Detach(dir, p.k, p.j, f);
      RmDirEnds(s, Now(), bsize, d, f.ino - 1, known);
      return Done;
    }

    /** de->d_inode of the entry found */
    method EntryIno(dir: Inode, k: nat, j: nat, ghost name: Name) returns (inr: nat)
      requires Open(dir) && dir.mode == DIR && k < Run(dir.data) && j < per && Has(Dir(dir), Pos(k, per, j), name)
      ensures name in Names(Now(), dir.ino - 1) && inr == Names(Now(), dir.ino - 1)[name]
    {
      hide Good, Bits, Run, Mapped, Listing, Slotted, Pos, SlotAt, DirSlots, Distinct, DirOk;
      OpenReady(dir);
      Scanned(dir);
      SlotSeen(disk, bsize, per, dir.data, Run(dir.data), k, j, name);
      NamesUnder(With(dir), bsize, dir.ino - 1, Pos(k, per, j), name);
      inr := Le32(InoBytes(disk[dir.data[k]], j));
    }

    /** tfs_unlink.  For something that is not a file the result is whatever the variable err held. */
    method Unlink(dir: Inode, name: Name) returns (r: Outcome)
      requires Open(dir) && dir.mode == DIR && CString(name) && EntryLive(Now(), dir.ino - 1, Known(dir, name))
      modifies this`inodeMap, this`blockMap, this`table, this`disk, dir`size
      ensures Open(dir) && dir.mode == DIR
      ensures old(TreeOf(Now())) ==> TreeOf(Now())
      ensures old(Known(dir, name)) !in old(Names(Now(), dir.ino - 1)) ==> r == Failed(ENOENT)
      ensures if NamesFile(old(Now()), dir.ino - 1, old(Known(dir, name)))
        then r.Done? && RemovedName(old(Now()), Now(), bsize, dir.ino - 1, old(Known(dir, name)))
        else Now() == old(Now())
    {
      hide Good, Bits, Run, Mapped, Listing, Untouched, DirOk, Slotted, Removed, Pos, TreeOf, Known;
      ghost var s, d, known := Now(), dir.ino - 1, Known(dir, name);
      OpenReady(dir);
      var p := FindEntry(dir, name);
      if p.NotFound? {
        return Failed(ENOENT);
      }
      var inr := EntryIno(dir, p.k, p.j, known);
      var f := IGetByInr(inr);
      if f.mode != FILE {
        var err: int := *;
        return if err == 0 then Done else Failed(err);
      }
      assert f.ino != dir.ino;
      Detach(dir, p.k, p.j, f);
      if TreeOf(s) {
        TreeTarget(s, bsize, d, known);
        RemovingKeepsTree(s, Now(), bsize, d, f.ino - 1, known);
      }
      return Done;
    }

    /** tfs_readdir at slot t of the directory: the next entry that is in use, and where to go on. */
    method ReadDir(f: Inode, t: nat) returns (found: bool, e: Slot, next: nat)
      requires Ready(f) && f.mode == DIR
      ensures found ==> t < next <= |Dir(f)| && e == Dir(f)[next - 1] && Directory.Taken(Dir(f), next - 1)
      ensures forall u :: t <= u < (if found then next - 1 else |Dir(f)|) ==> !Directory.Taken(Dir(f), u)
      decreases |Dir(f)| - t
    {
      hide Good, Bits, Run, DirSlots, Pos, SlotAt;
      Scanned(f);
      DirPrefix(f);
      var index, de := SlotOf(t);
      var block := f.BMap(index);
      if block == 0 {
        PosBeyond(Run(f.data), index, per, de);
        return false, Slot(0, []), t;
      }
      SlotPlace(disk, bsize, per, f.data, Run(f.data), index, de);
      e := SlotAt(disk[block], de);
      next := t + 1;
      found := true;
      if e.ino == 0 {
        found, e, next := ReadDir(f, next);
      }
    }

    lemma DirPrefix(f: Inode)
      requires Ready(f) && f.mode == DIR
      ensures |f.data| == N_BLOCKS && forall k :: 0 <= k < N_BLOCKS && f.data[k] != 0 ==> k < Run(f.data)
    {
      assert DirOk(With(f), f.ino - 1);
    }

    /** offset >> s_block_shift, and the entry that offset & (s_block_size - 1) is in its block */
    method SlotOf(t: nat) returns (index: nat, de: nat)
      requires Per(bsize, per)
      ensures de < per && Pos(index, per, de) == t
    {
      var offset := ENTRY * t;
      index, de := offset / bsize, offset % bsize / ENTRY;
      SlotSplit(t, bsize, per);
    }
  }

  lemma NoInoNoMatch(name: Name, tail: seq<Byte>)
    ensures !MatchEntry(name, 0, tail)
  {}

  lemma SlotSplit(t: nat, bsize: nat, per: nat)
    requires Per(bsize, per)
    ensures ENTRY * t / bsize == t / per && ENTRY * t % bsize / ENTRY == t % per
    ensures t % per < per && t / per >= 0 && Pos(t / per, per, t % per) == t
  {
    var k, j := t / per, t % per;
    assert t == k * per + j;
    assert ENTRY * t == bsize * k + ENTRY * j by { Associate(k, per); }
    DivIs(ENTRY * t, bsize, k, ENTRY * j);
  }

  lemma Associate(k: nat, per: nat)
    ensures ENTRY * (k * per) == (ENTRY * per) * k
  {}

  lemma DivIs(a: nat, b: nat, q: nat, r: nat)
    requires r < b && a == b * q + r
    ensures a / b == q && a % b == r
  {
    var q', r' := a / b, a % b;
    assert b * (q' - q) == r - r';
    assert q' - q >= 1 ==> b * (q' - q) >= b;
    assert q - q' >= 1 ==> b * (q - q') >= b;
  }
}
