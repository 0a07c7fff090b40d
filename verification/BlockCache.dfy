/** fs/cache.c: least-recently-used cache of disk blocks, and the write-through discipline
    of its clients. */
module BlockCache {
  import opened Bytes
  import opened Lru
  import opened Ring

  const CACHE_SIZE := 32 * 1024
  const MAX_CACHE_ENTRIES := 64

  /** The blocks of the disk. */
  type Blocks = seq<seq<Byte>>

  /** How a disk read ends.  A failed read leaves something in the buffer: floppy_reads can
      stop in the middle of a block. */
  datatype Io = Done | Failed(left: seq<Byte>)

  /** The ring's slots with their tags, least recently used first. */
  function Tagged(block: seq<int>, ring: seq<int>): seq<Entry<int>> {
    seq(|ring|, i requires 0 <= i < |ring| =>
      Entry(ring[i], if 0 <= ring[i] < |block| then block[ring[i]] else EMPTY))
  }

  /** Each slot's data lies in the area, behind the previous slot's. */
  ghost predicate OwnData(data: seq<int>, n: nat, size: nat, area: nat) {
    && |data| == n + 1
    && (forall i :: 0 <= i < n ==> 0 <= data[i] && data[i] + size <= area)
    && (forall i, j :: 0 <= i < j < n ==> data[i] + size <= data[j])
  }

  function Contents(area: seq<Byte>, data: seq<int>, size: nat, s: nat): seq<Byte>
    requires s < |data| && 0 <= data[s] && data[s] + size <= |area|
  {
    area[data[s]..data[s] + size]
  }

  /** Every tagged slot holds what the disk holds. */
  ghost predicate Holds(area: seq<Byte>, data: seq<int>, size: nat, block: seq<int>, n: nat, disk: Blocks)
    requires |block| == n + 1 && OwnData(data, n, size, |area|)
  {
    forall s :: 0 <= s < n && block[s] != EMPTY ==>
      0 <= block[s] < |disk| && Contents(area, data, size, s) == disk[block[s]]
  }

  class Cache {
    /** The fields of struct cache_struct, slot by slot; number `entries` is cache_head. */
    const entries: nat
    const block: array<int>
    const prev: array<int>
    const next: array<int>
    const data: array<int>
    const cacheData: array<Byte>
    const blockSize: nat
    ghost var ring: seq<int>

    ghost predicate Shape() {
      && entries > 0 && block.Length == prev.Length == next.Length == data.Length == entries + 1
      && block != prev && block != next && block != data && prev != next && prev != data && next != data
    }

    ghost predicate RingOk()
      reads this, prev, next
    {
      && |ring| == entries
      && Linked(next[..], prev[..], [entries] + ring)
      && |next[..]| == entries + 1
    }

    ghost predicate Valid()
      reads this, block, prev, next, data
    {
      && Shape() && RingOk()
      && OwnData(data[..], entries, blockSize, cacheData.Length)
      && DistinctTags(Tags(Tagged(block[..], ring)))
    }

    ghost predicate Coherent(disk: Blocks)
      reads this, block, prev, next, data, cacheData
      requires Valid()
    {
      Holds(cacheData[..], data[..], blockSize, block[..], entries, disk)
    }

    /** cache_init */
    constructor (size: nat)
      requires 0 < size <= CACHE_SIZE
      ensures Valid() && blockSize == size && fresh(block) && fresh(prev) && fresh(next) && fresh(data)
      ensures fresh(cacheData)
      ensures entries == if CACHE_SIZE / size > MAX_CACHE_ENTRIES then MAX_CACHE_ENTRIES else CACHE_SIZE / size
      ensures Tags(Tagged(block[..], ring)) == Unused(entries)
      ensures forall disk :: Coherent(disk)
    {
      hide Splice, Find;
      var n := CACHE_SIZE / size;
      if n > MAX_CACHE_ENTRIES { n := MAX_CACHE_ENTRIES; }
      entries, blockSize := n, size;
      block := new int[n + 1];
      prev := new int[n + 1];
      next := new int[n + 1];
      data := new int[n + 1];
      cacheData := new Byte[CACHE_SIZE];
      ring := seq(n, i => i);
      new;
      LinkSlots();
    }

    /** The search of get_cache_block, from the freshest slot backwards. */
    method Search(b: int) returns (cs: int, found: bool, ghost k: int)
      requires Valid()
      ensures k == Find(Tagged(block[..], ring), b) && found == (k >= 0)
      ensures cs == if found then ring[k] else entries
    {
      var head := entries;
      cs := prev[head];
      ghost var c := [entries] + ring;
      var i := 0;
      while i < entries
        invariant 0 <= i <= entries && cs == c[entries - i]
        invariant forall j :: entries - i < j <= entries ==> block[c[j]] != b
      {
        if block[cs] == b { break; }
        assert prev[c[entries - i - 1 + 1]] == c[entries - i - 1];
        cs := prev[cs];
        i := i + 1;
      }
      found, k := i < entries, entries - i - 1;
      var es := Tagged(block[..], ring);
      forall j | k < j < |es| ensures es[j].tag != b { assert c[j + 1] == ring[j]; }
      FindIs(es, b, k);
    }

    /** The ring's slots with their tags, least recently used first. */
    ghost function Slots(): seq<Entry<int>>
      reads this, block
    {
      Tagged(block[..], ring)
    }

    /** get_cache_block; null is -1.  A block in the ring is returned without reading the
        disk; any other is read into the oldest slot, unless the read fails.  The ring
        survives every call on two slots or more; with a single slot, exactly the misses
        destroy it. */
    method GetCacheBlock(disk: Blocks, b: int, io: Io) returns (cs: int)
      requires Valid() && 0 <= b <= EMPTY
      requires OnDisk(disk, blockSize) && (b >= |disk| ==> io.Failed?)
      requires io.Failed? ==> |io.left| == blockSize
      modifies this`ring, block, prev, next, cacheData
      ensures data[..] == old(data[..])
      ensures old(Find(Slots(), b)) >= 0 ==> cs != -1 && cacheData[..] == old(cacheData[..])
      ensures old(Find(Slots(), b)) < 0 ==>
        && (cs == -1 <==> io.Failed?)
        && Fills(old(cacheData[..]), cacheData[..], data[..], old(ring)[0], if io.Done? then disk[b] else io.left)
      ensures cs == -1 ==> Valid() && ring == old(ring)
      ensures block[..] == if cs == -1 || old(Find(Slots(), b)) >= 0 then old(block[..])
                           else old(block[..][ring[0] := b])
      ensures cs != -1 && (entries >= 2 || old(Find(Slots(), b)) >= 0) ==>
        && Valid() && Slots() == Touch(old(Slots()), b)
        && cs == ring[entries - 1] && 0 <= cs < entries
      ensures cs != -1 && entries == 1 && old(Find(Slots(), b)) < 0 ==> Broken()
    {
      var head := entries;
      RingSlots(ring, entries, next[..], prev[..]);
      var last := prev[head];
      cs := prev[head];
      if block[cs] == b {
        AlreadyFreshest(block[..], ring, b);
        return;
      }
      cs := Lookup(disk, b, io, last);
    }

    /** get_cache_block from line 79 on: the block is not the freshest one. */
    method Lookup(disk: Blocks, b: int, io: Io, last: int) returns (cs: int)
      requires Valid() && 0 <= b <= EMPTY && last == ring[entries - 1]
      requires OnDisk(disk, blockSize) && (b >= |disk| ==> io.Failed?)
      requires io.Failed? ==> |io.left| == blockSize
      requires Find(Slots(), b) != entries - 1
      modifies this`ring, block, prev, next, cacheData
      ensures old(Find(Slots(), b)) >= 0 ==> cs != -1 && cacheData[..] == old(cacheData[..])
      ensures old(Find(Slots(), b)) < 0 ==>
        && (cs == -1 <==> io.Failed?)
        && Fills(old(cacheData[..]), cacheData[..], data[..], old(ring)[0], if io.Done? then disk[b] else io.left)
      ensures cs == -1 ==> Valid() && ring == old(ring)
      ensures block[..] == if cs == -1 || old(Find(Slots(), b)) >= 0 then old(block[..])
                           else old(block[..][ring[0] := b])
      ensures cs != -1 && (entries >= 2 || old(Find(Slots(), b)) >= 0) ==>
        && Valid() && Slots() == Touch(old(Slots()), b)
        && cs == ring[entries - 1] && 0 <= cs < entries
      ensures cs != -1 && entries == 1 && old(Find(Slots(), b)) < 0 ==> Broken()
    {
      var found;
      ghost var k;
      RingSlots(ring, entries, next[..], prev[..]);
      cs, found, k := Search(b);
      if found {
        Refresh(cs, last, k, b, block[..]);
      } else {
        ghost var block0 := block[..];
        cs := Load(disk, b, io);
        if cs == -1 { return; }
        Refresh(cs, last, 0, b, block0);
      }
    }

    /** Lines 96-103, and what they make of the ring as it was before the request. */
    method Refresh(cs: int, last: int, ghost k: nat, b: int, ghost block0: seq<int>)
      requires Shape() && RingOk() && k < entries && cs == ring[k] && last == ring[entries - 1]
      requires OwnData(data[..], entries, blockSize, cacheData.Length) && 0 <= ring[0] < entries
      requires DistinctTags(Tags(Tagged(block0, ring))) && |block0| == entries + 1
      requires var i := Find(Tagged(block0, ring), b);
        if i >= 0 then k == i && block[..] == block0
        else k == 0 && b != EMPTY && block[..] == block0[ring[0] := b]
      requires k == entries - 1 ==> Find(Tagged(block0, ring), b) < 0
      modifies this`ring, prev, next
      ensures entries >= 2 ==>
        Valid() && Slots() == Touch(Tagged(block0, old(ring)), b) && cs == ring[entries - 1] && 0 <= cs < entries
      ensures entries == 1 ==> Broken()
    {
      hide Find, Touch, Tags, DistinctTags, Linked;
      RingSlots(ring, entries, next[..], prev[..]);
      RequestOutcome(block0, block[..], ring, k, b);
      ghost var block1 := block[..];
      Relink(cs, last, k);
      assert block[..] == block1;
    }

    /** After a successful request the slot holds the block and every slot is still coherent.
        After a failed one the cache is coherent exactly if the victim slot was unused or the
        failed read left its data as it was. */
    method Request(disk: Blocks, b: int, io: Io) returns (cs: int)
      requires Valid() && entries >= 2 && 0 <= b < EMPTY && Coherent(disk)
      requires OnDisk(disk, blockSize) && (b >= |disk| ==> io.Failed?)
      requires io.Failed? ==> |io.left| == blockSize
      modifies this`ring, block, prev, next, cacheData
      ensures Valid() && data[..] == old(data[..])
      ensures cs == -1 <==> io.Failed? && old(Find(Slots(), b)) < 0
      ensures cs != -1 ==>
        && Slots() == Touch(old(Slots()), b) && Coherent(disk)
        && cs == ring[entries - 1] && 0 <= cs < entries && b < |disk| && block[cs] == b
        && Contents(cacheData[..], data[..], blockSize, cs) == disk[b]
      ensures cs == -1 ==>
        && Slots() == old(Slots())
        && (Coherent(disk) <==> old(Slots()[0].tag == EMPTY || Same(disk, Slots()[0].tag, io)))
    {
      hide Find, Touch, Tags, DistinctTags, Linked, Holds;
      ghost var es, area, tags, victim := Slots(), cacheData[..], block[..], ring[0];
      RingSlots(ring, entries, next[..], prev[..]);
      cs := GetCacheBlock(disk, b, io);
      RequestCoheres(es, area, cacheData[..], data[..], blockSize, tags, block[..], ring, entries, disk,
                     victim, cs, b, io);
    }

    /** How every client writes: request the block, change it in its slot, and write the
        slot to the disk at once.  A failed write leaves the cache coherent exactly if the
        disk holds the changed bytes all the same. */
    method Update(disk: Blocks, b: int, off: nat, part: seq<Byte>, rio: Io, wio: Io)
      returns (ok: bool, disk': Blocks)
      requires Valid() && entries >= 2 && 0 <= b < EMPTY && Coherent(disk)
      requires OnDisk(disk, blockSize) && (b >= |disk| ==> rio.Failed?) && off + |part| <= blockSize
      requires rio.Failed? ==> |rio.left| == blockSize
      requires wio.Failed? ==> |wio.left| == blockSize
      modifies this`ring, block, prev, next, cacheData
      ensures Valid() && OnDisk(disk', blockSize)
      ensures rio.Failed? && old(Find(Slots(), b)) < 0 ==> !ok && disk' == disk
      ensures rio.Done? || old(Find(Slots(), b)) >= 0 ==>
        && b < |disk| && ok == wio.Done?
        && disk' == disk[b := if wio.Done? then Splice(disk[b], off, part) else wio.left]
        && (Coherent(disk') <==> disk'[b] == Splice(disk[b], off, part))
    {
      hide Find, Touch, Tags, DistinctTags, Linked, Holds;
      var cs := Request(disk, b, rio);
      if cs == -1 { return false, disk; }
      disk' := Store(disk, cs, off, part, wio);
      ok := wio.Done?;
    }

    /** Clients read and write blocks through the cache exactly as if they worked on the disk itself:
        same bytes read, same disk at the end.  They may go on using the slot they got for a block
        until so many others have been requested that the cache has none left for it. */
    method Execute(disk: Blocks, ops: seq<Access>) returns (disk': Blocks, got: seq<seq<Byte>>)
      requires Valid() && entries >= 2 && Coherent(disk) && OnDisk(disk, blockSize)
      requires forall k :: 0 <= k < |ops| ==> InBounds(ops[k], |disk|, blockSize)
      requires forall k :: 0 <= k < |ops| && Holding(ops[k]) ==> StillHeld(ops[..k], ops[k].b, entries)
      modifies this`ring, block, prev, next, cacheData
      ensures Valid() && Coherent(disk')
      ensures disk' == DirectDisk(disk, ops, blockSize) && got == DirectReads(disk, ops, blockSize)
    {
      hide Holds, Touch, Tags, DistinctTags, Linked, InHand, StillHeld, Tagged, OwnData, Trace;
      disk', got := disk, [];
      var slot: map<int, int> := map[];
      var i := 0;
      assert ops[..0] == [];
      NothingInHand(Slots());
      assert Trace([]) == [] by { NoTrace(); }
      while i < |ops|
        invariant 0 <= i <= |ops| && Valid() && Coherent(disk')
        invariant OnDisk(disk', blockSize) && |disk'| == |disk|
        invariant disk' == DirectDisk(disk, ops[..i], blockSize)
        invariant got == DirectReads(disk, ops[..i], blockSize)
        invariant InHand(Slots(), slot, Trace(ops[..i]))
      {
        assert ops[..i + 1][..i] == ops[..i];
        assert ops[..i + 1] == ops[..i] + [ops[i]];
        var bytes;
        disk', bytes, slot := ExecuteNext(disk', ops[i], slot, ops[..i]);
        got := got + bytes;
        i := i + 1;
      }
      assert ops[..i] == ops;
    }

    /** One access, by a client with these slots in hand. */
    method ExecuteNext(disk: Blocks, op: Access, slot: map<int, int>, ghost before: seq<Access>)
      returns (disk': Blocks, bytes: seq<seq<Byte>>, slot': map<int, int>)
      requires Valid() && entries >= 2 && Coherent(disk) && OnDisk(disk, blockSize)
      requires InBounds(op, |disk|, blockSize) && (Holding(op) ==> StillHeld(before, op.b, entries))
      requires InHand(Slots(), slot, Trace(before))
      modifies this`ring, block, prev, next, cacheData
      ensures Valid() && Coherent(disk') && OnDisk(disk', blockSize)
      ensures disk' == DirectStep(disk, op, blockSize) && bytes == if Reads(op) then [disk[op.b]] else []
      ensures InHand(Slots(), slot', Trace(before + [op]))
    {
      hide Holds, Touch, Tags, DistinctTags, Linked, InHand, StillHeld;
      assert (before + [op])[..|before|] == before;
      if Holding(op) {
        assert Trace(before + [op]) == Trace(before);
        RingSlots(ring, entries, next[..], prev[..]);
        SlotInHand(block[..], ring, slot, before, op.b, entries);
        disk', bytes := ExecuteHeld(disk, op, slot[op.b]);
        slot' := slot;
      } else {
        ghost var es := Slots();
        var cs;
        disk', bytes, cs := ExecuteOne(disk, op);
        TouchInHand(es, slot, Trace(before), op.b, cs);
        slot' := slot[op.b := cs];
      }
    }

    /** An access that requests its block. */
    method ExecuteOne(disk: Blocks, op: Access) returns (disk': Blocks, bytes: seq<seq<Byte>>, cs: int)
      requires Valid() && entries >= 2 && Coherent(disk) && OnDisk(disk, blockSize)
      requires InBounds(op, |disk|, blockSize) && !Holding(op)
      modifies this`ring, block, prev, next, cacheData
      ensures Valid() && Coherent(disk') && OnDisk(disk', blockSize)
      ensures disk' == DirectStep(disk, op, blockSize)
      ensures bytes == if op.Get? then [disk[op.b]] else []
      ensures Slots() == Touch(old(Slots()), op.b) && |Slots()| == entries
      ensures Slots()[entries - 1] == Entry(cs, op.b) && DistinctTags(Tags(old(Slots())))
    {
      hide Holds, Touch, Tags, DistinctTags, Linked;
      cs := Request(disk, op.b, Done);
      disk', bytes := disk, [];
      if op.Get? {
        bytes := [InSlot(cs)];
      } else {
        disk' := Store(disk, cs, op.off, op.part, Done);
      }
    }

    /** An access to a slot in hand. */
    method ExecuteHeld(disk: Blocks, op: Access, cs: int) returns (disk': Blocks, bytes: seq<seq<Byte>>)
      requires Valid() && Coherent(disk) && OnDisk(disk, blockSize) && InBounds(op, |disk|, blockSize) && Holding(op)
      requires 0 <= cs < entries && block[cs] == op.b
      modifies cacheData
      ensures Valid() && Coherent(disk') && OnDisk(disk', blockSize) && Slots() == old(Slots())
      ensures disk' == DirectStep(disk, op, blockSize)
      ensures bytes == if op.HeldGet? then [disk[op.b]] else []
    {
      disk', bytes := disk, [];
      if op.HeldGet? {
        bytes := [InSlot(cs)];
      } else {
        disk' := Store(disk, cs, op.off, op.part, Done);
      }
    }

    /** Change a slot, and write it through. */
    method Store(disk: Blocks, cs: int, off: nat, part: seq<Byte>, wio: Io) returns (disk': Blocks)
      requires Valid() && 0 <= cs < entries && 0 <= block[cs] < |disk| && block[cs] != EMPTY && Coherent(disk)
      requires OnDisk(disk, blockSize) && off + |part| <= blockSize
      requires wio.Failed? ==> |wio.left| == blockSize
      modifies cacheData
      ensures Valid() && OnDisk(disk', blockSize)
      ensures disk' == disk[block[cs] := if wio.Done? then Splice(disk[block[cs]], off, part) else wio.left]
      ensures Coherent(disk') <==> disk'[block[cs]] == Splice(disk[block[cs]], off, part)
    {
      hide Holds, Linked, Tags, DistinctTags, Splice;
      ghost var area := cacheData[..];
      var bytes := Patch(cs, off, part);
      var stored := if wio.Done? then bytes else wio.left;
      disk' := disk[block[cs] := stored];
      StoreOutcome(area, cacheData[..], data[..], blockSize, block[..], next[..], prev[..], ring, entries, disk,
                   cs, off, part, stored);
    }

    /** memcpy into a slot; the slot's bytes afterwards are what is written to the disk. */
    method Patch(cs: int, off: nat, part: seq<Byte>) returns (bytes: seq<Byte>)
      requires Shape() && OwnData(data[..], entries, blockSize, cacheData.Length)
      requires 0 <= cs < entries && off + |part| <= blockSize
      modifies cacheData
      ensures cacheData[..] == Splice(old(cacheData[..]), data[cs] + off, part)
      ensures bytes == Contents(cacheData[..], data[..], blockSize, cs)
    {
      CopyInto(cacheData, data[cs] + off, part);
      bytes := InSlot(cs);
    }

    /** The bytes cs->data points at. */
    function InSlot(s: nat): seq<Byte>
      reads this, data, cacheData
      requires Shape() && s < entries && 0 <= data[s] && data[s] + blockSize <= cacheData.Length
    {
      cacheData[data[s]..data[s] + blockSize]
    }

    /** Lines 89-92: a block not found is read into the slot behind the head. */
    method Load(disk: Blocks, b: int, io: Io) returns (cs: int)
      requires Valid() && 0 <= b <= EMPTY && OnDisk(disk, blockSize) && (b >= |disk| ==> io.Failed?)
      requires io.Failed? ==> |io.left| == blockSize
      modifies block, cacheData
      ensures cs == if io.Done? then ring[0] else -1
      ensures Shape() && RingOk() && 0 <= ring[0] < entries
      ensures block[..] == if io.Done? then old(block[..])[ring[0] := b] else old(block[..])
      ensures Fills(old(cacheData[..]), cacheData[..], data[..], ring[0], if io.Done? then disk[b] else io.left)
    {
      RingSlots(ring, entries, next[..], prev[..]);
      cs := next[entries];
      CopyInto(cacheData, data[cs], if io.Done? then disk[b] else io.left);
      if io.Failed? { return -1; }
      block[cs] := b;
    }

    /** The list no longer contains the one slot. */
    ghost predicate Broken()
      reads next, prev
    {
      next.Length == entries + 1 && next[entries] == entries && !Linked(next[..], prev[..], [entries, 0])
    }

    /** The six assignments of lines 96-103. */
    method Relink(cs: int, last: int, ghost k: nat)
      requires Shape() && RingOk() && k < entries && cs == ring[k] && last == ring[entries - 1]
      modifies this`ring, prev, next
      ensures k < entries - 1 ==> RingOk() && ring == Moved(old(ring), k)
      ensures entries == 1 ==> Broken()
      ensures k == entries - 1 ==> ring == old(ring)
    {
      var head := entries;
      ghost var c := [entries] + ring;
      ghost var next0, prev0 := next[..], prev[..];
      UnlinkDrops(next0, prev0, c, k + 1);
      next[prev[cs]] := next[cs];
      prev[next[cs]] := prev[cs];
      next[last] := cs;
      prev[cs] := last;
      prev[head] := cs;
      next[cs] := head;
      if k < entries - 1 {
        RelinkMoves(next0, prev0, c, k + 1);
        assert Drop(c, k + 1) + [cs] == [entries] + Moved(ring, k);
        ring := Moved(ring, k);
      }
    }

    /** Line 39 of fs/cache.c to the end of cache_init. */
    method LinkSlots()
      requires Shape() && 0 < blockSize && entries <= CACHE_SIZE / blockSize && cacheData.Length == CACHE_SIZE
      requires ring == seq(entries, i => i)
      modifies block, prev, next, data
      ensures RingOk() && OwnData(data[..], entries, blockSize, cacheData.Length)
      ensures forall i :: 0 <= i < entries ==> block[i] == EMPTY
    {
      var head := entries;
      prev[head] := entries - 1;
      next[prev[head]] := head;
      var last, offset, cur := head, 0, 0;
      while cur < entries
        invariant 0 <= cur <= entries && last == (if cur == 0 then head else cur - 1)
        invariant 0 <= offset == Product(cur, blockSize)
        invariant prev[head] == entries - 1 && next[entries - 1] == head
        invariant cur > 0 ==> next[head] == 0 && prev[0] == head
        invariant forall j :: 0 <= j < cur - 1 ==> next[j] == j + 1
        invariant forall j :: 0 < j < cur ==> prev[j] == j - 1
        invariant forall j :: 0 <= j < cur ==> block[j] == EMPTY
        invariant forall j :: 0 <= j < cur ==> 0 <= data[j] && data[j] + blockSize <= offset <= CACHE_SIZE
        invariant forall i, j :: 0 <= i < j < cur ==> data[i] + blockSize <= data[j]
      {
        block[cur] := EMPTY;
        prev[cur] := last;
        next[last] := cur;
        data[cur] := offset;
        ProductBound(cur, entries, blockSize);
        offset := offset + blockSize;
        last := cur;
        cur := cur + 1;
      }
      FreshRing(next[..], prev[..], entries);
    }
  }

  /** The list cache_init builds: the slots in the order of the array. */
  lemma FreshRing(next: seq<int>, prev: seq<int>, n: nat)
    requires n > 0 && |next| == |prev| == n + 1
    requires next[n] == 0 && prev[0] == n && prev[n] == n - 1 && next[n - 1] == n
    requires forall j :: 0 <= j < n - 1 ==> next[j] == j + 1
    requires forall j :: 0 < j < n ==> prev[j] == j - 1
    ensures Linked(next, prev, [n] + seq(n, i => i))
  {}

  function Product(n: nat, size: nat): nat {
    if n == 0 then 0 else Product(n - 1, size) + size
  }

  lemma {:induction false} ProductIsTimes(n: nat, size: nat)
    ensures Product(n, size) == n * size
  {
    if n > 0 {
      ProductIsTimes(n - 1, size);
      assert (n - 1) * size + size == n * size;
    }
  }

  /** n slots fit into the data area. */
  lemma ProductBound(i: nat, n: nat, size: nat)
    requires 0 < size && i < n && n <= CACHE_SIZE / size
    ensures Product(i + 1, size) == Product(i, size) + size <= CACHE_SIZE
  {
    ProductGrows(i + 1, n, size);
    ProductIsTimes(n, size);
    QuotientFits(n, size);
  }

  lemma QuotientFits(n: nat, size: nat)
    requires 0 < size && n <= CACHE_SIZE / size
    ensures n * size <= CACHE_SIZE
  {}

  lemma {:induction false} ProductGrows(i: nat, n: nat, size: nat)
    requires i <= n
    ensures Product(i, size) <= Product(n, size)
    decreases n - i
  {
    if i < n { ProductGrows(i + 1, n, size); }
  }

  // ----- one request -----

  /** What the six assignments at the end of get_cache_block make of the links. */
  lemma RelinkMoves(next: seq<int>, prev: seq<int>, c: seq<int>, k: nat)
    requires Linked(next, prev, c) && 0 < k < |c| - 1
    ensures var s, head, last := c[k], c[0], c[|c| - 1];
      && 0 <= prev[s] < |next| && 0 <= next[s] < |next|
      && var next1, prev1 := next[prev[s] := next[s]], prev[next[s] := prev[s]];
         Linked(next1[last := s][s := head], prev1[s := last][head := s], Drop(c, k) + [s])
  {
    UnlinkDrops(next, prev, c, k);
    var d := Drop(c, k);
    assert d[0] == c[0] && d[|d| - 1] == c[|c| - 1];
    forall i | 0 <= i < |d| ensures d[i] != c[k] {
      assert d[i] == c[if i < k then i else i + 1];
    }
    AppendLinks(next[prev[c[k]] := next[c[k]]], prev[next[c[k]] := prev[c[k]]], d, c[k]);
  }

  /** Moving a slot to the back moves its entry. */
  lemma TaggedMoved(block: seq<int>, ring: seq<int>, k: nat)
    requires k < |ring|
    ensures Tagged(block, Moved(ring, k)) == Moved(Tagged(block, ring), k)
  {}

  /** Retagging the oldest slot and moving it to the back is a miss. */
  lemma TaggedMiss(block: seq<int>, ring: seq<int>, b: int)
    requires |ring| > 0 && NoRepeats(ring) && 0 <= ring[0] < |block|
    ensures Tagged(block[ring[0] := b], Moved(ring, 0)) == Tagged(block, ring)[1..] + [Entry(ring[0], b)]
  {}

  /** Where the backward search stops is where Find says. */
  lemma FindIs<S>(es: seq<Entry<S>>, b: int, i: int)
    requires -1 <= i < |es| && (i >= 0 ==> es[i].tag == b)
    requires forall j :: i < j < |es| ==> es[j].tag != b
    ensures Find(es, b) == i
  {}

  ghost predicate OnDisk(disk: Blocks, size: nat) {
    |disk| <= EMPTY && forall b :: 0 <= b < |disk| ==> |disk[b]| == size
  }

  lemma AlreadyFreshest(block: seq<int>, ring: seq<int>, b: int)
    requires |ring| > 0 && 0 <= ring[|ring| - 1] < |block| && block[ring[|ring| - 1]] == b
    ensures Find(Tagged(block, ring), b) == |ring| - 1
    ensures Touch(Tagged(block, ring), b) == Tagged(block, ring)
  {
    hide Find;
    var es := Tagged(block, ring);
    assert es[|es| - 1].tag == b;
    LastMoved(es);
  }

  lemma LastMoved<T>(s: seq<T>)
    requires s != []
    ensures Moved(s, |s| - 1) == s
  {}

  /** One slot's data, and nothing else, was replaced. */
  ghost predicate Fills(area: seq<Byte>, area': seq<Byte>, data: seq<int>, s: int, bytes: seq<Byte>) {
    && 0 <= s < |data| && 0 <= data[s] && data[s] + |bytes| <= |area|
    && area' == Splice(area, data[s], bytes)
  }

  lemma RingSlots(ring: seq<int>, n: nat, next: seq<int>, prev: seq<int>)
    requires |ring| == n && |next| == n + 1 && Linked(next, prev, [n] + ring)
    ensures forall i :: 0 <= i < n ==> 0 <= ring[i] < n
    ensures NoRepeats(ring)
    ensures n > 0 ==> next[n] == ring[0] && prev[n] == ring[n - 1]
  {
    var c := [n] + ring;
    forall i | 0 <= i < n ensures 0 <= ring[i] < n { assert c[i + 1] == ring[i] && c[0] == n; }
    forall i, j | 0 <= i < j < n ensures ring[i] != ring[j] { assert c[i + 1] != c[j + 1]; }
    if n > 0 { assert next[c[0]] == c[0 + 1]; }
  }

  /** The found slot, or the retagged oldest one, moved to the back: that is a Touch. */
  lemma RequestOutcome(block: seq<int>, block': seq<int>, ring: seq<int>, k: nat, b: int)
    requires k < |ring| && NoRepeats(ring) && 0 <= ring[0] < |block|
    requires DistinctTags(Tags(Tagged(block, ring)))
    requires var i := Find(Tagged(block, ring), b);
      if i >= 0 then k == i && block' == block
      else k == 0 && b != EMPTY && block' == block[ring[0] := b]
    ensures Tagged(block', Moved(ring, k)) == Touch(Tagged(block, ring), b)
    ensures DistinctTags(Tags(Tagged(block', Moved(ring, k))))
  {
    var es := Tagged(block, ring);
    if Find(es, b) >= 0 {
      TaggedMoved(block, ring, k);
      TagsMoved(es, k);
      MovedDistinct(Tags(es), k);
    } else {
      TaggedMiss(block, ring, b);
      TouchIsOnTags(es, b);
      TouchKeepsDistinct(Tags(es), b);
    }
  }

  /** A failed read that happened to leave block t's bytes. */
  ghost predicate Same(disk: Blocks, t: int, io: Io) {
    io.Failed? && 0 <= t < |disk| && io.left == disk[t]
  }

  lemma RequestCoheres(es: seq<Entry<int>>, area: seq<Byte>, area': seq<Byte>, data: seq<int>, size: nat,
                       block: seq<int>, block': seq<int>, ring': seq<int>, n: nat, disk: Blocks,
                       victim: int, cs: int, b: int, io: Io)
    requires n > 0 && |es| == n && |block| == |block'| == n + 1 && OwnData(data, n, size, |area|) && |area'| == |area|
    requires Holds(area, data, size, block, n, disk)
    requires 0 <= b < EMPTY && OnDisk(disk, size) && (b >= |disk| ==> io.Failed?)
    requires io.Failed? ==> |io.left| == size
    requires 0 <= victim < n && es[0] == Entry(victim, block[victim])
    requires cs == -1 <==> io.Failed? && Find(es, b) < 0
    requires cs != -1 ==> |ring'| == n && cs == ring'[n - 1] && 0 <= cs < n && Tagged(block', ring') == Touch(es, b)
    requires if Find(es, b) >= 0 then area' == area && block' == block
      else area' == Splice(area, data[victim], if io.Done? then disk[b] else io.left)
           && block' == if io.Done? then block[victim := b] else block
    ensures cs != -1 ==>
      && Holds(area', data, size, block', n, disk)
      && b < |disk| && block'[cs] == b && Contents(area', data, size, cs) == disk[b]
    ensures cs == -1 ==>
      (Holds(area', data, size, block', n, disk) <==> es[0].tag == EMPTY || Same(disk, es[0].tag, io))
  {
    hide Holds, Splice, Find, Touch, Tagged;
    if Find(es, b) < 0 { LoadCoheres(area, data, size, block, n, disk, victim, b, io); }
    if cs != -1 {
      LastHasTag(es, block', ring', b);
      HoldsAt(area', data, size, block', n, disk, cs);
    }
  }

  lemma LastHasTag(es: seq<Entry<int>>, block: seq<int>, ring: seq<int>, b: int)
    requires |es| > 0 && |ring| == |es| && Tagged(block, ring) == Touch(es, b)
    requires 0 <= ring[|es| - 1] < |block|
    ensures block[ring[|es| - 1]] == b
  {
    TouchLast(es, b);
    assert Tagged(block, ring)[|es| - 1].tag == b;
  }

  lemma HoldsAt(area: seq<Byte>, data: seq<int>, size: nat, block: seq<int>, n: nat, disk: Blocks, s: nat)
    requires |block| == n + 1 && OwnData(data, n, size, |area|) && Holds(area, data, size, block, n, disk)
    requires s < n && block[s] != EMPTY
    ensures 0 <= block[s] < |disk| && Contents(area, data, size, s) == disk[block[s]]
  {}

  lemma TouchLast<S>(es: seq<Entry<S>>, b: int)
    requires |es| > 0
    ensures |Touch(es, b)| == |es| && Touch(es, b)[|es| - 1].tag == b
  {}

  /** Reading a block, or failing to, into slot s. */
  lemma LoadCoheres(area: seq<Byte>, data: seq<int>, size: nat, block: seq<int>, n: nat, disk: Blocks,
                    s: nat, b: int, io: Io)
    requires |block| == n + 1 && OwnData(data, n, size, |area|) && Holds(area, data, size, block, n, disk)
    requires s < n && 0 <= b && OnDisk(disk, size) && (b >= |disk| ==> io.Failed?)
    requires io.Failed? ==> |io.left| == size
    ensures var area' := Splice(area, data[s], if io.Done? then disk[b] else io.left);
      && (io.Done? ==>
            Holds(area', data, size, block[s := b], n, disk) && Contents(area', data, size, s) == disk[b])
      && (io.Failed? ==>
            (Holds(area', data, size, block, n, disk) <==> block[s] == EMPTY || Same(disk, block[s], io)))
  {
    hide Splice;
    var bytes := if io.Done? then disk[b] else io.left;
    var area' := Splice(area, data[s], bytes);
    SpliceInside(area, data[s], bytes);
    forall t | 0 <= t < n && t != s ensures Contents(area', data, size, t) == Contents(area, data, size, t) {
      SpliceOutside(area, data[s], bytes, data[t], data[t] + size);
    }
    assert Contents(area', data, size, s) == bytes;
  }

  /** Changing slot s's bytes, and the disk's copy of its block to `stored`. */
  lemma StoreCoheres(area: seq<Byte>, area': seq<Byte>, data: seq<int>, size: nat, block: seq<int>,
                     n: nat, disk: Blocks, s: nat, off: nat, part: seq<Byte>, stored: seq<Byte>)
    requires |block| == n + 1 && OwnData(data, n, size, |area|) && Holds(area, data, size, block, n, disk)
    requires s < n && off + |part| <= size && OnDisk(disk, size) && |stored| == size
    requires 0 <= block[s] < |disk| && block[s] != EMPTY
    requires area' == Splice(area, data[s] + off, part)
    requires forall t :: 0 <= t < n && t != s ==> block[t] != block[s]
    ensures Contents(area', data, size, s) == Splice(disk[block[s]], off, part)
    ensures Holds(area', data, size, block, n, disk[block[s] := stored])
      <==> stored == Splice(disk[block[s]], off, part)
  {
    forall t | 0 <= t < n && t != s ensures Contents(area', data, size, t) == Contents(area, data, size, t) {
      SpliceOutside(area, data[s] + off, part, data[t], data[t] + size);
    }
    assert Contents(area, data, size, s) == disk[block[s]];
    assert Contents(area', data, size, s) == Splice(disk[block[s]], off, part);
  }

  function Below(n: nat): (s: set<int>)
    ensures |s| == n && forall x :: x in s <==> 0 <= x < n
  {
    if n == 0 then {} else Below(n - 1) + {n - 1}
  }

  lemma StoreOutcome(area: seq<Byte>, area': seq<Byte>, data: seq<int>, size: nat, block: seq<int>,
                     next: seq<int>, prev: seq<int>, ring: seq<int>, n: nat, disk: Blocks,
                     s: nat, off: nat, part: seq<Byte>, stored: seq<Byte>)
    requires |ring| == n && |next| == n + 1 && Linked(next, prev, [n] + ring)
    requires |block| == n + 1 && DistinctTags(Tags(Tagged(block, ring)))
    requires OwnData(data, n, size, |area|) && Holds(area, data, size, block, n, disk)
    requires s < n && off + |part| <= size && OnDisk(disk, size) && |stored| == size
    requires 0 <= block[s] < |disk| && block[s] != EMPTY
    requires area' == Splice(area, data[s] + off, part)
    ensures Contents(area', data, size, s) == Splice(disk[block[s]], off, part)
    ensures Holds(area', data, size, block, n, disk[block[s] := stored])
      <==> stored == Splice(disk[block[s]], off, part)
  {
    RingSlots(ring, n, next, prev);
    OtherSlotsDiffer(block, ring, n, s);
    StoreCoheres(area, area', data, size, block, n, disk, s, off, part, stored);
  }

  /** The ring leaves out no slot. */
  lemma RingCovers(ring: seq<int>, n: nat, t: nat)
    requires NoRepeats(ring) && |ring| == n && (forall i :: 0 <= i < n ==> 0 <= ring[i] < n) && t < n
    ensures t in ring
  {
    var all := Below(n);
    var here := set x | x in ring;
    ListsCount(ring, here);
    assert here * all == here && here + all == all && here - all == {};
    assert |all - here| == 0;
    assert t !in all - here;
  }

  lemma OtherSlotsDiffer(block: seq<int>, ring: seq<int>, n: nat, s: nat)
    requires NoRepeats(ring) && |ring| == n && (forall i :: 0 <= i < n ==> 0 <= ring[i] < n)
    requires |block| == n + 1 && s < n && block[s] != EMPTY
    requires DistinctTags(Tags(Tagged(block, ring)))
    ensures forall t :: 0 <= t < n && t != s ==> block[t] != block[s]
  {
    RingCovers(ring, n, s);
    var i :| 0 <= i < n && ring[i] == s;
    var tags := Tags(Tagged(block, ring));
    assert tags[i] == block[s];
    forall t | 0 <= t < n && t != s ensures block[t] != block[s] {
      RingCovers(ring, n, t);
      var j :| 0 <= j < n && ring[j] == t;
      assert tags[j] == block[t];
    }
  }

  // ----- the same accesses without a cache -----

  /** A client requests a block, to read it or to change it and write it at once; or it reads or
      changes and writes what the slot that it got last for a block holds now. */
  datatype Access =
    | Get(b: nat)
    | Put(b: nat, off: nat, part: seq<Byte>)
    | HeldGet(b: nat)
    | HeldPut(b: nat, off: nat, part: seq<Byte>)

  predicate Holding(op: Access) { op.HeldGet? || op.HeldPut? }

  predicate Reads(op: Access) { op.Get? || op.HeldGet? }

  predicate InBounds(op: Access, n: nat, size: nat) {
    op.b < n && (op.Put? || op.HeldPut? ==> op.off + |op.part| <= size)
  }

  /** The blocks requested. */
  function Trace(ops: seq<Access>): seq<int>
    decreases |ops|
  {
    if ops == [] then []
    else
      var op := ops[|ops| - 1];
      Trace(ops[..|ops| - 1]) + (if Holding(op) then [] else [op.b])
  }

  lemma NoTrace()
    ensures Trace([]) == []
  {}

  /** Block b has been requested, and fewer than n others since. */
  ghost predicate StillHeld(before: seq<Access>, b: int, n: nat) {
    b in Trace(before) && |BlocksIn(UsedSince(Trace(before), b))| < n
  }

  function DirectStep(disk: Blocks, op: Access, size: nat): Blocks {
    if (op.Put? || op.HeldPut?) && InBounds(op, |disk|, size) && |disk[op.b]| == size
    then disk[op.b := Splice(disk[op.b], op.off, op.part)] else disk
  }

  function DirectDisk(disk: Blocks, ops: seq<Access>, size: nat): (r: Blocks)
    ensures |r| == |disk|
    decreases |ops|
  {
    if ops == [] then disk
    else DirectStep(DirectDisk(disk, ops[..|ops| - 1], size), ops[|ops| - 1], size)
  }

  function DirectReads(disk: Blocks, ops: seq<Access>, size: nat): seq<seq<Byte>>
    decreases |ops|
  {
    if ops == [] then []
    else
      var before, op := ops[..|ops| - 1], ops[|ops| - 1];
      DirectReads(disk, before, size)
      + (if Reads(op) && op.b < |disk| then [DirectDisk(disk, before, size)[op.b]] else [])
  }

  /** The access stores to byte x of block b. */
  predicate Covers(op: Access, b: nat, x: nat) {
    (op.Put? || op.HeldPut?) && op.b == b && op.off <= x < op.off + |op.part|
  }

  /** Without a cache, a byte is what the last store to it made it, or, if there was none (k is -1), what
      it was. */
  lemma {:induction false} LastStoreStays(disk: Blocks, ops: seq<Access>, size: nat, b: nat, x: nat, k: int)
    requires OnDisk(disk, size) && b < |disk| && x < size && -1 <= k < |ops|
    requires forall j :: 0 <= j < |ops| ==> InBounds(ops[j], |disk|, size)
    requires k >= 0 ==> Covers(ops[k], b, x)
    requires forall j :: k < j < |ops| ==> !Covers(ops[j], b, x)
    ensures OnDisk(DirectDisk(disk, ops, size), size)
    ensures DirectDisk(disk, ops, size)[b][x] == if k >= 0 then ops[k].part[x - ops[k].off] else disk[b][x]
    decreases |ops|
  {
    if ops != [] {
      var n := |ops| - 1;
      DirectStays(disk, ops[..n], size);
      if k < n { LastStoreStays(disk, ops[..n], size, b, x, k); }
      StepByte(DirectDisk(disk, ops[..n], size), ops[n], size, b, x);
    }
  }

  lemma StepByte(disk: Blocks, op: Access, size: nat, b: nat, x: nat)
    requires OnDisk(disk, size) && InBounds(op, |disk|, size) && b < |disk| && x < size
    ensures OnDisk(DirectStep(disk, op, size), size)
    ensures DirectStep(disk, op, size)[b][x] == if Covers(op, b, x) then op.part[x - op.off] else disk[b][x]
  {}

  lemma {:induction false} DirectStays(disk: Blocks, ops: seq<Access>, size: nat)
    requires OnDisk(disk, size) && forall j :: 0 <= j < |ops| ==> InBounds(ops[j], |disk|, size)
    ensures OnDisk(DirectDisk(disk, ops, size), size)
    decreases |ops|
  {
    if ops != [] { DirectStays(disk, ops[..|ops| - 1], size); }
  }

  /** Each read gives the block as it is then. */
  lemma {:induction false} ReadGives(disk: Blocks, ops: seq<Access>, size: nat, k: nat)
    requires k < |ops| && ops[k].b < |disk| && forall j :: 0 <= j < |ops| ==> InBounds(ops[j], |disk|, size)
    ensures var got, before := DirectReads(disk, ops, size), DirectReads(disk, ops[..k], size);
      && before <= got
      && (Reads(ops[k]) ==> |before| < |got| && got[|before|] == DirectDisk(disk, ops[..k], size)[ops[k].b])
      && (k == |ops| - 1 ==> |got| == |before| + if Reads(ops[k]) then 1 else 0)
    decreases |ops|
  {
    var n := |ops| - 1;
    if k < n {
      ReadGives(disk, ops[..n], size, k);
      assert ops[..n][..k] == ops[..k];
    }
  }

  // ----- slots in hand -----

  /** Of each block requested, the client has the slot it got last; that still has the block while
      fewer others have been requested than there are slots. */
  ghost predicate InHand(es: seq<Entry<int>>, slot: map<int, int>, trace: seq<int>) {
    && EMPTY !in trace
    && (forall b :: b in trace ==> b in slot)
    && forall b :: b in trace ==>
         (|BlocksIn(UsedSince(trace, b))| < |es| ==> Pinned(es, slot[b], b, BlocksIn(UsedSince(trace, b))))
  }

  lemma NothingInHand(es: seq<Entry<int>>)
    ensures InHand(es, map[], [])
  {}

  /** A request adds to what was requested since every other block, and hands out its own slot. */
  lemma TouchInHand(es: seq<Entry<int>>, slot: map<int, int>, trace: seq<int>, c: int, cs: int)
    requires InHand(es, slot, trace) && DistinctTags(Tags(es)) && c != EMPTY
    requires |es| > 0 && |Touch(es, c)| == |es| && Touch(es, c)[|es| - 1] == Entry(cs, c)
    ensures InHand(Touch(es, c), slot[c := cs], trace + [c])
  {
    hide Touch, DistinctTags, Lists;
    var now, slot', trace' := Touch(es, c), slot[c := cs], trace + [c];
    assert trace'[..|trace|] == trace;
    forall b | b in trace'
      ensures b in slot' &&
        (|BlocksIn(UsedSince(trace', b))| < |now| ==> Pinned(now, slot'[b], b, BlocksIn(UsedSince(trace', b))))
    {
      if b == c {
        assert UsedSince(trace', b) == [];
        JustTouched(now, cs, c);
      } else {
        var since := BlocksIn(UsedSince(trace, b));
        assert UsedSince(trace', b) == UsedSince(trace, b) + [c];
        assert BlocksIn(UsedSince(trace', b)) == since + {c};
        if |since + {c}| < |es| {
          FewerBlocks(since, c);
          PinnedOneMore(es, slot[b], b, since, c);
        }
      }
    }
  }

  lemma FewerBlocks(since: set<int>, c: int)
    ensures |since| <= |since + {c}|
  {
    if c in since { assert since + {c} == since; }
  }

  lemma JustTouched(es: seq<Entry<int>>, s: int, b: int)
    requires |es| > 0 && es[|es| - 1] == Entry(s, b)
    ensures Pinned(es, s, b, {})
  {
    assert UsedSince(Tags(es), b) == [];
  }

  /** The slot in hand. */
  lemma SlotInHand(block: seq<int>, ring: seq<int>, slot: map<int, int>, before: seq<Access>, b: int, n: nat)
    requires InHand(Tagged(block, ring), slot, Trace(before)) && StillHeld(before, b, n)
    requires |ring| == n && |block| == n + 1 && forall i :: 0 <= i < n ==> 0 <= ring[i] < n
    ensures b in slot && 0 <= slot[b] < n && block[slot[b]] == b
  {
    var es := Tagged(block, ring);
    var i :| 0 <= i < |es| && es[i] == Entry(slot[b], b);
  }
}
