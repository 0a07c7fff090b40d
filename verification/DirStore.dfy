/** How stores into single blocks show in the slots of the whole directory. */
module DirStore {
  import opened Bytes
  import opened Directory
  import opened DirEntries
  import opened Contents

  /** The slots in the first n blocks. */
  function DirSlots(disk: seq<Block>, data: seq<int>, n: nat): seq<Slot>
    requires Mapped(disk, data, n)
  {
    Slots(Content(disk, data, n))
  }

  /** Slots per block. */
  predicate Per(size: nat, per: nat) { size == ENTRY * per && per > 0 }

  /** Slot j of block k, counted from the start of the directory. */
  function Pos(k: nat, per: nat, j: nat): nat { k * per + j }

  lemma PosSteps(k: nat, per: nat, j: nat)
    ensures Pos(k, per, per) == Pos(k + 1, per, 0) && Pos(k, per, j) + 1 == Pos(k, per, j + 1)
    ensures Pos(0, per, 0) == 0
  {}

  lemma Scaled(size: nat, per: nat, k: nat, n: nat)
    requires Per(size, per) && k < n
    ensures k * size == ENTRY * (k * per) && n * size == ENTRY * (n * per) && k * per + per <= n * per
  {
    assert k * size == k * ENTRY * per;
    assert n * size == n * ENTRY * per;
    assert (k + 1) * per <= n * per;
  }

  lemma SlotsLength(disk: seq<Block>, size: nat, per: nat, data: seq<int>, n: nat)
    requires BlocksOf(disk, size) && Mapped(disk, data, n) && Per(size, per)
    ensures |DirSlots(disk, data, n)| == n * per
  {
    ContentLength(disk, size, data, n);
    Scaled(size, per, 0, n + 1);
    assert n * size == n * ENTRY * per;
  }

  /** Slot j of block k is slot Pos(k, per, j) of the directory. */
  lemma SlotPlace(disk: seq<Block>, size: nat, per: nat, data: seq<int>, n: nat, k: nat, j: nat)
    requires BlocksOf(disk, size) && Mapped(disk, data, n) && Per(size, per) && k < n && j < per
    ensures Pos(k, per, j) < n * per == |DirSlots(disk, data, n)|
    ensures DirSlots(disk, data, n)[Pos(k, per, j)] == SlotAt(disk[data[k]], j)
  {
    hide Content, SlotAt;
    SlotsLength(disk, size, per, data, n);
    ContentBlock(disk, size, data, n, k);
    Scaled(size, per, k, n);
    var c, block, t := Content(disk, data, n), disk[data[k]], Pos(k, per, j);
    SubSlice(c, k * size, size, ENTRY * j, ENTRY);
    SameSlot(c, t, block, j);
  }

  /** What a scan sees there, and that tfs_match_entry then decides by name. */
  lemma SlotSeen(disk: seq<Block>, size: nat, per: nat, data: seq<int>, n: nat, k: nat, j: nat, name: Name)
    requires BlocksOf(disk, size) && Mapped(disk, data, n) && Per(size, per) && k < n && j < per
    ensures ENTRY * j + ENTRY <= size == |disk[data[k]]| && Pos(k, per, j) < |DirSlots(disk, data, n)|
    ensures DirSlots(disk, data, n)[Pos(k, per, j)].ino == Le32(InoBytes(disk[data[k]], j))
    ensures |name| <= NAME_LEN && CString(name) ==>
      (MatchEntry(name, Le32(InoBytes(disk[data[k]], j)), disk[data[k]][ENTRY * j + 4..]) <==>
       Has(DirSlots(disk, data, n), Pos(k, per, j), name))
  {
    SlotPlace(disk, size, per, data, n, k, j);
    var block := disk[data[k]];
    var tail := block[ENTRY * j + 4..];
    assert RawName(block, j) == tail[..NAME_LEN];
    if |name| <= NAME_LEN && CString(name) {
      MatchIsExact(name, SlotAt(block, j).ino, tail);
    }
  }

  // ----- what find_entry finds -----

  /** Where find_entry points: slot j of block k of the directory. */
  datatype Place = NotFound | At(k: nat, j: nat)

  /** tfs_match_entry on slot j of a block. */
  predicate Hit(block: Block, j: nat, name: Name)
    requires ENTRY * j + ENTRY <= |block|
  {
    MatchEntry(name, Le32(InoBytes(block, j)), block[ENTRY * j + 4..])
  }

  /** The first hit from slot j of block k on. */
  function Seek(disk: seq<Block>, size: nat, per: nat, data: seq<int>, n: nat, name: Name, k: nat, j: nat): (r: Place)
    requires BlocksOf(disk, size) && Mapped(disk, data, n) && Per(size, per) && j <= per
    ensures r.At? ==> k <= r.k < n && r.j < per && Hit(disk[data[r.k]], r.j, name)
    decreases n - k, per - j
  {
    if k >= n then NotFound
    else if j == per then Seek(disk, size, per, data, n, name, k + 1, 0)
    else if Hit(disk[data[k]], j, name) then At(k, j)
    else Seek(disk, size, per, data, n, name, k, j + 1)
  }

  /** The name under which the directory lists what find_entry finds for this one.  Only a name longer
      than an entry can hold is ever taken for another. */
  function Spelled(disk: seq<Block>, size: nat, per: nat, data: seq<int>, n: nat, name: Name): Name {
    if BlocksOf(disk, size) && Mapped(disk, data, n) && Per(size, per) then
      match Seek(disk, size, per, data, n, name, 0, 0)
      case NotFound => name
      case At(k, j) => SlotAt(disk[data[k]], j).name
    else name
  }

  lemma {:induction false} SeekMisses(disk: seq<Block>, size: nat, per: nat, data: seq<int>, n: nat, name: Name,
                                      k: nat, j: nat)
    requires BlocksOf(disk, size) && Mapped(disk, data, n) && Per(size, per) && j <= per
    requires Seek(disk, size, per, data, n, name, k, j) == NotFound && |name| <= NAME_LEN && CString(name)
    ensures forall u :: Pos(k, per, j) <= u < |DirSlots(disk, data, n)| ==> !Has(DirSlots(disk, data, n), u, name)
    decreases n - k, per - j
  {
    hide DirSlots, Hit, MatchEntry, Pos;
    SlotsLength(disk, size, per, data, n);
    if k >= n {
      PosBeyond(n, k, per, j);
    } else if j == per {
      PosSteps(k, per, j);
      SeekMisses(disk, size, per, data, n, name, k + 1, 0);
    } else {
      PosSteps(k, per, j);
      HitIsHas(disk, size, per, data, n, name, k, j);
      SeekMisses(disk, size, per, data, n, name, k, j + 1);
    }
  }

  lemma HitIsHas(disk: seq<Block>, size: nat, per: nat, data: seq<int>, n: nat, name: Name, k: nat, j: nat)
    requires BlocksOf(disk, size) && Mapped(disk, data, n) && Per(size, per) && k < n && j < per
    ensures Pos(k, per, j) < |DirSlots(disk, data, n)|
    ensures Hit(disk[data[k]], j, name) ==>
      Has(DirSlots(disk, data, n), Pos(k, per, j), SlotAt(disk[data[k]], j).name)
    ensures |name| <= NAME_LEN && CString(name) ==>
      (Hit(disk[data[k]], j, name) <==> Has(DirSlots(disk, data, n), Pos(k, per, j), name))
  {
    SlotSeen(disk, size, per, data, n, k, j, name);
    SlotPlace(disk, size, per, data, n, k, j);
  }

  lemma NamesAreShort(disk: seq<Block>, data: seq<int>, n: nat, u: nat, name: Name)
    requires Mapped(disk, data, n) && Has(DirSlots(disk, data, n), u, name)
    ensures |name| <= NAME_LEN
  {}

  /** What find_entry finds is an entry under the spelled name; it finds none exactly if there is none
      under that name. */
  lemma SeekFinds(disk: seq<Block>, size: nat, per: nat, data: seq<int>, n: nat, name: Name)
    requires BlocksOf(disk, size) && Mapped(disk, data, n) && Per(size, per) && CString(name)
    ensures var r, d, known := Seek(disk, size, per, data, n, name, 0, 0), DirSlots(disk, data, n),
        Spelled(disk, size, per, data, n, name);
      && (r.NotFound? <==> known !in Listing(d))
      && (r.At? ==> Has(d, Pos(r.k, per, r.j), known))
      && (|name| <= NAME_LEN || r.NotFound? ==> known == name)
  {
    hide DirSlots, Hit, MatchEntry, Listing, SlotAt;
    var r, d := Seek(disk, size, per, data, n, name, 0, 0), DirSlots(disk, data, n);
    var known := Spelled(disk, size, per, data, n, name);
    Listed(d, known);
    PosSteps(0, per, 0);
    match r {
      case At(k, j) =>
        HitIsHas(disk, size, per, data, n, name, k, j);
      case NotFound =>
        forall u | Has(d, u, name) ensures false {
          NamesAreShort(disk, data, n, u, name);
          SeekMisses(disk, size, per, data, n, name, 0, 0);
        }
    }
  }

  lemma PosBeyond(n: nat, k: nat, per: nat, j: nat)
    requires k >= n
    ensures Pos(k, per, j) >= Pos(n, per, 0) == n * per
  {}

  /** Part of one block is overwritten. */
  lemma PartStored(disk: seq<Block>, size: nat, data: seq<int>, n: nat, k: nat, o: nat, part: seq<Byte>)
    requires BlocksOf(disk, size) && Mapped(disk, data, n) && Apart(data, n) && k < n && o + |part| <= size
    ensures 0 <= k * size + o <= |Content(disk, data, n)| - |part|
    ensures Content(disk[data[k] := Splice(disk[data[k]], o, part)], data, n) ==
      Splice(Content(disk, data, n), k * size + o, part)
  {
    var x := Splice(disk[data[k]], o, part);
    ContentBlock(disk, size, data, n, k);
    ContentStore(disk, size, data, n, k, x);
    NestedSplice(Content(disk, data, n), k * size, disk[data[k]], o, part);
  }

  lemma NestedSplice(c: seq<Byte>, at: nat, block: seq<Byte>, o: nat, part: seq<Byte>)
    requires at + |block| <= |c| && c[at..at + |block|] == block && o + |part| <= |block|
    ensures Splice(c, at, Splice(block, o, part)) == Splice(c, at + o, part)
  {}

  lemma EntryStored(disk: seq<Block>, size: nat, per: nat, data: seq<int>, n: nat, k: nat, j: nat, e: seq<Byte>)
    requires BlocksOf(disk, size) && Mapped(disk, data, n) && Apart(data, n) && Per(size, per)
    requires k < n && j < per && |e| == ENTRY
    ensures Pos(k, per, j) < |DirSlots(disk, data, n)|
    ensures DirSlots(disk[data[k] := Splice(disk[data[k]], ENTRY * j, e)], data, n) ==
      DirSlots(disk, data, n)[Pos(k, per, j) := SlotAt(e, 0)]
  {
    hide Splice, SlotAt;
    SlotPlace(disk, size, per, data, n, k, j);
    PartStored(disk, size, data, n, k, ENTRY * j, e);
    Scaled(size, per, k, n);
    SlotStored(Content(disk, data, n), Pos(k, per, j), e);
  }

  lemma EntryZeroed(disk: seq<Block>, size: nat, per: nat, data: seq<int>, n: nat, k: nat, j: nat)
    requires BlocksOf(disk, size) && Mapped(disk, data, n) && Apart(data, n) && Per(size, per)
    requires k < n && j < per
    ensures Pos(k, per, j) < |DirSlots(disk, data, n)|
    ensures var d := DirSlots(disk, data, n);
      DirSlots(disk[data[k] := Splice(disk[data[k]], ENTRY * j, Le32Bytes(0))], data, n) ==
      d[Pos(k, per, j) := Slot(0, d[Pos(k, per, j)].name)]
  {
    hide Splice, SlotAt;
    SlotPlace(disk, size, per, data, n, k, j);
    PartStored(disk, size, data, n, k, ENTRY * j, Le32Bytes(0));
    Scaled(size, per, k, n);
    SlotZeroed(Content(disk, data, n), Pos(k, per, j));
  }

  // ----- the slot that add_entry takes -----

  function FreeSlots(n: nat): seq<Slot> { seq(n, _ => Slot(0, [])) }

  function FirstFree(d: seq<Slot>): (s: nat)
    ensures s <= |d| && (s < |d| ==> d[s].ino == 0)
    ensures forall t :: 0 <= t < s ==> d[t].ino != 0
  {
    if d == [] || d[0].ino == 0 then 0 else 1 + FirstFree(d[1..])
  }

  lemma FirstFreeIs(d: seq<Slot>, s: nat)
    requires s <= |d| && (s < |d| ==> d[s].ino == 0) && forall t :: 0 <= t < s ==> d[t].ino != 0
    ensures FirstFree(d) == s
  {}

  /** The first free slot, or the first of a new block. */
  function AddSlot(d: seq<Slot>, e: Slot, per: nat): seq<Slot>
    requires per > 0
  {
    if FirstFree(d) < |d| then d[FirstFree(d) := e] else d + [e] + FreeSlots(per - 1)
  }

  lemma AddSlotLists(d: seq<Slot>, e: Slot, per: nat)
    requires Distinct(d) && per > 0 && e.ino != 0 && e.name !in Listing(d)
    ensures var t := AddSlot(d, e, per);
      Distinct(t) && Listing(t) == Listing(d)[e.name := e.ino] && Entries(t) == Entries(d) + 1
  {
    if FirstFree(d) < |d| {
      SlotTaken(d, FirstFree(d), e);
    } else {
      var more := FreeSlots(per);
      FreeSlotsAdded(d, more);
      SlotTaken(d + more, |d|, e);
      assert (d + more)[|d| := e] == d + [e] + FreeSlots(per - 1);
    }
  }

  /** A new block, cleared and with an entry in front, at the end of the directory. */
  lemma BlockAdded(disk: seq<Block>, size: nat, per: nat, data: seq<int>, n: nat, b: nat, e: seq<Byte>)
    requires BlocksOf(disk, size) && Mapped(disk, data, n) && Per(size, per) && n < |data|
    requires b < |disk| && |e| == ENTRY && b !in data[..n]
    ensures var disk', data' := disk[b := Splice(Nulls(size), 0, e)], data[n := b];
      DirSlots(disk', data', n + 1) == DirSlots(disk, data, n) + [SlotAt(e, 0)] + FreeSlots(per - 1)
  {
    hide Splice, SlotAt;
    var x := Splice(Nulls(size), 0, e);
    var disk', data' := disk[b := x], data[n := b];
    assert forall k :: 0 <= k < n ==> data[..n][k] == data[k];
    ContentFrame(disk, disk', data, data', n);
    ContentLength(disk, size, data, n);
    Scaled(size, per, n, n + 1);
    SlotsJoin(Content(disk, data, n), x);
    NullsAreFree(size, per);
    SlotStored(Nulls(size), 0, e);
    assert FreeSlots(per)[0 := SlotAt(e, 0)] == [SlotAt(e, 0)] + FreeSlots(per - 1);
  }

  lemma NullsAreFree(size: nat, per: nat)
    requires Per(size, per)
    ensures Slots(Nulls(size)) == FreeSlots(per)
  {}
}
