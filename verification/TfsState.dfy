/** A volume with its data blocks, and what every operation on it keeps. */
module TfsState {
  import opened Bytes
  import opened Ownership
  import opened Directory
  import opened DirEntries
  import opened Contents
  import opened DirStore

  const FILE := 1
  const DIR := 2

  datatype State = State(v: Vol, disk: seq<Block>)

  predicate Fits(s: State, size: nat) {
    |s.disk| == s.v.count && BlocksOf(s.disk, size)
  }

  function Data(s: State, i: int): seq<int>
    requires 0 <= i < |s.v.nodes|
  {
    s.v.nodes[i].data
  }

  /** The pointers of a live inode name different blocks of the volume. */
  lemma PointersGood(s: State, size: nat, i: nat)
    requires Fits(s, size) && Sound(s.v) && Live(s.v, i)
    ensures Mapped(s.disk, Data(s, i), Run(Data(s, i))) && Apart(Data(s, i), Run(Data(s, i)))
  {
    var data := Data(s, i);
    forall k | 0 <= k < Run(data) ensures 0 <= data[k] < |s.disk| {
      assert Points(s.v, i, k, data[k]);
    }
    forall k, l | 0 <= k < l < Run(data) ensures data[k] != data[l] {
      assert Points(s.v, i, k, data[k]) && Points(s.v, i, l, data[l]);
    }
  }

  ghost predicate DirOk(s: State, i: int)
    requires 0 <= i < |s.v.nodes|
  {
    var data := Data(s, i);
    && Prefix(data) && Mapped(s.disk, data, Run(data))
    && var d := DirSlots(s.disk, data, Run(data));
    && Distinct(d) && s.v.nodes[i].size == ENTRY * Entries(d)
  }

  predicate IsDir(s: State, i: int) { Live(s.v, i) && s.v.nodes[i].mode == DIR }

  /** Ownership is sound, and every directory has distinct names and the size of its entries. */
  ghost predicate Good(s: State, size: nat) {
    && Fits(s, size) && Sound(s.v)
    && forall i :: IsDir(s, i) ==> DirOk(s, i)
  }

  /** Everything but inode i is as it was: the other inodes and the bytes of their blocks. */
  ghost predicate Untouched(s: State, s': State, i: int) {
    && |s.v.nodes| == |s'.v.nodes| && |s.disk| == |s'.disk|
    && (forall j :: j != i ==> (Live(s.v, j) <==> Live(s'.v, j)))
    && (forall j :: j != i && Live(s.v, j) ==> SameFile(s, s', j))
  }

  ghost predicate SameFile(s: State, s': State, j: int)
    requires 0 <= j < |s.v.nodes| && |s.v.nodes| == |s'.v.nodes| && |s.disk| == |s'.disk|
  {
    && s'.v.nodes[j] == s.v.nodes[j]
    && forall k :: 0 <= k < Run(Data(s, j)) && 0 <= Data(s, j)[k] < |s.disk| ==>
      s'.disk[Data(s, j)[k]] == s.disk[Data(s, j)[k]]
  }

  /** What a step on inode i must show to leave everything else good: it stored only into blocks
      that are its own afterwards, or that nobody owned. */
  lemma Elsewhere(s: State, s': State, size: nat, i: nat, stored: seq<int>)
    requires Fits(s, size) && Sound(s.v) && Fits(s', size) && s'.v.count == s.v.count
    requires i < |s.v.nodes| == |s'.v.nodes|
    requires forall j :: j != i && 0 <= j < |s.v.nodes| ==>
      (Live(s'.v, j) <==> Live(s.v, j)) && s'.v.nodes[j] == s.v.nodes[j]
    requires forall b :: 0 <= b < |s.disk| && b !in stored ==> s'.disk[b] == s.disk[b]
    requires forall j, k, b :: Points(s.v, j, k, b) && b != 0 && b in stored ==> j == i
    ensures Untouched(s, s', i)
  {
    forall j, k | j != i && Live(s.v, j) && 0 <= k < Run(Data(s, j)) ensures Data(s, j)[k] !in stored {
      assert Points(s.v, j, k, Data(s, j)[k]);
    }
  }

  lemma SameDir(s: State, s': State, size: nat, j: nat)
    requires Fits(s, size) && Fits(s', size) && Sound(s.v) && s'.v.count == s.v.count
    requires |s.v.nodes| == |s'.v.nodes| && Live(s.v, j) && SameFile(s, s', j) && DirOk(s, j)
    ensures DirOk(s', j)
  {
    PointersGood(s, size, j);
    var data := Data(s, j);
    ContentFrame(s.disk, s'.disk, data, data, Run(data));
  }

  /** Then all directories are good if inode i is. */
  lemma GoodStep(s: State, s': State, size: nat, i: nat)
    requires Good(s, size) && Fits(s', size) && Sound(s'.v) && s'.v.count == s.v.count
    requires Untouched(s, s', i) && i < |s.v.nodes|
    requires IsDir(s', i) ==> DirOk(s', i)
    ensures Good(s', size)
  {
    forall j | IsDir(s', j) ensures DirOk(s', j) {
      if j != i {
        assert IsDir(s, j);
        SameDir(s, s', size, j);
      }
    }
  }

  // ----- adding an entry -----

  function Slotted(s: State, i: int): seq<Slot> {
    if 0 <= i < |s.v.nodes| && Mapped(s.disk, Data(s, i), Run(Data(s, i)))
    then DirSlots(s.disk, Data(s, i), Run(Data(s, i))) else []
  }

  /** The names in a directory and the inode numbers they lead to. */
  function Names(s: State, i: int): map<Name, nat> { Listing(Slotted(s, i)) }

  /** The inode, as an index, that a name leads to. */
  function Target(s: State, i: int, name: Name): int
    requires name in Names(s, i)
  {
    Names(s, i)[name] as int - 1
  }

  function Sized(s: State, i: nat, size: int): State
    requires i < |s.v.nodes|
  {
    s.(v := Resized(s.v, i, s.v.nodes[i].mode, size))
  }

  /** A store into one of the inode's own blocks. */
  lemma OwnStore(s: State, size: nat, i: nat, k: nat, x: Block, n: int)
    requires Good(s, size) && Live(s.v, i) && k < Run(Data(s, i)) && |x| == size
    ensures 0 <= Data(s, i)[k] < |s.disk|
    ensures var s' := Sized(s.(disk := s.disk[Data(s, i)[k] := x]), i, n);
      Fits(s', size) && Sound(s'.v) && Untouched(s, s', i) && (Tight(s.v) ==> Tight(s'.v))
  {
    PointersGood(s, size, i);
    var b := Data(s, i)[k];
    var s' := Sized(s.(disk := s.disk[b := x]), i, n);
    ResizeStep(s.v, i, s.v.nodes[i].mode, n);
    assert Points(s.v, i, k, b);
    Elsewhere(s, s', size, i, [b]);
  }

  /** Into a free slot of block k. */
  function AddedHere(s: State, i: nat, k: nat, j: nat, e: seq<Byte>): State
    requires i < |s.v.nodes| && k < |Data(s, i)| && 0 <= Data(s, i)[k] < |s.disk|
    requires ENTRY * j + |e| <= |s.disk[Data(s, i)[k]]|
  {
    var b := Data(s, i)[k];
    Sized(s.(disk := s.disk[b := Splice(s.disk[b], ENTRY * j, e)]), i, s.v.nodes[i].size + ENTRY)
  }

  lemma AddHere(s: State, size: nat, per: nat, i: nat, k: nat, j: nat, ino: nat, name: Name)
    requires Good(s, size) && IsDir(s, i) && Per(size, per)
    requires 0 < ino < WORD && |name| <= NAME_LEN && CString(name)
    requires k < Run(Data(s, i)) && j < per
    requires Mapped(s.disk, Data(s, i), Run(Data(s, i))) && name !in Listing(Slotted(s, i))
    requires FirstFree(Slotted(s, i)) == Pos(k, per, j) < |Slotted(s, i)|
    ensures var s' := AddedHere(s, i, k, j, EntryBytes(ino, name));
      && Good(s', size) && Untouched(s, s', i) && (Tight(s.v) ==> Tight(s'.v))
      && Slotted(s', i) == AddSlot(Slotted(s, i), Slot(ino, name), per)
      && Listing(Slotted(s', i)) == Listing(Slotted(s, i))[name := ino]
  {
    hide Splice, SlotAt, EntryBytes, AddSlot, Untouched, PointersUsed, Unshared, Tight;
    PointersGood(s, size, i);
    var e := EntryBytes(ino, name);
    var data, b := Data(s, i), Data(s, i)[k];
    var s' := AddedHere(s, i, k, j, e);
    OwnStore(s, size, i, k, Splice(s.disk[b], ENTRY * j, e), s.v.nodes[i].size + ENTRY);
    EntryStored(s.disk, size, per, data, Run(data), k, j, e);
    EntryReads(ino, name);
    AddSlotInPlace(Slotted(s, i), Slot(ino, name), per);
    AddSlotLists(Slotted(s, i), Slot(ino, name), per);
    GoodStep(s, s', size, i);
  }

  lemma AddSlotInPlace(d: seq<Slot>, e: Slot, per: nat)
    requires FirstFree(d) < |d| && per > 0
    ensures AddSlot(d, e, per) == d[FirstFree(d) := e]
  {}

  /** Into a new block. */
  function AddedThere(s: State, i: nat, b: nat, e: seq<Byte>, size: nat): State
    requires i < |s.v.nodes| && Run(Data(s, i)) < |Data(s, i)| && b < |s.disk| && b < |s.v.used| && |e| <= size
  {
    var grown := s.(v := WithPointer(Ownership.Taken(s.v, b), i, Run(Data(s, i)), b));
    Sized(grown.(disk := s.disk[b := Splice(Nulls(size), 0, e)]), i, s.v.nodes[i].size + ENTRY)
  }

  lemma RunGrows(data: seq<int>, b: int)
    requires Prefix(data) && Run(data) < |data| && b != 0
    ensures Prefix(data[Run(data) := b]) && Run(data[Run(data) := b]) == Run(data) + 1
  {
    RunIs(data[Run(data) := b], Run(data) + 1);
  }

  lemma {:induction false} RunIs(data: seq<int>, n: nat)
    requires n <= |data| && (n < |data| ==> data[n] == 0) && forall k :: 0 <= k < n ==> data[k] != 0
    ensures Run(data) == n
  {}

  lemma AddThereOwns(s: State, size: nat, i: nat, b: nat, e: seq<Byte>)
    requires Good(s, size) && IsDir(s, i) && |e| <= size
    requires Run(Data(s, i)) < N_BLOCKS && b < |s.v.used| && !s.v.used[b]
    ensures b < |s.disk| && b != 0
    ensures forall j, k :: !Points(s.v, j, k, b)
    ensures var s' := AddedThere(s, i, b, e, size);
      Fits(s', size) && Sound(s'.v) && (Tight(s.v) ==> Tight(s'.v))
  {
    hide Splice;
    assert InArea(s.v, b);
    var n := Run(Data(s, i));
    TakeStep(s.v, i, n, b);
    ResizeStep(WithPointer(Ownership.Taken(s.v, b), i, n, b), i, s.v.nodes[i].mode, s.v.nodes[i].size + ENTRY);
  }

  lemma AddThereDir(s: State, size: nat, per: nat, i: nat, b: nat, ino: nat, name: Name)
    requires Good(s, size) && IsDir(s, i) && Per(size, per)
    requires 0 < ino < WORD && |name| <= NAME_LEN && CString(name)
    requires Run(Data(s, i)) < N_BLOCKS && 0 < b < |s.v.used| && b < |s.disk| && forall j, k :: !Points(s.v, j, k, b)
    requires Mapped(s.disk, Data(s, i), Run(Data(s, i))) && name !in Listing(Slotted(s, i))
    requires FirstFree(Slotted(s, i)) == |Slotted(s, i)|
    ensures var s' := AddedThere(s, i, b, EntryBytes(ino, name), size);
      && |s'.v.nodes| == |s.v.nodes| && DirOk(s', i)
      && Slotted(s', i) == AddSlot(Slotted(s, i), Slot(ino, name), per)
      && Listing(Slotted(s', i)) == Listing(Slotted(s, i))[name := ino]
  {
    hide Splice, SlotAt, EntryBytes, AddSlot, Listing, Distinct, Entries, PointersUsed, Unshared;
    var data, n := Data(s, i), Run(Data(s, i));
    RunGrows(data, b);
    assert forall k :: 0 <= k < n ==> Points(s.v, i, k, data[..n][k]);
    BlockAdded(s.disk, size, per, data, n, b, EntryBytes(ino, name));
    EntryReads(ino, name);
    AddSlotAtEnd(Slotted(s, i), Slot(ino, name), per);
    AddSlotLists(Slotted(s, i), Slot(ino, name), per);
  }

  lemma AddThere(s: State, size: nat, per: nat, i: nat, b: nat, ino: nat, name: Name)
    requires Good(s, size) && IsDir(s, i) && Per(size, per)
    requires 0 < ino < WORD && |name| <= NAME_LEN && CString(name)
    requires Run(Data(s, i)) < N_BLOCKS && b < |s.v.used| && !s.v.used[b]
    requires Mapped(s.disk, Data(s, i), Run(Data(s, i))) && name !in Listing(Slotted(s, i))
    requires FirstFree(Slotted(s, i)) == |Slotted(s, i)|
    ensures b < |s.disk| && b != 0
    ensures var s' := AddedThere(s, i, b, EntryBytes(ino, name), size);
      && Good(s', size) && Untouched(s, s', i) && (Tight(s.v) ==> Tight(s'.v))
      && Slotted(s', i) == AddSlot(Slotted(s, i), Slot(ino, name), per)
      && Listing(Slotted(s', i)) == Listing(Slotted(s, i))[name := ino]
  {
    hide Splice, SlotAt, EntryBytes, AddSlot, Slotted, DirOk, FirstFree;
    var s' := AddedThere(s, i, b, EntryBytes(ino, name), size);
    AddThereOwns(s, size, i, b, EntryBytes(ino, name));
    AddThereDir(s, size, per, i, b, ino, name);
    Elsewhere(s, s', size, i, [b]);
    GoodStep(s, s', size, i);
  }

  lemma AddSlotAtEnd(d: seq<Slot>, e: Slot, per: nat)
    requires FirstFree(d) == |d| && per > 0
    ensures AddSlot(d, e, per) == d + [e] + FreeSlots(per - 1)
  {}

  lemma SlotsSame(s: State, s': State, i: int)
    requires s.disk == s'.disk && s.v.nodes == s'.v.nodes
    ensures Slotted(s', i) == Slotted(s, i)
  {}

  lemma LeakGood(s: State, size: nat, b: nat)
    requires Good(s, size) && b < |s.v.used| && !s.v.used[b]
    ensures var s' := s.(v := Ownership.Taken(s.v, b)); Good(s', size) && !Tight(s'.v)
  {
    var s' := s.(v := Ownership.Taken(s.v, b));
    LeakStep(s.v, b);
    forall j | IsDir(s', j) ensures DirOk(s', j) {
      assert IsDir(s, j);
    }
  }

  lemma AstrayGood(s: State, size: nat, i: nat, k: nat, b: int)
    requires Good(s, size) && Live(s.v, i) && k < N_BLOCKS && b >= |s.v.used|
    ensures Reserved(WithPointer(s.v, i, k, b)) && !Sound(WithPointer(s.v, i, k, b))
  {
    AstrayStep(s.v, i, k, b);
  }

  // ----- removing an entry -----

  function RemovedHere(s: State, i: nat, k: nat, j: nat): State
    requires i < |s.v.nodes| && k < |Data(s, i)| && 0 <= Data(s, i)[k] < |s.disk|
    requires ENTRY * j + 4 <= |s.disk[Data(s, i)[k]]|
  {
    var b := Data(s, i)[k];
    Sized(s.(disk := s.disk[b := Splice(s.disk[b], ENTRY * j, Le32Bytes(0))]), i, s.v.nodes[i].size - ENTRY)
  }

  lemma RemoveHere(s: State, size: nat, per: nat, i: nat, k: nat, j: nat)
    requires Good(s, size) && IsDir(s, i) && Per(size, per)
    requires k < Run(Data(s, i)) && j < per
    requires Mapped(s.disk, Data(s, i), Run(Data(s, i))) && Directory.Taken(Slotted(s, i), Pos(k, per, j))
    ensures var s' := RemovedHere(s, i, k, j);
      && Good(s', size) && Untouched(s, s', i) && (Tight(s.v) ==> Tight(s'.v))
      && Listing(Slotted(s', i)) == Listing(Slotted(s, i)) - {Slotted(s, i)[Pos(k, per, j)].name}
  {
    hide Splice, SlotAt, Le32Bytes, Untouched, PointersUsed, Unshared, Tight, DirSlots, Listing, Pos, Distinct, Entries;
    var s', d := RemovedHere(s, i, k, j), Slotted(s, i);
    RemovedSlot(s, size, per, i, k, j);
    SlotFreed(d, Pos(k, per, j), Slot(0, d[Pos(k, per, j)].name));
    GoodStep(s, s', size, i);
  }

  /** The store frees the slot, and touches nothing else. */
  lemma RemovedSlot(s: State, size: nat, per: nat, i: nat, k: nat, j: nat)
    requires Good(s, size) && IsDir(s, i) && Per(size, per) && k < Run(Data(s, i)) && j < per
    requires Mapped(s.disk, Data(s, i), Run(Data(s, i)))
    ensures 0 <= Data(s, i)[k] < |s.disk| && ENTRY * j + 4 <= |s.disk[Data(s, i)[k]]|
    ensures var s' := RemovedHere(s, i, k, j);
      && Fits(s', size) && Sound(s'.v) && Untouched(s, s', i) && (Tight(s.v) ==> Tight(s'.v))
      && Data(s', i) == Data(s, i) && Mapped(s'.disk, Data(s, i), Run(Data(s, i)))
      && Pos(k, per, j) < |Slotted(s, i)|
      && Slotted(s', i) == Slotted(s, i)[Pos(k, per, j) := Slot(0, Slotted(s, i)[Pos(k, per, j)].name)]
  {
    hide Splice, SlotAt, Le32Bytes, Untouched, PointersUsed, Unshared, Tight, DirSlots, DirOk, Pos;
    PointersGood(s, size, i);
    var data, b := Data(s, i), Data(s, i)[k];
    OwnStore(s, size, i, k, Splice(s.disk[b], ENTRY * j, Le32Bytes(0)), s.v.nodes[i].size - ENTRY);
    EntryZeroed(s.disk, size, per, data, Run(data), k, j);
  }

  // ----- making and releasing inodes -----

  lemma BornGood(s: State, size: nat, i: nat, mode: int)
    requires Good(s, size) && i < |s.v.nodes| && !s.v.live[i]
    ensures var s' := s.(v := Born(s.v, i, mode));
      && Good(s', size) && Untouched(s, s', i) && (Tight(s.v) ==> Tight(s'.v))
      && Run(Data(s', i)) == 0 && Slotted(s', i) == []
  {
    var s' := s.(v := Born(s.v, i, mode));
    BornStep(s.v, i, mode);
    Elsewhere(s, s', size, i, []);
    assert Run(ZEROS) == 0;
    assert Content(s'.disk, ZEROS, 0) == [];
    GoodStep(s, s', size, i);
  }

  lemma ReleaseGood(s: State, size: nat, i: nat, u: seq<bool>)
    requires Good(s, size) && Live(s.v, i)
    requires Without(u, s.v.used, Data(s, i), Run(Data(s, i)))
    ensures var s' := s.(v := Dropped(s.v, i, u));
      && Good(s', size) && Untouched(s, s', i)
      && (Tight(s.v) ==> (Tight(s'.v) <==> Prefix(Data(s, i))))
  {
    var s' := s.(v := Dropped(s.v, i, u));
    ReleaseStep(s.v, i, u);
    Elsewhere(s, s', size, i, []);
    GoodStep(s, s', size, i);
  }

  // ----- two steps in a row -----

  /** Every inode outside a set, with its bytes. */
  ghost predicate KeptBut(s: State, s': State, who: set<int>) {
    && |s.v.nodes| == |s'.v.nodes| && |s.disk| == |s'.disk|
    && (forall j :: j !in who ==> (Live(s.v, j) <==> Live(s'.v, j)))
    && (forall j :: j !in who && Live(s.v, j) ==> SameFile(s, s', j))
  }

  lemma SameFileTwice(s: State, s1: State, s2: State, l: int)
    requires 0 <= l < |s.v.nodes| == |s1.v.nodes| == |s2.v.nodes| && |s.disk| == |s1.disk| == |s2.disk|
    requires SameFile(s, s1, l) && SameFile(s1, s2, l)
    ensures SameFile(s, s2, l)
  {
    assert Data(s1, l) == Data(s, l);
    forall k | 0 <= k < Run(Data(s, l)) && 0 <= Data(s, l)[k] < |s.disk|
      ensures s2.disk[Data(s, l)[k]] == s.disk[Data(s, l)[k]]
    {
      var b := Data(s1, l)[k];
      assert s2.disk[b] == s1.disk[b];
    }
  }

  lemma TwoSteps(s: State, s1: State, s2: State, i: int, j: int)
    requires Untouched(s, s1, i) && Untouched(s1, s2, j)
    ensures KeptBut(s, s2, {i, j})
  {
    assert forall l :: l !in {i, j} ==> (Live(s.v, l) <==> Live(s1.v, l)) && (Live(s1.v, l) <==> Live(s2.v, l));
    forall l | l !in {i, j} && Live(s.v, l) ensures SameFile(s, s2, l) {
      SameFileTwice(s, s1, s2, l);
    }
  }

  lemma MoreSteps(s: State, s1: State, s2: State, who: set<int>, j: int)
    requires KeptBut(s, s1, who) && Untouched(s1, s2, j)
    ensures KeptBut(s, s2, who + {j})
  {
    assert forall l :: l !in who + {j} ==> (Live(s.v, l) <==> Live(s1.v, l)) && (Live(s1.v, l) <==> Live(s2.v, l));
    forall l | l !in who + {j} && Live(s.v, l) ensures SameFile(s, s2, l) {
      SameFileTwice(s, s1, s2, l);
    }
  }

  lemma StepsOnOne(s: State, s1: State, s2: State, i: int)
    requires Untouched(s, s1, i) && Untouched(s1, s2, i)
    ensures Untouched(s, s2, i)
  {
    TwoSteps(s, s1, s2, i, i);
  }

  /** An untouched file has the same bytes. */
  lemma SameContent(s: State, s': State, size: nat, j: nat)
    requires Fits(s, size) && Sound(s.v) && Live(s.v, j)
    requires |s.v.nodes| == |s'.v.nodes| && |s.disk| == |s'.disk| && SameFile(s, s', j)
    ensures var data := Data(s, j);
      && Data(s', j) == data && Mapped(s.disk, data, Run(data)) && Mapped(s'.disk, data, Run(data))
      && Content(s'.disk, data, Run(data)) == Content(s.disk, data, Run(data))
  {
    PointersGood(s, size, j);
    var data := Data(s, j);
    ContentFrame(s.disk, s'.disk, data, data, Run(data));
  }

  lemma SameNames(s: State, s': State, size: nat, i: int, j: nat)
    requires Good(s, size) && Live(s.v, j) && Untouched(s, s', i) && i != j
    ensures Slotted(s', j) == Slotted(s, j) && s'.v.nodes[j] == s.v.nodes[j]
  {
    SameContent(s, s', size, j);
  }

  lemma NamesUnder(s: State, size: nat, i: int, t: nat, name: Name)
    requires Good(s, size) && IsDir(s, i) && Has(Slotted(s, i), t, name)
    ensures name in Names(s, i) && Names(s, i)[name] == Slotted(s, i)[t].ino
  {
    ListedUnder(Slotted(s, i), t, name);
  }

  // ----- whole operations -----

  /** Directory i lists one more name. */
  ghost predicate Entered(s: State, s': State, size: nat, i: int, name: Name, ino: nat) {
    && Good(s, size) && Good(s', size) && Untouched(s, s', i) && (Tight(s.v) ==> Tight(s'.v))
    && IsDir(s, i) && IsDir(s', i) && Names(s', i) == Names(s, i)[name := ino]
    && s'.v.nodes[i].size == s.v.nodes[i].size + ENTRY
  }

  lemma EnteredNames(s: State, s': State, size: nat, i: int, name: Name, ino: nat)
    requires Entered(s, s', size, i, name, ino)
    ensures Names(s', i) == Names(s, i)[name := ino] && IsDir(s', i)
  {}

  /** Inode i has been made and entered in directory d under name. */
  ghost predicate Made(s: State, s': State, size: nat, d: int, i: int, name: Name, mode: int) {
    && Good(s', size) && KeptBut(s, s', {d, i}) && (Tight(s.v) ==> Tight(s'.v))
    && d != i && IsDir(s', d) && Live(s'.v, i) && !Live(s.v, i)
    && Names(s', d) == Names(s, d)[name := i + 1] && s'.v.nodes[i] == Node(mode, 0, ZEROS)
  }

  /** Inode i has been allocated, and nothing else. */
  ghost predicate Lost(s: State, s': State, i: int, mode: int) {
    0 <= i < |s.v.nodes| && i < |s.v.live| && !s.v.live[i] && s' == s.(v := Born(s.v, i, mode))
  }

  lemma MakeSteps(s: State, s1: State, s2: State, size: nat, d: nat, i: nat, name: Name, mode: int)
    requires Good(s, size) && IsDir(s, d) && i < |s.v.nodes| && !s.v.live[i]
    requires s1 == s.(v := Born(s.v, i, mode))
    requires Entered(s1, s2, size, d, name, i + 1)
    ensures Made(s, s2, size, d, i, name, mode)
  {
    hide Slotted, DirOk, PointersUsed, Unshared, KeptBut;
    BornGood(s, size, i, mode);
    TwoSteps(s, s1, s2, i, d);
    SameNames(s, s1, size, i, d);
    assert {d, i} == {i, d};
    assert Good(s2, size) && KeptBut(s, s2, {d, i}) && (Tight(s.v) ==> Tight(s2.v));
    assert d != i && IsDir(s2, d);
    assert Names(s2, d) == Names(s, d)[name := i + 1];
    assert Live(s2.v, i) && !Live(s.v, i);
    assert s2.v.nodes[i] == Node(mode, 0, ZEROS);
  }

  /** And inode i is a directory that lists itself and d. */
  ghost predicate MadeDir(s: State, s': State, size: nat, d: int, i: int, name: Name) {
    && Good(s', size) && KeptBut(s, s', {d, i}) && (Tight(s.v) ==> Tight(s'.v))
    && d != i && IsDir(s', d) && IsDir(s', i) && !Live(s.v, i) && d >= 0
    && Names(s', d) == Names(s, d)[name := i + 1] && s'.v.nodes[i].size == 2 * ENTRY
    && Names(s', i) == map[DOT := i + 1, DOTDOT := d + 1]
  }

  lemma NoNames(s: State, s1: State, size: nat, d: nat, i: nat, name: Name)
    requires Made(s, s1, size, d, i, name, DIR)
    ensures Names(s1, i) == map[] && s1.v.nodes[i] == Node(DIR, 0, ZEROS)
  {}

  lemma MakeDirSteps(s: State, s1: State, s2: State, s3: State, size: nat, d: nat, i: nat, name: Name)
    requires Good(s, size) && Made(s, s1, size, d, i, name, DIR)
    requires Entered(s1, s2, size, i, DOT, i + 1) && Entered(s2, s3, size, i, DOTDOT, d + 1)
    ensures MadeDir(s, s3, size, d, i, name) && Live(s3.v, d) && s3.v.nodes[d] == s1.v.nodes[d]
  {
    hide Slotted, DirOk, PointersUsed, Unshared, KeptBut, Untouched, Reserved, Fits;
    NoNames(s, s1, size, d, i, name);
    StepsOnOne(s1, s2, s3, i);
    MoreSteps(s, s1, s3, {d, i}, i);
    assert {d, i} + {i} == {d, i};
    SameNames(s1, s3, size, i, d);
  }

  /** Name has gone from directory d, and inode i, which it led to, has been released: its number
      is free, and so is every block up to its first zero pointer. */
  ghost predicate Removed(s: State, s': State, size: nat, d: int, i: int, name: Name) {
    && Good(s', size) && KeptBut(s, s', {d, i}) && Live(s.v, i) && !Live(s'.v, i) && d != i && IsDir(s', d)
    && Names(s', d) == Names(s, d) - {name}
    && |s'.v.used| == |s.v.used|
    && (forall b :: 0 <= b < |s.v.used| ==> s'.v.used[b] == (s.v.used[b] && b !in Data(s, i)[..Run(Data(s, i))]))
    && (Tight(s.v) ==> (Tight(s'.v) <==> Prefix(Data(s, i))))
  }

  lemma RemoveSteps(s: State, s1: State, s2: State, size: nat, d: nat, i: nat, name: Name)
    requires Good(s, size) && IsDir(s, d) && Live(s.v, i) && d != i
    requires Good(s1, size) && IsDir(s1, d) && Untouched(s, s1, d) && (Tight(s.v) ==> Tight(s1.v))
    requires s1.v.used == s.v.used
    requires Names(s1, d) == Names(s, d) - {name}
    requires Good(s2, size) && Untouched(s1, s2, i) && !Live(s2.v, i)
    requires Without(s2.v.used, s1.v.used, Data(s1, i), Run(Data(s1, i)))
    requires Tight(s1.v) ==> (Tight(s2.v) <==> Prefix(Data(s1, i)))
    ensures Removed(s, s2, size, d, i, name) && Live(s2.v, d) && s2.v.nodes[d] == s1.v.nodes[d]
  {
    hide Slotted, DirOk, PointersUsed, Unshared, KeptBut;
    TwoSteps(s, s1, s2, d, i);
    SameNames(s1, s2, size, i, d);
    assert s1.v.nodes[i] == s.v.nodes[i];
  }

  /** Directory d has taken an entry for itself out of its own listing and then been released. */
  ghost predicate RemovedSelf(s: State, s': State, size: nat, d: int) {
    && Good(s', size) && Untouched(s, s', d) && Live(s.v, d) && !Live(s'.v, d)
    && |s'.v.used| == |s.v.used|
    && (forall b :: 0 <= b < |s.v.used| ==> s'.v.used[b] == (s.v.used[b] && b !in Data(s, d)[..Run(Data(s, d))]))
    && (Tight(s.v) ==> Tight(s'.v))
  }

  lemma RemoveSelfSteps(s: State, s1: State, s2: State, size: nat, d: nat)
    requires Good(s, size) && IsDir(s, d) && d < |s1.v.nodes| && Data(s1, d) == Data(s, d)
    requires Good(s1, size) && Untouched(s, s1, d) && (Tight(s.v) ==> Tight(s1.v)) && s1.v.used == s.v.used
    requires Good(s2, size) && Untouched(s1, s2, d) && !Live(s2.v, d)
    requires Without(s2.v.used, s1.v.used, Data(s1, d), Run(Data(s1, d)))
    requires Tight(s1.v) ==> (Tight(s2.v) <==> Prefix(Data(s1, d)))
    ensures RemovedSelf(s, s2, size, d)
  {
    hide PointersUsed, Unshared, Tight, Fits;
    StepsOnOne(s, s1, s2, d);
    assert DirOk(s, d);
  }

  lemma SelfRemovedTight(s: State, s': State, size: nat, d: int)
    requires RemovedSelf(s, s', size, d)
    ensures Tight(s.v) ==> Tight(s'.v)
  {}

  /** Directories are prefixes, so removing one leaks nothing. */
  lemma RemovedDirTight(s: State, s': State, size: nat, d: int, i: int, name: Name)
    requires Good(s, size) && IsDir(s, i) && Removed(s, s', size, d, i, name) && Tight(s.v)
    ensures Tight(s'.v)
  {}

  /** is_empty_dir */
  function IsEmptyDir(size: int): int {
    if size > 2 * ENTRY then 0 else if size < 2 * ENTRY then -1 else 1
  }

  lemma SizeCounts(s: State, size: nat, i: int)
    requires Good(s, size) && IsDir(s, i)
    ensures s.v.nodes[i].size == ENTRY * |Names(s, i)|
    ensures IsEmptyDir(s.v.nodes[i].size) == if |Names(s, i)| > 2 then 0 else if |Names(s, i)| < 2 then -1 else 1
  {
    EntriesCount(Slotted(s, i));
  }

  /** For a directory that lists itself and its parent, the size says whether it lists anything else. */
  lemma EmptyDirIsExact(s: State, size: nat, i: int)
    requires Good(s, size) && IsDir(s, i) && DOT in Names(s, i) && DOTDOT in Names(s, i)
    ensures s.v.nodes[i].size == ENTRY * |Names(s, i)|
    ensures IsEmptyDir(s.v.nodes[i].size) == if Names(s, i).Keys == {DOT, DOTDOT} then 1 else 0
  {
    var m := Names(s, i);
    EntriesCount(Slotted(s, i));
    var both, rest := {DOT, DOTDOT}, m.Keys - {DOT, DOTDOT};
    assert DOT != DOTDOT;
    assert m.Keys == both + rest;
    assert |m| == |m.Keys| == 2 + |rest|;
  }
}
