/** The namespace of a volume, and what the directory operations do to it. */
module Namespace {
  import opened Ownership
  import opened Directory
  import opened Contents
  import opened DirEntries
  import opened DirStore
  import opened TfsState
  import opened Tree
  import opened FreeBlocks

  const ENOENT := 2
  const EEXIST := 17
  const ENOTDIR := 20
  const EINVAL := 22
  const EFBIG := 27
  const ENOSPC := 28
  const ENAMETOOLONG := 36
  const ENOTEMPTY := 39

  /** What -ENOSPC is as an unsigned block number. */
  const NO_BLOCK := 0x1_0000_0000 - ENOSPC

  /** Stray: the code goes on with a block that is not on the volume. */
  datatype Outcome = Done | Failed(err: int) | Stray

  ghost function SpaceOf(s: State): Space {
    Space(map d | 0 <= d < |s.v.nodes| && IsDir(s, d) :: Names(s, d), set t | 0 <= t < |s.v.nodes| && Live(s.v, t))
  }

  ghost predicate TreeOf(s: State) { Tidy(SpaceOf(s)) }

  /** A directory that is the root or that some directory lists. */
  ghost predicate InTree(s: State, d: int) {
    IsDir(s, d) && Attached(SpaceOf(s), d)
  }

  /** The same directories outside who, with the same names. */
  lemma OthersNames(s: State, s': State, size: nat, who: set<int>, j: int)
    requires Good(s, size) && KeptBut(s, s', who) && j !in who
    ensures Live(s'.v, j) <==> Live(s.v, j)
    ensures IsDir(s', j) <==> IsDir(s, j)
    ensures IsDir(s, j) ==> Names(s', j) == Names(s, j)
  {
    if Live(s.v, j) {
      SameContent(s, s', size, j);
    }
  }

  lemma AllOthers(s: State, s': State, size: nat, who: set<int>)
    requires Good(s, size) && KeptBut(s, s', who)
    ensures forall j :: j !in who ==> (Live(s'.v, j) <==> Live(s.v, j)) && (IsDir(s', j) <==> IsDir(s, j))
    ensures forall j :: j !in who && IsDir(s, j) ==> Names(s', j) == Names(s, j)
  {
    forall j | j !in who ensures (Live(s'.v, j) <==> Live(s.v, j)) && (IsDir(s', j) <==> IsDir(s, j))
      ensures IsDir(s, j) ==> Names(s', j) == Names(s, j)
    {
      OthersNames(s, s', size, who, j);
    }
  }

  lemma MadeSpace(s: State, s': State, size: nat, d: int, i: nat, name: Name, mode: int)
    requires Good(s, size) && IsDir(s, d) && Made(s, s', size, d, i, name, mode) && mode != DIR
    ensures SpaceOf(s') == WithFile(SpaceOf(s), d, i, name)
  {
    hide Good, Names;
    AllOthers(s, s', size, {d, i});
    var w := WithFile(SpaceOf(s), d, i, name);
    assert SpaceOf(s').live == w.live;
    assert SpaceOf(s').dirs.Keys == w.dirs.Keys;
    assert SpaceOf(s').dirs == w.dirs;
  }

  lemma MadeDirSpace(s: State, s': State, size: nat, d: nat, i: nat, name: Name)
    requires Good(s, size) && IsDir(s, d) && MadeDir(s, s', size, d, i, name)
    ensures SpaceOf(s') == WithDir(SpaceOf(s), d, i, name)
  {
    hide Good, Names;
    AllOthers(s, s', size, {d, i});
    var w := WithDir(SpaceOf(s), d, i, name);
    assert SpaceOf(s').live == w.live;
    assert SpaceOf(s').dirs.Keys == w.dirs.Keys;
    assert SpaceOf(s').dirs == w.dirs;
  }

  lemma RemovedSpace(s: State, s': State, size: nat, d: int, i: int, name: Name)
    requires Good(s, size) && IsDir(s, d) && Removed(s, s', size, d, i, name)
    ensures SpaceOf(s') == Pruned(SpaceOf(s), d, i, name)
  {
    hide Good, Names;
    AllOthers(s, s', size, {d, i});
    var w := Pruned(SpaceOf(s), d, i, name);
    assert SpaceOf(s').live == w.live;
    assert SpaceOf(s').dirs.Keys == w.dirs.Keys;
    assert SpaceOf(s').dirs == w.dirs;
  }

  // ----- entries that could not be made -----

  /** One block is lost, if there was a free one. */
  /** How add_entry ends, from the slots and pointers of the directory and the bits of the block map. */
  ghost predicate AddEnds(slots: seq<Slot>, data: seq<int>, used: seq<bool>, name: Name, r: Outcome) {
    && (r == Failed(ENAMETOOLONG) <==> |name| > 28)
    && (r == Failed(EFBIG) <==> |name| <= 28 && NoSlot(slots) && NoPointer(data))
    && (r.Stray? <==> |name| <= 28 && NoSlot(slots) && !NoPointer(data) && NoneClear(used))
    && (r.Done? <==> |name| <= 28 && (NoSlot(slots) ==> !NoPointer(data) && !NoneClear(used)))
  }

  function AddEnd(slots: seq<Slot>, data: seq<int>, used: seq<bool>, name: Name): (r: Outcome)
    ensures r in {Done, Failed(ENAMETOOLONG), Failed(EFBIG), Stray} && (r.Done? ==> |name| <= NAME_LEN)
  {
    if |name| > NAME_LEN then Failed(ENAMETOOLONG)
    else if FirstFree(slots) < |slots| then Done
    else if Run(data) == N_BLOCKS then Failed(EFBIG)
    else if Free(used) == 0 then Stray
    else Done
  }

  lemma AddEndsSo(slots: seq<Slot>, data: seq<int>, used: seq<bool>, name: Name)
    requires |data| == N_BLOCKS
    ensures AddEnds(slots, data, used, name, AddEnd(slots, data, used, name))
  {
    NoneFree(used);
  }

  /** How mknod ends, if also the inode bitmap and whether the name is there already are known; */
  ghost predicate MkNodEnds(listed: bool, inodes: seq<bool>, slots: seq<Slot>, data: seq<int>, used: seq<bool>,
                            name: Name, r: Outcome)
  {
    && (r == Failed(EEXIST) <==> listed)
    && (r == Failed(ENOSPC) <==> !listed && NoneClear(inodes))
    && (!listed && !NoneClear(inodes) ==> AddEnds(slots, data, used, name, r))
  }

  /** and mkdir, which needs one block more. */
  ghost predicate MkDirEnds(listed: bool, inodes: seq<bool>, slots: seq<Slot>, data: seq<int>, used: seq<bool>,
                            name: Name, r: Outcome)
  {
    && (r == Failed(EEXIST) <==> listed)
    && (r == Failed(ENOSPC) <==> !listed && NoneClear(inodes))
    && (!listed && !NoneClear(inodes) ==>
          && (r == Failed(ENAMETOOLONG) <==> |name| > 28)
          && (r == Failed(EFBIG) <==> |name| <= 28 && NoSlot(slots) && NoPointer(data))
          && (r.Done? <==>
              && |name| <= 28 && (NoSlot(slots) ==> !NoPointer(data))
              && Free(used) >= if NoSlot(slots) then 2 else 1)
          && r in {Done, Failed(ENAMETOOLONG), Failed(EFBIG), Stray})
  }

  /** Every slot is in use; */
  ghost predicate NoSlot(slots: seq<Slot>) {
    forall t :: 0 <= t < |slots| ==> slots[t].ino != 0
  }

  /** so is every pointer; */
  ghost predicate NoPointer(data: seq<int>) {
    forall k :: 0 <= k < |data| ==> data[k] != 0
  }

  /** and every bit. */
  ghost predicate NoneClear(used: seq<bool>) {
    forall b :: 0 <= b < |used| ==> used[b]
  }

  ghost predicate BlockLost(s: State, s': State) {
    if Free(s.v.used) == 0 then s' == s
    else exists b :: 0 <= b < |s.v.used| && !s.v.used[b] && s' == s.(v := Ownership.Taken(s.v, b))
  }

  /** The pointer behind inode i's blocks is no block. */
  function Strayed(s: State, i: int): State {
    if 0 <= i < |s.v.nodes| && Run(Data(s, i)) < |Data(s, i)|
    then s.(v := WithPointer(s.v, i, Run(Data(s, i)), NO_BLOCK)) else s
  }

  /** It is the first pointer that was zero, and becomes -28 as an unsigned number. */
  lemma StrayedIs(s: State, i: int)
    requires 0 <= i < |s.v.nodes| && !NoPointer(Data(s, i))
    ensures Strayed(s, i) == s.(v := s.v.(nodes := Strayed(s, i).v.nodes))
    ensures
      exists k :: 0 <= k < |Data(s, i)| && Data(s, i)[k] == 0 && NoPointer(Data(s, i)[..k]) &&
        Strayed(s, i).v.nodes == s.v.nodes[i := s.v.nodes[i].(data := Data(s, i)[k := 0xFFFF_FFE4])]
  {
    var k := Run(Data(s, i));
    assert Data(s, i)[k] == 0 && NoPointer(Data(s, i)[..k]);
  }

  /** Inode i has been allocated, and is in the table, but has not been entered.  Now is the volume, and
      mem the volume with directory d as in memory. */
  ghost predicate NotMade(s: State, now: State, mem: State, d: int, i: int, mode: int, r: Outcome) {
    && 0 <= i < |s.v.nodes| && i < |s.v.live| && !s.v.live[i]
    && var born := s.(v := Born(s.v, i, mode));
    match r
    case Failed(err) => mem == now && (if err == EFBIG then BlockLost(born, now) else now == born)
    case Stray => now == born && mem == Strayed(born, d)
    case Done => false
  }

  /** How mkdir leaves the volume when it does not refuse: a directory with its dots; one that is in
      the parent but whose first dot went astray; or what mknod, which ended with mk, left. */
  ghost predicate MkDirEnd(s: State, now: State, parent: State, dir: State, size: nat, d: int, i: int, name: Name,
                           mk: Outcome, r: Outcome)
  {
    if r.Done? then MadeDir(s, now, size, d, i, name)
    else if mk.Done? then Made(s, now, size, d, i, name, DIR) && parent == now && dir == Strayed(now, i)
    else NotMade(s, now, parent, d, i, DIR, r)
  }

  lemma SameSpace(s: State, s': State)
    requires s'.disk == s.disk && s'.v.nodes == s.v.nodes && s'.v.live == s.v.live
    ensures SpaceOf(s') == SpaceOf(s)
  {
    hide Slotted, Listing;
    forall d | IsDir(s, d) ensures Names(s', d) == Names(s, d) {
      SlotsSame(s, s', d);
    }
    assert SpaceOf(s').dirs == SpaceOf(s).dirs;
  }

  lemma BlankNames(s: State, i: int)
    requires 0 <= i < |s.v.nodes| && s.v.nodes[i].data == ZEROS
    ensures Names(s, i) == map[]
  {
    assert Run(ZEROS) == 0;
    assert Content(s.disk, ZEROS, 0) == [];
  }

  /** A directory without entries that some directory lists is in no tree. */
  lemma BlankDirBreaksTree(s: State, i: int)
    requires InTree(s, i) && s.v.nodes[i].data == ZEROS
    ensures !TreeOf(s)
  {
    hide Names, Attached, Tidy;
    BlankNames(s, i);
    if TreeOf(s) {
      TreeDots(s, i);
    }
  }

  lemma BornSpace(s: State, size: nat, i: nat, mode: int)
    requires Good(s, size) && i < |s.v.nodes| && !s.v.live[i]
    ensures var s' := s.(v := Born(s.v, i, mode));
      SpaceOf(s') == if mode == DIR then WithBlank(SpaceOf(s), i)
                     else Space(SpaceOf(s).dirs, SpaceOf(s).live + {i})
  {
    hide Names, DirOk, PointersUsed, Unshared;
    var s' := s.(v := Born(s.v, i, mode));
    BornGood(s, size, i, mode);
    UntouchedIsKept(s, s', i);
    AllOthers(s, s', size, {i});
    BlankNames(s', i);
    assert SpaceOf(s').live == SpaceOf(s).live + {i};
    assert SpaceOf(s').dirs == if mode == DIR then WithBlank(SpaceOf(s), i).dirs else SpaceOf(s).dirs;
  }

  /** An allocated inode that no name leads to is no harm to the tree, be it a blank directory. */
  lemma BornTree(s: State, size: nat, i: nat, mode: int)
    requires Good(s, size) && TreeOf(s) && i < |s.v.nodes| && !s.v.live[i]
    ensures TreeOf(s.(v := Born(s.v, i, mode)))
  {
    hide Tidy, Names, Good;
    BornSpace(s, size, i, mode);
    assert i !in SpaceOf(s).live;
    TidyBlank(SpaceOf(s), i);
    TidyLive(SpaceOf(s), i);
  }

  lemma NotMadeTree(s: State, now: State, mem: State, size: nat, d: int, i: nat, mode: int, r: Outcome)
    requires Good(s, size) && TreeOf(s) && NotMade(s, now, mem, d, i, mode, r)
    ensures TreeOf(now)
  {
    hide Good, Tidy, Strayed;
    var born := s.(v := Born(s.v, i, mode));
    BornTree(s, size, i, mode);
    SameSpace(born, now);
  }

  /** The name of something new is none of the dots. */
  lemma NewNameIsOwn(s: State, d: int, name: Name)
    requires TreeOf(s) && InTree(s, d) && name !in Names(s, d)
    ensures !Dotted(name)
  {
    hide Names, Tidy, Attached;
    TreeDots(s, d);
  }

  lemma MadeTree(s: State, s': State, size: nat, d: int, i: nat, name: Name, mode: int)
    requires Good(s, size) && TreeOf(s) && InTree(s, d) && name !in Names(s, d)
    requires Made(s, s', size, d, i, name, mode)
    ensures TreeOf(s') <==> mode != DIR
  {
    hide Good, Tidy, Names, KeptBut, Attached;
    if mode == DIR {
      NewNameIsOwn(s, d, name);
      ListedIsInTree(s', d, name, i);
      BlankDirBreaksTree(s', i);
    } else {
      MakingKeepsTree(s, s', size, d, i, name, mode);
    }
  }

  lemma ListedIsInTree(s: State, d: int, name: Name, i: int)
    requires IsDir(s, d) && name in Names(s, d) && !Dotted(name) && Names(s, d)[name] == i + 1 && IsDir(s, i)
    ensures InTree(s, i)
  {
    hide Names;
    assert SpaceOf(s).dirs[d] == Names(s, d);
    assert Leads(SpaceOf(s), d, name, i);
  }

  // ----- a tree stays a tree -----

  lemma MakingKeepsTree(s: State, s': State, size: nat, d: int, i: nat, name: Name, mode: int)
    requires Good(s, size) && TreeOf(s) && InTree(s, d) && name !in Names(s, d)
    requires Made(s, s', size, d, i, name, mode) && mode != DIR
    ensures TreeOf(s')
  {
    hide Good, Tidy, Names, KeptBut, Attached;
    MadeSpace(s, s', size, d, i, name, mode);
    TidyFile(SpaceOf(s), d, i, name);
  }

  lemma MakingDirKeepsTree(s: State, s': State, size: nat, d: nat, i: nat, name: Name)
    requires Good(s, size) && TreeOf(s) && InTree(s, d) && name !in Names(s, d)
    requires MadeDir(s, s', size, d, i, name)
    ensures TreeOf(s')
  {
    hide Good, Tidy, Names, KeptBut, Attached;
    MadeDirSpace(s, s', size, d, i, name);
    TidyDir(SpaceOf(s), d, i, name);
  }

  /** A name of the directory that leads to the directory itself. */
  predicate LeadsToItself(d: int, name: Name) { name == DOT || (name == DOTDOT && d == ROOT) }

  /** Any name leads to an allocated inode, and a dotted one to the directory itself or to a directory
      that is not empty; and what it leads to is in the tree, if it is a directory. */
  lemma TreeTarget(s: State, size: nat, d: int, name: Name)
    requires Good(s, size) && TreeOf(s) && IsDir(s, d) && name in Names(s, d)
    ensures var t := Target(s, d, name);
      && Live(s.v, t) && (t == d <==> LeadsToItself(d, name))
      && (Dotted(name) ==> IsDir(s, t) && (t != d ==> Names(s, t).Keys != {DOT, DOTDOT}))
      && (IsDir(s, t) ==> InTree(s, t))
  {
    hide Good, Names, Tidy, Attached;
    var p, t := SpaceOf(s), Target(s, d, name);
    assert p.dirs[d] == Names(s, d);
    TidyTarget(p, d, name, t);
    assert t in p.dirs ==> p.dirs[t] == Names(s, t);
  }

  lemma TreeDots(s: State, i: int)
    requires TreeOf(s) && InTree(s, i)
    ensures DOT in Names(s, i) && DOTDOT in Names(s, i)
  {
    hide Names, Tidy, Attached;
    assert SpaceOf(s).dirs[i] == Names(s, i);
    TidyDots(SpaceOf(s), i);
  }

  /** And the size of a directory says whether it lists anything of its own. */
  lemma TreeEmpty(s: State, size: nat, i: int)
    requires Good(s, size) && TreeOf(s) && InTree(s, i)
    ensures IsEmptyDir(s.v.nodes[i].size) == if Names(s, i).Keys == {DOT, DOTDOT} then 1 else 0
  {
    hide Good, Names, Tidy, Attached;
    TreeDots(s, i);
    EmptyDirIsExact(s, size, i);
  }

  lemma RemovingKeepsTree(s: State, s': State, size: nat, d: int, i: int, name: Name)
    requires Good(s, size) && TreeOf(s) && IsDir(s, d) && name in Names(s, d) && !Dotted(name)
    requires Names(s, d)[name] == i + 1 && Removed(s, s', size, d, i, name)
    requires IsDir(s, i) ==> Names(s, i).Keys == {DOT, DOTDOT}
    ensures TreeOf(s')
  {
    hide Good, Tidy, Names, KeptBut;
    RemovedSpace(s, s', size, d, i, name);
    assert SpaceOf(s).dirs[d] == Names(s, d);
    assert i in SpaceOf(s).dirs ==> SpaceOf(s).dirs[i] == Names(s, i);
    TidyPrune(SpaceOf(s), d, i, name);
  }

  /** A directory that removes itself is still listed by its parent, or was the root: the namespace is
      no tree any more. */
  lemma SelfRemovalBreaksTree(s: State, s': State, size: nat, d: int)
    requires Good(s, size) && TreeOf(s) && IsDir(s, d) && Names(s, d).Keys == {DOT, DOTDOT}
    requires RemovedSelf(s, s', size, d)
    ensures !TreeOf(s')
  {
    hide Good, Tidy, Names;
    UntouchedIsKept(s, s', d);
    AllOthers(s, s', size, {d});
    assert SpaceOf(s).dirs[d] == Names(s, d);
    GoneDirBreaksTree(SpaceOf(s), SpaceOf(s'), d);
  }

  lemma UntouchedIsKept(s: State, s': State, i: int)
    requires Untouched(s, s', i)
    ensures KeptBut(s, s', {i})
  {}

  // ----- what a caller can tell beforehand -----

  /** What rmdir and unlink rely on: the name, if it is there, leads to an allocated inode. */
  predicate EntryLive(s: State, d: int, name: Name) {
    name in Names(s, d) ==> Live(s.v, Target(s, d, name))
  }

  /** How rmdir ends: it counts the names, whichever they are. */
  function RmDirOutcome(s: State, d: int, name: Name): Outcome {
    if name !in Names(s, d) then Failed(ENOENT)
    else if !IsDir(s, Target(s, d, name)) then Failed(ENOTDIR)
    else
      var n := |Names(s, Target(s, d, name))|;
      if n > 2 then Failed(ENOTEMPTY) else if n < 2 then Failed(EINVAL) else Done
  }

  /** How rmdir ends, from the mode and the i_size of what the name leads to: 32 bytes for each of the two
      names that a removable directory has. */
  ghost predicate SizeDecides(node: Node, r: Outcome) {
    && (r == Failed(ENOTDIR) <==> node.mode != DIR)
    && (r == Failed(ENOTEMPTY) <==> node.mode == DIR && node.size > 64)
    && (r == Failed(EINVAL) <==> node.mode == DIR && node.size < 64)
    && (r.Done? <==> node.mode == DIR && node.size == 64)
  }

  lemma SizeDecidesSo(s: State, size: nat, d: int, name: Name)
    requires Good(s, size) && EntryLive(s, d, name) && name in Names(s, d)
    ensures SizeDecides(s.v.nodes[Target(s, d, name)], RmDirOutcome(s, d, name))
  {
    var t := Target(s, d, name);
    if IsDir(s, t) { SizeCounts(s, size, t); }
  }

  /** In a tree these are the dots and no other. */
  lemma OutcomeInTree(s: State, size: nat, d: int, name: Name)
    requires Good(s, size) && TreeOf(s) && IsDir(s, d)
    ensures EntryLive(s, d, name)
    ensures RmDirOutcome(s, d, name) ==
      if name !in Names(s, d) then Failed(ENOENT)
      else if !IsDir(s, Target(s, d, name)) then Failed(ENOTDIR)
      else if Names(s, Target(s, d, name)).Keys != {DOT, DOTDOT} then Failed(ENOTEMPTY)
      else Done
  {
    hide Good, Names, Tidy, Attached;
    if name in Names(s, d) {
      TreeTarget(s, size, d, name);
      var t := Target(s, d, name);
      if IsDir(s, t) {
        TreeDots(s, t);
        TwoNames(Names(s, t));
      }
    }
  }

  lemma TwoNames(m: map<Name, nat>)
    requires DOT in m && DOTDOT in m
    ensures |m| >= 2 && (|m| == 2 <==> m.Keys == {DOT, DOTDOT})
  {
    var both, rest := {DOT, DOTDOT}, m.Keys - {DOT, DOTDOT};
    assert DOT != DOTDOT;
    assert m.Keys == both + rest;
    assert |m| == |m.Keys| == 2 + |rest|;
  }

  /** The name leads to the directory itself. */
  predicate LeadsBack(s: State, d: int, name: Name) {
    name in Names(s, d) && Target(s, d, name) == d
  }

  /** What rmdir reads off the inode that the name leads to. */
  lemma RmDirFacts(s: State, size: nat, d: int, name: Name)
    requires Good(s, size) && IsDir(s, d) && EntryLive(s, d, name)
    ensures name in Names(s, d) && IsDir(s, Target(s, d, name)) ==>
      var t := Target(s, d, name);
      IsEmptyDir(s.v.nodes[t].size) == if |Names(s, t)| > 2 then 0 else if |Names(s, t)| < 2 then -1 else 1
    ensures TreeOf(s) && LeadsToItself(d, name) && Names(s, d).Keys == {DOT, DOTDOT} ==>
      RmDirOutcome(s, d, name).Done?
  {
    hide Good, Names, Tidy, Attached;
    if name in Names(s, d) && IsDir(s, Target(s, d, name)) { SizeCounts(s, size, Target(s, d, name)); }
    if TreeOf(s) && LeadsToItself(d, name) && Names(s, d).Keys == {DOT, DOTDOT} {
      assert DOT in Names(s, d).Keys && DOTDOT in Names(s, d).Keys;
      TreeTarget(s, size, d, name);
      TwoNames(Names(s, d));
    }
  }

  /** What removing directory t, which name leads to, leaves of the tree and of the blocks. */
  lemma RmDirEnds(s: State, s': State, size: nat, d: int, t: int, name: Name)
    requires Good(s, size) && IsDir(s, d) && name in Names(s, d) && t == Target(s, d, name) && IsDir(s, t)
    requires |Names(s, t)| == 2
    requires if t == d then RemovedSelf(s, s', size, d) else Removed(s, s', size, d, t, name)
    ensures TreeOf(s) ==>
      (TreeOf(s') <==> !(LeadsToItself(d, name) && Names(s, d).Keys == {DOT, DOTDOT}))
    ensures Tight(s.v) ==> Tight(s'.v)
  {
    hide Good, Names, Tidy, Attached, Tight, Removed, RemovedSelf;
    if TreeOf(s) {
      TreeTarget(s, size, d, name);
      TreeDots(s, t);
      TwoNames(Names(s, t));
      if t == d {
        SelfRemovalBreaksTree(s, s', size, d);
      } else {
        RemovingKeepsTree(s, s', size, d, t, name);
      }
    }
    if Tight(s.v) {
      if t == d { SelfRemovedTight(s, s', size, d); } else { RemovedDirTight(s, s', size, d, t, name); }
    }
  }

  predicate NamesFile(s: State, d: int, name: Name) {
    name in Names(s, d) && 0 <= Target(s, d, name) < |s.v.nodes| && s.v.nodes[Target(s, d, name)].mode == FILE
  }

  ghost predicate RemovedName(s: State, s': State, size: nat, d: int, name: Name) {
    name in Names(s, d) && Removed(s, s', size, d, Target(s, d, name), name)
  }
}
