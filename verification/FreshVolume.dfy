/** A volume as it is first mounted: the invariants of the other operations hold of it. */
module FreshVolume {
  import opened Bytes
  import opened Ownership
  import opened Directory
  import opened DirEntries
  import opened DirStore
  import opened TfsState
  import opened Tree
  import opened Namespace

  /** No inode is allocated and no data block is in use. */
  predicate Blank(s: State, size: nat) {
    && Fits(s, size) && Reserved(s.v) && s.v.nodes != []
    && (forall i :: 0 <= i < |s.v.nodes| ==> !s.v.live[i])
    && (forall b :: 0 <= b < |s.v.used| && InArea(s.v, b) ==> !s.v.used[b])
  }

  lemma BlankIsGood(s: State, size: nat)
    requires Blank(s, size)
    ensures Good(s, size) && Tight(s.v)
  {}

  /** The first entry of the root goes to a new block, the second beside it. */
  lemma RootEntries(s: State, size: nat, per: nat) returns (r: State)
    requires Good(s, size) && IsDir(s, 0) && Tight(s.v) && Per(size, per) && per >= 2
    requires Data(s, 0) == ZEROS && Run(Data(s, 0)) == 0 && Slotted(s, 0) == [] && s.v.nodes[0].size == 0
    requires s.v.area < s.v.count && !s.v.used[s.v.area]
    ensures Good(r, size) && Tight(r.v) && IsDir(r, 0) && Untouched(s, r, 0)
    ensures Names(r, 0) == map[DOT := 1, DOTDOT := 1] && r.v.nodes[0].size == 2 * ENTRY
  {
    hide DirOk, PointersUsed, Unshared, Splice, SlotAt, EntryBytes, Untouched, Tight, Slotted, Listing, Pos;
    Empty();
    AddThere(s, size, per, 0, s.v.area, 1, DOT);
    var s2 := AddedThere(s, 0, s.v.area, EntryBytes(1, DOT), size);
    OneTaken(per);
    PointersGood(s2, size, 0);
    RunIs(Data(s2, 0), 1);
    AddHere(s2, size, per, 0, 0, 1, 1, DOTDOT);
    r := AddedHere(s2, 0, 0, 1, EntryBytes(1, DOTDOT));
    StepsOnOne(s, s2, r, 0);
  }

  lemma Empty()
    ensures Listing([]) == map[]
  {}

  lemma OneTaken(per: nat)
    requires per >= 2
    ensures var d := AddSlot([], Slot(1, DOT), per); FirstFree(d) == Pos(0, per, 1) < |d|
  {}

  /** A root directory that lists itself and is its own parent makes a tree. */
  lemma RootIsTree(r: State)
    requires IsDir(r, 0) && Names(r, 0) == map[DOT := 1, DOTDOT := 1]
    requires forall i :: i != 0 ==> !Live(r.v, i)
    ensures TreeOf(r)
  {
    hide Names, IsTree, Tidy;
    var p := SpaceOf(r);
    assert p.dirs.Keys == {0};
    assert p == Space(map[0 := map[DOT := 1, DOTDOT := 1]], {0});
    RootTidy(p);
  }

  lemma RootTidy(p: Space)
    requires p == Space(map[0 := map[DOT := 1, DOTDOT := 1]], {0})
    ensures Tidy(p)
  {
    hide IsTree, Leads;
    assert Trim(p).dirs == p.dirs;
    RootAlone(p);
  }

  lemma RootAlone(p: Space)
    requires p == Space(map[0 := map[DOT := 1, DOTDOT := 1]], {0})
    ensures IsTree(p)
  {
    assert forall d, n, t :: !Leads(p, d, n, t);
    assert Parent(p, 0, 0);
    assert Ranked(p, map[0 := 0]);
  }

  /** From a blank volume, making the root gives a good and tight volume whose namespace is a tree. */
  lemma RootMade(s: State, size: nat, per: nat) returns (r: State)
    requires Blank(s, size) && Per(size, per) && per >= 2 && s.v.area < s.v.count
    ensures Good(r, size) && Tight(r.v) && TreeOf(r) && InTree(r, 0)
    ensures IsDir(r, 0) && Names(r, 0) == map[DOT := 1, DOTDOT := 1] && r.v.nodes[0].size == 2 * ENTRY
  {
    hide DirOk, PointersUsed, Unshared, Splice, Slotted, Names, Tight;
    BlankIsGood(s, size);
    BornGood(s, size, 0, DIR);
    var s1 := s.(v := Born(s.v, 0, DIR));
    assert InArea(s.v, s.v.area);
    assert s1.v.nodes[0].data == ZEROS;
    r := RootEntries(s1, size, per);
    RootIsTree(r);
  }

  /** rmdir of "." in a root that lists only its dots goes well, as far as its result tells: and no
      inode is left, so there is no tree. */
  lemma RootRemovesItself(r: State, r': State, size: nat)
    requires Good(r, size) && TreeOf(r) && IsDir(r, ROOT)
    requires Names(r, ROOT) == map[DOT := 1, DOTDOT := 1] && RemovedSelf(r, r', size, ROOT)
    ensures RmDirOutcome(r, ROOT, DOT).Done? && LeadsToItself(ROOT, DOT)
    ensures !Live(r'.v, ROOT) && !TreeOf(r')
  {
    hide Good, TreeOf;
    SelfRemovalBreaksTree(r, r', size, ROOT);
  }
}
