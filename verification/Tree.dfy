/** The namespace of a volume: which directory entry leads to which inode. */
module Tree {
  import opened Directory

  /** The directories with their listings, and the inodes that are allocated.  Inodes are table
      indexes; listings hold inode numbers, which are one more. */
  datatype Space = Space(dirs: map<int, map<Name, int>>, live: set<int>)

  predicate Dotted(n: Name) { n == DOT || n == DOTDOT }

  /** Directory d lists inode t under a name of its own. */
  predicate Leads(s: Space, d: int, n: Name, t: int) {
    d in s.dirs && !Dotted(n) && n in s.dirs[d] && s.dirs[d][n] == t + 1
  }

  ghost predicate HasEntry(s: Space, p: int, t: int) { exists n :: Leads(s, p, n, t) }

  /** p is a directory that lists d, or d itself, as for the root. */
  ghost predicate Parent(s: Space, d: int, p: int) {
    p in s.dirs && (p == d || HasEntry(s, p, d))
  }

  /** d lists itself, and a parent of it. */
  ghost predicate Dots(s: Space, d: int)
    requires d in s.dirs
  {
    && DOT in s.dirs[d] && s.dirs[d][DOT] == d + 1
    && DOTDOT in s.dirs[d] && Parent(s, d, s.dirs[d][DOTDOT] - 1)
  }

  ghost predicate NoneDangles(s: Space) {
    && (forall d :: d in s.dirs ==> d in s.live)
    && (forall d, n, t :: Leads(s, d, n, t) ==> t in s.live && t != d)
  }

  ghost predicate OneName(s: Space) {
    forall d, n, e, m, t :: Leads(s, d, n, t) && Leads(s, e, m, t) ==> d == e && n == m
  }

  ghost predicate AllDots(s: Space) {
    forall d :: d in s.dirs ==> Dots(s, d)
  }

  /** No entry dangles, no inode has two names, and the dots of every directory are right. */
  ghost predicate Proper(s: Space) { NoneDangles(s) && OneName(s) && AllDots(s) }

  /** The root directory's inode. */
  const ROOT := 0

  predicate OwnParent(s: Space, d: int) {
    d in s.dirs && DOTDOT in s.dirs[d] && s.dirs[d][DOTDOT] == d + 1
  }

  /** Every directory that is listed is further from the root than the one that lists it. */
  ghost predicate Ranked(s: Space, rank: map<int, nat>) {
    && s.dirs.Keys <= rank.Keys
    && forall p, n, d :: Leads(s, p, n, d) && d in s.dirs ==> rank[p] < rank[d]
  }

  ghost predicate NoCycle(s: Space) { exists rank :: Ranked(s, rank) }

  /** The root is its own parent and no other directory is, and nobody lists the root. */
  ghost predicate RootAbove(s: Space) {
    && ROOT in s.dirs && (forall p, n :: !Leads(s, p, n, ROOT))
    && (forall d :: d in s.dirs ==> (OwnParent(s, d) <==> d == ROOT))
  }

  /** No entry dangles, no inode has two names, the dots of every directory are right, and no chain of
      directories closes below the root: every one hangs from it, as FromTheRoot says. */
  ghost predicate IsTree(s: Space) { Proper(s) && RootAbove(s) && NoCycle(s) }

  /** From the root down to d, each directory lists the next under a name of its own. */
  ghost predicate Chain(s: Space, path: seq<int>, d: int) {
    && path != [] && path[0] == ROOT && path[|path| - 1] == d
    && forall k :: 0 <= k < |path| - 1 ==> HasEntry(s, path[k], path[k + 1])
  }

  lemma ParentAbove(s: Space, rank: map<int, nat>, d: int) returns (p: int)
    requires Proper(s) && RootAbove(s) && Ranked(s, rank) && d in s.dirs && d != ROOT
    ensures p in s.dirs && HasEntry(s, p, d) && rank[p] < rank[d]
  {
    assert Dots(s, d) && !OwnParent(s, d);
    p := s.dirs[d][DOTDOT] - 1;
    var n :| Leads(s, p, n, d);
  }

  lemma {:induction false} ChainDown(s: Space, rank: map<int, nat>, d: int) returns (path: seq<int>)
    requires Proper(s) && RootAbove(s) && Ranked(s, rank) && d in s.dirs
    ensures Chain(s, path, d)
    decreases rank[d]
  {
    hide Proper, RootAbove, HasEntry;
    if d == ROOT {
      path := [ROOT];
    } else {
      var p := ParentAbove(s, rank, d);
      var front := ChainDown(s, rank, p);
      path := front + [d];
    }
  }

  /** In a tree every directory is reached from the root. */
  lemma FromTheRoot(s: Space, d: int)
    requires IsTree(s) && d in s.dirs
    ensures exists path :: Chain(s, path, d)
  {
    hide Proper, RootAbove, Ranked;
    var rank :| Ranked(s, rank);
    assert rank[d] >= 0 by { RankCovers(s, rank); }
    var path := ChainDown(s, rank, d);
  }

  lemma RankCovers(s: Space, rank: map<int, nat>)
    requires Ranked(s, rank)
    ensures s.dirs.Keys <= rank.Keys
  {}

  /** Any name leads to an allocated inode: a directory's dot, and the root's two dots, to the directory
      itself, any other dotted name to a directory that is not empty. */
  lemma TargetInTree(s: Space, d: int, n: Name, t: int)
    requires IsTree(s) && d in s.dirs && n in s.dirs[d] && s.dirs[d][n] == t + 1
    ensures t in s.live && (t == d <==> n == DOT || (n == DOTDOT && d == ROOT))
    ensures Dotted(n) ==> t in s.dirs && (t != d ==> s.dirs[t].Keys != {DOT, DOTDOT})
  {
    hide OneName, NoCycle;
    assert Dots(s, d);
    assert OwnParent(s, d) <==> d == ROOT;
    if !Dotted(n) {
      assert Leads(s, d, n, t);
    } else if t != d {
      var m :| Leads(s, t, m, d);
      assert m in s.dirs[t].Keys;
    }
  }

  function WithFile(s: Space, d: int, i: nat, name: Name): Space
    requires d in s.dirs
  {
    Space(s.dirs[d := s.dirs[d][name := i + 1]], s.live + {i})
  }

  function WithDir(s: Space, d: nat, i: nat, name: Name): Space
    requires d in s.dirs
  {
    var w := WithFile(s, d, i, name);
    w.(dirs := w.dirs[i := map[DOT := i + 1, DOTDOT := d + 1]])
  }

  function Pruned(s: Space, d: int, i: int, name: Name): Space
    requires d in s.dirs
  {
    Space((s.dirs - {i})[d := s.dirs[d] - {name}], s.live - {i})
  }

  /** Dots survive when the parent does, with its entry. */
  lemma DotsKept(s: Space, s': Space, e: int)
    requires e in s.dirs && Dots(s, e) && e in s'.dirs
    requires DOT in s'.dirs[e] && s'.dirs[e][DOT] == s.dirs[e][DOT]
    requires DOTDOT in s'.dirs[e] && s'.dirs[e][DOTDOT] == s.dirs[e][DOTDOT]
    requires var p := s.dirs[e][DOTDOT] - 1;
      p in s'.dirs && forall n :: Leads(s, p, n, e) ==> Leads(s', p, n, e)
    ensures Dots(s', e)
  {}

  /** The only new entry is d's for i, and i is new. */
  ghost predicate Added(s: Space, w: Space, d: int, name: Name, i: int) {
    && !Dotted(name) && i !in s.live && w.live == s.live + {i}
    && forall e, n, t :: Leads(w, e, n, t) <==> Leads(s, e, n, t) || (e == d && n == name && t == i)
  }

  lemma AddedKeeps(s: Space, w: Space, d: int, name: Name, i: int)
    requires NoneDangles(s) && OneName(s) && d in s.dirs && Added(s, w, d, name, i)
    requires w.dirs.Keys <= s.dirs.Keys + {i}
    ensures NoneDangles(w) && OneName(w)
  {}

  lemma FileAdds(s: Space, d: int, i: nat, name: Name)
    requires Proper(s) && d in s.dirs && i !in s.live && name !in s.dirs[d]
    ensures Added(s, WithFile(s, d, i, name), d, name, i)
  {}

  lemma FileKeepsProper(s: Space, d: int, i: nat, name: Name)
    requires Proper(s) && d in s.dirs && i !in s.live && name !in s.dirs[d]
    ensures Proper(WithFile(s, d, i, name))
  {
    var w := WithFile(s, d, i, name);
    FileAdds(s, d, i, name);
    AddedKeeps(s, w, d, name, i);
    forall e | e in w.dirs ensures Dots(w, e) {
      FileKeepsDots(s, d, i, name, e);
    }
  }

  lemma FileKeepsDots(s: Space, d: int, i: nat, name: Name, e: int)
    requires Proper(s) && d in s.dirs && i !in s.live && name !in s.dirs[d] && e in s.dirs
    ensures Dots(WithFile(s, d, i, name), e)
  {
    hide Leads, HasEntry, NoneDangles, OneName;
    FileAdds(s, d, i, name);
    assert Dots(s, e) && Dots(s, d);
    DotsKept(s, WithFile(s, d, i, name), e);
  }

  lemma DirAdds(s: Space, d: nat, i: nat, name: Name)
    requires Proper(s) && d in s.dirs && i !in s.live && name !in s.dirs[d]
    ensures Added(s, WithDir(s, d, i, name), d, name, i)
  {
    assert Dots(s, d);
  }

  lemma DirKeepsProper(s: Space, d: nat, i: nat, name: Name)
    requires Proper(s) && d in s.dirs && i !in s.live && name !in s.dirs[d]
    ensures Proper(WithDir(s, d, i, name))
  {
    var w := WithDir(s, d, i, name);
    DirAdds(s, d, i, name);
    AddedKeeps(s, w, d, name, i);
    forall e | e in w.dirs ensures Dots(w, e) {
      DirKeepsDots(s, d, i, name, e);
    }
  }

  lemma DirKeepsDots(s: Space, d: nat, i: nat, name: Name, e: int)
    requires Proper(s) && d in s.dirs && i !in s.live && name !in s.dirs[d] && (e in s.dirs || e == i)
    ensures Dots(WithDir(s, d, i, name), e)
  {
    hide Leads, OneName, NoneDangles, HasEntry;
    var w := WithDir(s, d, i, name);
    DirAdds(s, d, i, name);
    if e == i {
      assert Leads(w, d, name, i);
      NewDots(s, d, i, name, w);
    } else {
      assert e in s.live && i != e by { DirsAreLive(s, e); }
      assert Dots(s, e) && Dots(s, d);
      DotsKept(s, w, e);
    }
  }

  lemma DirsAreLive(s: Space, e: int)
    requires NoneDangles(s) && e in s.dirs
    ensures e in s.live
  {}

  lemma NewDots(s: Space, d: nat, i: nat, name: Name, w: Space)
    requires d in s.dirs && d in w.dirs && i in w.dirs && w.dirs[i] == map[DOT := i + 1, DOTDOT := d + 1]
    requires Leads(w, d, name, i)
    ensures Dots(w, i)
  {
    hide Leads;
  }

  lemma PruneLeads(s: Space, d: int, i: int, name: Name, e: int, n: Name, t: int)
    requires Proper(s) && Leads(s, d, name, i)
    requires i in s.dirs ==> s.dirs[i].Keys == {DOT, DOTDOT}
    ensures Leads(Pruned(s, d, i, name), e, n, t) <==> Leads(s, e, n, t) && !(e == d && n == name)
  {}

  lemma PruneKeepsDots(s: Space, d: int, i: int, name: Name, e: int)
    requires Proper(s) && Leads(s, d, name, i) && e in s.dirs && e != i
    requires i in s.dirs ==> s.dirs[i].Keys == {DOT, DOTDOT}
    ensures Dots(Pruned(s, d, i, name), e)
  {
    var w := Pruned(s, d, i, name);
    assert Dots(s, e);
    var p := s.dirs[e][DOTDOT] - 1;
    assert p != i;
    forall n | Leads(s, p, n, e) ensures Leads(w, p, n, e) {
      PruneLeads(s, d, i, name, p, n, e);
    }
    DotsKept(s, w, e);
  }

  lemma PruneKeepsProper(s: Space, d: int, i: int, name: Name)
    requires Proper(s) && Leads(s, d, name, i)
    requires i in s.dirs ==> s.dirs[i].Keys == {DOT, DOTDOT}
    ensures Proper(Pruned(s, d, i, name))
  {
    var w := Pruned(s, d, i, name);
    forall e, n, t ensures Leads(w, e, n, t) <==> Leads(s, e, n, t) && !(e == d && n == name) {
      PruneLeads(s, d, i, name, e, n, t);
    }
    forall e | e in w.dirs ensures Dots(w, e) {
      PruneKeepsDots(s, d, i, name, e);
    }
    FewerEntries(s, w, d, i, name);
  }

  lemma FewerEntries(s: Space, w: Space, d: int, i: int, name: Name)
    requires NoneDangles(s) && OneName(s) && Leads(s, d, name, i)
    requires w.live == s.live - {i} && w.dirs.Keys <= s.dirs.Keys - {i}
    requires forall e, n, t :: Leads(w, e, n, t) <==> Leads(s, e, n, t) && !(e == d && n == name)
    ensures NoneDangles(w) && OneName(w)
  {}

  // ----- and hang from the root -----

  /** What is new hangs from a directory of the tree. */
  lemma AddedKeepsRoot(s: Space, w: Space, d: int, name: Name, i: int)
    requires NoneDangles(s) && RootAbove(s) && d in s.dirs && Added(s, w, d, name, i)
    requires s.dirs.Keys <= w.dirs.Keys <= s.dirs.Keys + {i}
    requires forall e :: e in s.dirs ==> (OwnParent(w, e) <==> OwnParent(s, e))
    requires i in w.dirs ==> !OwnParent(w, i)
    ensures RootAbove(w)
  {}

  lemma AddedKeepsRank(s: Space, w: Space, rank: map<int, nat>, d: int, name: Name, i: int)
    requires NoneDangles(s) && d in s.dirs && Added(s, w, d, name, i) && Ranked(s, rank)
    requires s.dirs.Keys <= w.dirs.Keys <= s.dirs.Keys + {i}
    ensures NoCycle(w)
  {
    hide OneName;
    var rank' := rank[i := rank[d] + 1];
    forall p, n, e | Leads(w, p, n, e) && e in w.dirs ensures rank'[p] < rank'[e] {
      if Leads(s, p, n, e) {
        assert p in s.live && e in s.live;
      } else {
        assert d in s.live;
      }
    }
    assert Ranked(w, rank');
  }

  lemma FileKeepsTree(s: Space, d: int, i: nat, name: Name)
    requires IsTree(s) && d in s.dirs && i !in s.live && name !in s.dirs[d]
    ensures IsTree(WithFile(s, d, i, name))
  {
    hide OneName, Dots, Leads, Ranked, Added;
    var w := WithFile(s, d, i, name);
    FileKeepsProper(s, d, i, name);
    FileAdds(s, d, i, name);
    assert Dots(s, d);
    FileKeepsOwn(s, d, i, name);
    AddedKeepsRoot(s, w, d, name, i);
    var rank :| Ranked(s, rank);
    AddedKeepsRank(s, w, rank, d, name, i);
  }

  lemma FileKeepsOwn(s: Space, d: int, i: nat, name: Name)
    requires d in s.dirs && Dots(s, d) && name !in s.dirs[d]
    ensures forall e :: e in s.dirs ==> (OwnParent(WithFile(s, d, i, name), e) <==> OwnParent(s, e))
    ensures i !in s.dirs ==> i !in WithFile(s, d, i, name).dirs
  {}

  lemma DirKeepsTree(s: Space, d: nat, i: nat, name: Name)
    requires IsTree(s) && d in s.dirs && i !in s.live && name !in s.dirs[d]
    ensures IsTree(WithDir(s, d, i, name))
  {
    hide OneName, Dots, Leads, Ranked, Added;
    var w := WithDir(s, d, i, name);
    DirKeepsProper(s, d, i, name);
    DirAdds(s, d, i, name);
    assert Dots(s, d);
    DirKeepsOwn(s, d, i, name);
    AddedKeepsRoot(s, w, d, name, i);
    var rank :| Ranked(s, rank);
    AddedKeepsRank(s, w, rank, d, name, i);
  }

  lemma DirKeepsOwn(s: Space, d: nat, i: nat, name: Name)
    requires d in s.dirs && Dots(s, d) && name !in s.dirs[d] && i !in s.dirs
    ensures forall e :: e in s.dirs ==> (OwnParent(WithDir(s, d, i, name), e) <==> OwnParent(s, e))
    ensures !OwnParent(WithDir(s, d, i, name), i)
  {}

  /** What goes away is a file, or a directory that lists nothing but itself and its parent. */
  lemma PruneKeepsTree(s: Space, d: int, i: int, name: Name)
    requires IsTree(s) && Leads(s, d, name, i)
    requires i in s.dirs ==> s.dirs[i].Keys == {DOT, DOTDOT}
    ensures IsTree(Pruned(s, d, i, name))
  {
    hide OneName, Dots, Leads;
    LeadsElsewhere(s, d, name, i);
    var w := Pruned(s, d, i, name);
    PruneKeepsProper(s, d, i, name);
    forall e, n, t ensures Leads(w, e, n, t) <==> Leads(s, e, n, t) && !(e == d && n == name) {
      PruneLeads(s, d, i, name, e, n, t);
    }
    PruneKeepsOwn(s, d, i, name);
    var rank :| Ranked(s, rank);
    assert Ranked(w, rank);
  }

  lemma LeadsElsewhere(s: Space, d: int, name: Name, i: int)
    requires NoneDangles(s) && Leads(s, d, name, i)
    ensures d in s.dirs && i in s.live && i != d
  {}

  lemma PruneKeepsOwn(s: Space, d: int, i: int, name: Name)
    requires Leads(s, d, name, i) && d != i && d in s.dirs
    ensures var w := Pruned(s, d, i, name);
      w.dirs.Keys == s.dirs.Keys - {i} && forall e :: e in w.dirs ==> (OwnParent(w, e) <==> OwnParent(s, e))
  {}

  // ----- an inode that no name leads to -----

  lemma MoreLive(s: Space, i: int)
    requires IsTree(s)
    ensures IsTree(Space(s.dirs, s.live + {i}))
  {
    hide Dots, Leads;
    var w := Space(s.dirs, s.live + {i});
    forall d, n, t ensures Leads(w, d, n, t) <==> Leads(s, d, n, t) {
      SameLeads(s, w, d, n, t);
    }
    forall d | d in w.dirs ensures Dots(w, d) {
      MoreLiveDots(s, i, d);
    }
    var rank :| Ranked(s, rank);
    assert Ranked(w, rank);
  }

  lemma SameLeads(s: Space, w: Space, d: int, n: Name, t: int)
    requires w.dirs == s.dirs
    ensures Leads(w, d, n, t) <==> Leads(s, d, n, t)
  {}

  lemma MoreLiveDots(s: Space, i: int, d: int)
    requires d in s.dirs && Dots(s, d)
    ensures Dots(Space(s.dirs, s.live + {i}), d)
  {
    DotsKept(s, Space(s.dirs, s.live + {i}), d);
  }

  // ----- directories that nobody lists -----

  /** The root, and what some directory lists under a name of its own. */
  ghost predicate Attached(s: Space, d: int) {
    d == ROOT || exists p, n :: Leads(s, p, n, d)
  }

  /** Without the directories that no name leads to. */
  ghost function Trim(s: Space): Space {
    Space(map d | d in s.dirs && Attached(s, d) :: s.dirs[d], s.live)
  }

  lemma NewEntryAttaches(s: Space, w: Space, d: int, name: Name, i: int)
    requires forall e, n, t :: Leads(w, e, n, t) <==> Leads(s, e, n, t) || (e == d && n == name && t == i)
    ensures forall e :: Attached(w, e) <==> Attached(s, e) || e == i
  {
    hide Leads;
    assert Leads(w, d, name, i);
    forall e ensures Attached(w, e) <==> Attached(s, e) || e == i {
      if Attached(s, e) && e != ROOT {
        var p, n :| Leads(s, p, n, e);
        assert Leads(w, p, n, e);
      }
    }
  }

  lemma WithFileLeads(s: Space, d: int, i: nat, name: Name)
    requires d in s.dirs && name !in s.dirs[d] && !Dotted(name)
    ensures forall e, n, t :: Leads(WithFile(s, d, i, name), e, n, t) <==>
      Leads(s, e, n, t) || (e == d && n == name && t == i)
  {}

  lemma WithDirLeads(s: Space, d: nat, i: nat, name: Name)
    requires d in s.dirs && i !in s.dirs && name !in s.dirs[d] && !Dotted(name)
    ensures forall e, n, t :: Leads(WithDir(s, d, i, name), e, n, t) <==>
      Leads(s, e, n, t) || (e == d && n == name && t == i)
  {}

  lemma TrimFile(s: Space, d: int, i: nat, name: Name)
    requires d in Trim(s).dirs && i !in s.dirs && name !in s.dirs[d] && !Dotted(name)
    ensures Trim(WithFile(s, d, i, name)) == WithFile(Trim(s), d, i, name)
  {
    hide Attached;
    WithFileLeads(s, d, i, name);
    NewEntryAttaches(s, WithFile(s, d, i, name), d, name, i);
    assert Trim(WithFile(s, d, i, name)).dirs == WithFile(Trim(s), d, i, name).dirs;
  }

  lemma TrimDir(s: Space, d: nat, i: nat, name: Name)
    requires d in Trim(s).dirs && i !in s.dirs && name !in s.dirs[d] && !Dotted(name)
    ensures Trim(WithDir(s, d, i, name)) == WithDir(Trim(s), d, i, name)
  {
    hide Attached;
    WithDirLeads(s, d, i, name);
    NewEntryAttaches(s, WithDir(s, d, i, name), d, name, i);
    assert Trim(WithDir(s, d, i, name)).dirs == WithDir(Trim(s), d, i, name).dirs;
  }

  lemma PrunedLeads(s: Space, d: int, i: int, name: Name, e: int, n: Name, t: int)
    requires Leads(s, d, name, i) && d != i && (i in s.dirs ==> s.dirs[i].Keys == {DOT, DOTDOT})
    ensures Leads(Pruned(s, d, i, name), e, n, t) <==> Leads(s, e, n, t) && !(e == d && n == name)
  {}

  lemma PrunedAttached(s: Space, d: int, i: int, name: Name, e: int)
    requires Leads(s, d, name, i) && d != i && (i in s.dirs ==> s.dirs[i].Keys == {DOT, DOTDOT}) && e != i
    ensures Attached(Pruned(s, d, i, name), e) <==> Attached(s, e)
  {
    hide Leads;
    assert d in s.dirs by { LeadsFrom(s, d, name, i); }
    if Attached(s, e) && e != ROOT {
      var p, n :| Leads(s, p, n, e);
      PrunedLeads(s, d, i, name, p, n, e);
      if p == d && n == name { OneTarget(s, d, name, i, e); }
    }
    if Attached(Pruned(s, d, i, name), e) && e != ROOT {
      var p, n :| Leads(Pruned(s, d, i, name), p, n, e);
      PrunedLeads(s, d, i, name, p, n, e);
    }
  }

  lemma LeadsFrom(s: Space, d: int, n: Name, t: int)
    requires Leads(s, d, n, t)
    ensures d in s.dirs
  {}

  lemma OneTarget(s: Space, d: int, n: Name, t: int, u: int)
    requires Leads(s, d, n, t) && Leads(s, d, n, u)
    ensures t == u
  {}

  lemma TrimPruned(s: Space, d: int, i: int, name: Name)
    requires d in Trim(s).dirs && Leads(s, d, name, i) && d != i
    requires i in s.dirs ==> s.dirs[i].Keys == {DOT, DOTDOT}
    ensures Trim(Pruned(s, d, i, name)) == Pruned(Trim(s), d, i, name)
  {
    hide Attached, Leads;
    forall e | e != i ensures Attached(Pruned(s, d, i, name), e) <==> Attached(s, e) {
      PrunedAttached(s, d, i, name, e);
    }
    assert Trim(Pruned(s, d, i, name)).dirs == Pruned(Trim(s), d, i, name).dirs;
  }

  /** The namespace as the operations keep it: what hangs from the root is a tree, and a directory that
      nobody lists, as a failed mkdir leaves it, lists nothing either. */
  ghost predicate Tidy(s: Space) {
    && IsTree(Trim(s)) && s.dirs.Keys <= s.live
    && forall d :: d in s.dirs && !Attached(s, d) ==> s.dirs[d] == map[]
  }

  /** A directory that lists anything is in the tree, and lists itself and a parent. */
  lemma TidyDots(s: Space, d: int)
    requires Tidy(s) && d in s.dirs && Attached(s, d)
    ensures d in Trim(s).dirs && Trim(s).dirs[d] == s.dirs[d] && Dots(Trim(s), d)
    ensures DOT in s.dirs[d] && DOTDOT in s.dirs[d]
  {
    hide Attached, RootAbove, NoCycle, NoneDangles, OneName;
    assert d in Trim(s).dirs;
    assert Dots(Trim(s), d);
  }

  lemma TidyListsAttached(s: Space, d: int, n: Name)
    requires Tidy(s) && d in s.dirs && n in s.dirs[d]
    ensures Attached(s, d) && d in Trim(s).dirs
  {
    hide Attached, IsTree;
    assert s.dirs[d] != map[];
  }

  /** Trimming takes no entry away. */
  lemma TidyLeads(s: Space)
    requires Tidy(s)
    ensures forall d, n, t :: Leads(Trim(s), d, n, t) <==> Leads(s, d, n, t)
  {
    hide Attached, IsTree;
    forall d, n, t ensures Leads(Trim(s), d, n, t) <==> Leads(s, d, n, t) {
      if d in s.dirs && n in s.dirs[d] { TidyListsAttached(s, d, n); }
    }
  }

  lemma TidyFile(s: Space, d: int, i: nat, name: Name)
    requires Tidy(s) && d in s.dirs && Attached(s, d) && i !in s.live && name !in s.dirs[d]
    ensures Tidy(WithFile(s, d, i, name))
  {
    hide Attached, IsTree, Dots, Leads;
    TidyDots(s, d);
    TrimFile(s, d, i, name);
    FileKeepsTree(Trim(s), d, i, name);
    WithFileLeads(s, d, i, name);
    NewEntryAttaches(s, WithFile(s, d, i, name), d, name, i);
  }

  lemma TidyDir(s: Space, d: nat, i: nat, name: Name)
    requires Tidy(s) && d in s.dirs && Attached(s, d) && i !in s.live && name !in s.dirs[d]
    ensures Tidy(WithDir(s, d, i, name))
  {
    hide Attached, IsTree, Dots, Leads;
    TidyDots(s, d);
    TrimDir(s, d, i, name);
    DirKeepsTree(Trim(s), d, i, name);
    WithDirLeads(s, d, i, name);
    NewEntryAttaches(s, WithDir(s, d, i, name), d, name, i);
  }

  /** What goes away is a file, or a directory that lists nothing but itself and its parent. */
  lemma TidyPrune(s: Space, d: int, i: int, name: Name)
    requires Tidy(s) && Leads(s, d, name, i) && (i in s.dirs ==> s.dirs[i].Keys == {DOT, DOTDOT})
    ensures Tidy(Pruned(s, d, i, name))
  {
    hide Attached, Dots, Leads, RootAbove, NoCycle, OneName;
    LeadsFrom(s, d, name, i);
    LeadsListed(s, d, name, i);
    TidyListsAttached(s, d, name);
    TidyLeads(s);
    LeadsElsewhere(Trim(s), d, name, i);
    TrimPruned(s, d, i, name);
    PruneKeepsTree(Trim(s), d, i, name);
    forall e | e in Pruned(s, d, i, name).dirs && !Attached(Pruned(s, d, i, name), e)
      ensures Pruned(s, d, i, name).dirs[e] == map[]
    {
      PrunedAttached(s, d, i, name, e);
    }
  }

  lemma LeadsListed(s: Space, d: int, n: Name, t: int)
    requires Leads(s, d, n, t)
    ensures d in s.dirs && n in s.dirs[d] && s.dirs[d][n] == t + 1 && !Dotted(n)
  {}

  /** A blank directory that nobody lists. */
  function WithBlank(s: Space, i: int): Space {
    Space(s.dirs[i := map[]], s.live + {i})
  }

  lemma NewIsLoose(s: Space, i: int)
    requires Tidy(s) && i !in s.live
    ensures i !in s.dirs && !Attached(s, i)
  {
    TidyLeads(s);
    hide Leads, Dots, OneName;
    assert ROOT in Trim(s).dirs;
  }

  lemma TidyBlank(s: Space, i: int)
    requires Tidy(s) && i !in s.live
    ensures Tidy(WithBlank(s, i))
  {
    hide Leads, IsTree, Attached, Trim;
    NewIsLoose(s, i);
    BlankLeads(s, i);
    TrimLoose(s, WithBlank(s, i), i);
    MoreLive(Trim(s), i);
  }

  lemma BlankLeads(s: Space, i: int)
    requires i !in s.dirs
    ensures forall e, n, t :: Leads(WithBlank(s, i), e, n, t) <==> Leads(s, e, n, t)
  {}

  /** Inode i, which nobody lists, does not show in the tree. */
  lemma TrimLoose(s: Space, w: Space, i: int)
    requires forall e, n, t :: Leads(w, e, n, t) <==> Leads(s, e, n, t)
    requires w.live == s.live + {i}
    requires w.dirs == s.dirs || (i !in s.dirs && !Attached(s, i) && w.dirs == s.dirs[i := map[]])
    ensures Trim(w) == Space(Trim(s).dirs, Trim(s).live + {i})
    ensures forall e :: Attached(w, e) <==> Attached(s, e)
  {
    hide Leads, Attached;
    forall e ensures Attached(w, e) <==> Attached(s, e) {
      SameAttached(s, w, e);
    }
    assert Trim(w).dirs == Trim(s).dirs;
  }

  /** An inode that is no directory. */
  lemma TidyLive(s: Space, i: int)
    requires Tidy(s)
    ensures Tidy(Space(s.dirs, s.live + {i}))
  {
    hide Leads, IsTree, Attached, Trim;
    var w := Space(s.dirs, s.live + {i});
    forall e, n, t ensures Leads(w, e, n, t) <==> Leads(s, e, n, t) { SameLeads(s, w, e, n, t); }
    TrimLoose(s, w, i);
    MoreLive(Trim(s), i);
  }

  lemma SameAttached(s: Space, w: Space, e: int)
    requires forall d, n, t :: Leads(w, d, n, t) <==> Leads(s, d, n, t)
    ensures Attached(w, e) <==> Attached(s, e)
  {
    hide Leads;
    if Attached(s, e) && e != ROOT {
      var p, n :| Leads(s, p, n, e);
      assert Leads(w, p, n, e);
    }
  }

  /** Any name leads to an allocated inode; and to a directory of the tree, if to a directory. */
  lemma TidyTarget(s: Space, d: int, n: Name, t: int)
    requires Tidy(s) && d in s.dirs && n in s.dirs[d] && s.dirs[d][n] == t + 1
    ensures t in s.live && (t == d <==> n == DOT || (n == DOTDOT && d == ROOT))
    ensures Dotted(n) ==> t in s.dirs && (t != d ==> s.dirs[t].Keys != {DOT, DOTDOT})
    ensures Attached(s, t)
  {
    hide IsTree, Dots;
    TidyListsAttached(s, d, n);
    TargetInTree(Trim(s), d, n, t);
    if !Dotted(n) { assert Leads(s, d, n, t); }
  }

  /** What leads to a directory that has gone dangles, and without a root there is no tree. */
  lemma GoneDirBreaksTree(s: Space, w: Space, d: int)
    requires Tidy(s) && d in s.dirs && d !in w.live && s.dirs[d].Keys == {DOT, DOTDOT}
    requires forall e :: e in s.dirs && e != d ==> e in w.dirs && w.dirs[e] == s.dirs[e]
    ensures !Tidy(w)
  {
    hide Attached, IsTree, Leads;
    TidyListsAttached(s, d, DOT);
    TidyLeads(s);
    if Tidy(w) {
      TidyLeads(w);
      if d == ROOT {
        RootInTree(w);
      } else {
        var e, n := ListedBy(Trim(s), d);
        LeadsListed(s, e, n, d);
        SameListing(s, w, e, n, d);
        LiveTarget(Trim(w), e, n, d);
      }
    }
  }

  lemma RootInTree(s: Space)
    requires IsTree(Trim(s))
    ensures ROOT in s.live
  {
    hide Dots, OneName, Leads;
    assert ROOT in Trim(s).dirs;
  }

  lemma LiveTarget(s: Space, e: int, n: Name, d: int)
    requires IsTree(s) && Leads(s, e, n, d)
    ensures d in s.live
  {
    hide Dots, OneName, RootAbove, NoCycle;
  }

  /** Its parent lists every directory but the root. */
  lemma ListedBy(s: Space, d: int) returns (e: int, n: Name)
    requires IsTree(s) && d in s.dirs && d != ROOT
    ensures Leads(s, e, n, d) && e != d
  {
    hide OneName, NoCycle;
    assert Dots(s, d) && !OwnParent(s, d);
    e := s.dirs[d][DOTDOT] - 1;
    n :| Leads(s, e, n, d);
  }

  lemma SameListing(s: Space, w: Space, e: int, n: Name, d: int)
    requires Leads(s, e, n, d) && e in w.dirs && w.dirs[e] == s.dirs[e]
    ensures Leads(w, e, n, d)
  {}
}
