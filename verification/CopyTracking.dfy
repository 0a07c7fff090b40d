/** What copy_page_tables leaves in every case, faithful or not, and why an unfaithful copy never
    ends in a sound state.

    s0 is the state before the call and s the one after the first i directory entries.  The tables
    that are copied, and all others that there were, keep their frames and their links.  What can go
    wrong is that a count wraps to zero and get_free_page then gives a page in use out as a table
    (Aliased), that a count wraps and stays too low, or that a new table holds words of its own. */
module CopyTracking {
  import opened Pages
  import opened EagerCopying
  import opened TableCopying

  /** Slot y refers to a frame as before, or to none as before. */
  ghost predicate SameGoal(s0: Mem, s: Mem, y: Slot)
    requires Shape(s0) && Shape(s)
  {
    (LinkOf(s, y).Some? <==> LinkOf(s0, y).Some?) && FrameOf(s, y) == FrameOf(s0, y)
  }

  /** What there was keeps its links; a frame that is not copied keeps its count if it had one. */
  ghost predicate Tracked(s0: Mem, s: Mem, fd: int, td: int, n: int, i: int)
    requires Shape(s0)
  {
    && Shape(s)
    && (forall y :: !InDirs(y, td, i) ==> SameGoal(s0, s, y))
    && (forall d :: td <= d < td + i ==> (DirLink(s, d).Some? <==> DirLink(s0, d - td + fd).Some?))
    && (forall f :: 0 <= f <= PG_PAGES && !Copies(s0, fd, n, f) && s0.count[f] != 0 ==> s.count[f] == s0.count[f])
  }

  /** A page that is copied has become a page table. */
  ghost predicate Aliased(s0: Mem, s: Mem, fd: int, td: int, n: int, i: int)
    requires Shape(s0) && Shape(s)
  {
    exists d :: td <= d < td + i && DirLink(s, d).Some? && Copies(s0, fd, n, FrameOf(s, Dir(d)))
  }

  /** The page has an entry for each one of table a, and is otherwise as it was. */
  ghost predicate Filled(s0: Mem, page: Page, a: int, was: Page)
    requires Shape(s0)
  {
    && |page| == |was|
    && forall t :: 0 <= t < |page| ==>
         if LinkOf(s0, Pte(a, t)).Some? then Present(page[t]) && Frame(page[t]) == FrameOf(s0, Pte(a, t))
         else page[t] == was[t]
  }

  ghost predicate NewTableAt(s0: Mem, s: Mem, fd: int, td: int, n: int, d: int)
    requires Shape(s0) && Shape(s)
  {
    var g := FrameOf(s, Dir(d));
    && Main(g) && !Copies(s0, fd, n, g) && s0.count[g] == 0 && s.count[g] == 1
    && Filled(s0, s.phys[g], d - td + fd, s0.phys[g])
  }

  ghost predicate NewTables(s0: Mem, s: Mem, fd: int, td: int, n: int, i: int)
    requires Shape(s0) && Shape(s)
  {
    forall d :: td <= d < td + i && DirLink(s, d).Some? ==> NewTableAt(s0, s, fd, td, n, d)
  }

  /** A frame that was free is a new table, or still free and as it was. */
  ghost predicate FreeKept(s0: Mem, s: Mem, td: int, i: int)
    requires Shape(s0) && Shape(s)
  {
    forall f :: Main(f) && s0.count[f] == 0 ==>
      || (s.count[f] == 0 && s.phys[f] == s0.phys[f])
      || exists d :: td <= d < td + i && FrameOf(s, Dir(d)) == f
  }

  /** A copied frame is counted at most once for each user, and by an unsigned char. */
  ghost predicate CopyCounts(s0: Mem, s: Mem, fd: int, td: int, n: int, i: int)
    requires Shape(s0) && Shape(s)
  {
    forall f :: Copies(s0, fd, n, f) && 0 <= f < PG_PAGES ==>
      && 0 <= s.count[f] <= |Cap(s0, fd, td, i, f)|
      && (Cap(s0, fd, td, i, f) != Users(s0, f) ==> s.count[f] <= 255)
  }

  /** At and above the bound nothing is free; below it, what was. */
  ghost predicate Follows(count0: seq<int>, count: seq<int>, bound: int) {
    && |count| == |count0|
    && (forall j :: 0 <= j < |count| && bound <= j ==> count[j] != 0)
    && (forall j :: 0 <= j < |count| && j < bound ==> (count[j] == 0 <==> count0[j] == 0))
  }

  /** While no count wraps, the new tables are where GivenTo says. */
  ghost predicate InOrder(s0: Mem, s: Mem, fd: int, td: int, i: nat)
    requires Shape(s0) && Shape(s)
  {
    && Follows(s0.count, s.count, Bound(s0, fd, i))
    && forall d :: td <= d < td + i && DirLink(s, d).Some? ==> FrameOf(s, Dir(d)) == GivenTo(s0, fd, d - td)
  }

  ghost predicate Exactly(s0: Mem, s: Mem, fd: int, td: int, n: int, i: nat)
    requires Shape(s0) && Shape(s)
  {
    && NewTables(s0, s, fd, td, n, i) && FreeKept(s0, s, td, i) && CopyCounts(s0, s, fd, td, n, i)
    && (NoOverflow(s0, fd, td, n) ==> InOrder(s0, s, fd, td, i))
  }

  // ----- the start -----

  lemma CapOfNone(s: Mem, fd: int, td: int, f: int)
    requires Shape(s)
    ensures Cap(s, fd, td, 0, f) == Users(s, f)
  {}

  lemma CopiedIsMain(s: Mem, fd: int, n: int, f: int)
    requires Inv(s) && Copies(s, fd, n, f)
    ensures Main(f) && s.count[f] > 0 && s.count[f] == |Users(s, f)|
  {
    hide Users, LinkOf;
    var d, t :| fd <= d < fd + n && Refers(s, Pte(d, t), f);
    InUseAtStart(s, Pte(d, t), f);
  }

  lemma TrackedAtStart(s: Mem, fd: int, td: int, n: int)
    requires Inv(s)
    ensures Tracked(s, s, fd, td, n, 0) && Exactly(s, s, fd, td, n, 0)
  {
    hide Users, LinkOf, Cap, Copies;
    forall f | Copies(s, fd, n, f)
      ensures 0 <= f < PG_PAGES && s.count[f] == |Cap(s, fd, td, 0, f)| && Cap(s, fd, td, 0, f) == Users(s, f)
    {
      CopiedIsMain(s, fd, n, f);
      CapOfNone(s, fd, td, f);
    }
  }

  // ----- what the code reads and takes -----

  lemma TablesNotCopied(s: Mem, fd: int, n: int, e: int)
    requires Inv(s) && DirLink(s, e).Some?
    ensures Main(DirLink(s, e).value.frame) && s.count[DirLink(s, e).value.frame] > 0
    ensures !Copies(s, fd, n, DirLink(s, e).value.frame)
  {
    TableInUse(s, e);
    forall d, t ensures !Refers(s, Pte(d, t), DirLink(s, e).value.frame) {
      if LinkOf(s, Pte(d, t)).Some? { MappedIsNoTable(s, d, t, e); }
    }
  }

  lemma DirSame(s0: Mem, s: Mem, d: int)
    requires Shape(s0) && Shape(s) && SameGoal(s0, s, Dir(d))
    ensures DirLink(s, d) == DirLink(s0, d)
  {}

  /** The i-th tables, as s0 had them. */
  lemma TablesThere(s0: Mem, s: Mem, fd: int, td: int, n: int, i: int)
    requires Inv(s0) && Ranges(fd, td, n) && Tracked(s0, s, fd, td, n, i) && 0 <= i < n
    ensures DirLink(s, fd + i) == DirLink(s0, fd + i) && DirLink(s, td + i) == DirLink(s0, td + i)
    ensures DirLink(s, fd + i).Some? ==>
      && Main(DirLink(s, fd + i).value.frame)
      && s.count[DirLink(s, fd + i).value.frame] == s0.count[DirLink(s, fd + i).value.frame] > 0
      && !Copies(s0, fd, n, DirLink(s, fd + i).value.frame)
  {
    hide LinkOf, Copies, DirLink;
    assert !InDirs(Dir(fd + i), td, i) && !InDirs(Dir(td + i), td, i);
    DirSame(s0, s, fd + i);
    DirSame(s0, s, td + i);
    if DirLink(s, fd + i).Some? { TablesNotCopied(s0, fd, n, fd + i); }
  }

  /** The words of the table to copy go where s0's did. */
  lemma WordsThere(s0: Mem, s: Mem, fd: int, td: int, n: int, i: int)
    requires Inv(s0) && Ranges(fd, td, n) && Tracked(s0, s, fd, td, n, i) && 0 <= i < n
    requires DirLink(s, fd + i).Some? && Main(DirLink(s, fd + i).value.frame)
    ensures var src, a := TablePage(s, fd + i), fd + i;
      forall t :: 0 <= t < ENTRIES ==>
        && (Present(src[t]) <==> LinkOf(s0, Pte(a, t)).Some?)
        && (Present(src[t]) ==>
              Frame(src[t]) == FrameOf(s0, Pte(a, t)) && Main(Frame(src[t])) && Copies(s0, fd, n, Frame(src[t])))
    ensures MapsMain(TablePage(s, fd + i))
  {
    var src, a := TablePage(s, fd + i), fd + i;
    forall t | 0 <= t < ENTRIES
      ensures Present(src[t]) <==> LinkOf(s0, Pte(a, t)).Some?
      ensures Present(src[t]) ==>
        Frame(src[t]) == FrameOf(s0, Pte(a, t)) && Main(Frame(src[t])) && Copies(s0, fd, n, Frame(src[t]))
    {
      assert !InDirs(Pte(a, t), td, i) && SameGoal(s0, s, Pte(a, t));
      if LinkOf(s0, Pte(a, t)).Some? {
        MappedIsMain(s0, a, t);
        assert Refers(s0, Pte(a, t), FrameOf(s0, Pte(a, t)));
      }
    }
  }

  /** What get_free_page gives out is main memory, and no table that s0 had. */
  lemma TakenThere(s0: Mem, s: Mem, fd: int, td: int, n: int, i: int, g: int)
    requires Inv(s0) && Tracked(s0, s, fd, td, n, i) && 0 < g <= PG_PAGES && s.count[g] == 0
    ensures Main(g) && (Copies(s0, fd, n, g) || s0.count[g] == 0)
    ensures forall e :: DirLink(s0, e).Some? ==> DirLink(s0, e).value.frame != g
  {
    hide LinkOf, Copies, DirLink;
    if Copies(s0, fd, n, g) { CopiedIsMain(s0, fd, n, g); }
    forall e | DirLink(s0, e).Some? ensures DirLink(s0, e).value.frame != g { TablesNotCopied(s0, fd, n, e); }
  }

  // ----- one directory entry -----

  /** From s to s2: g becomes the table of b, and what a has is copied to it. */
  ghost predicate DirDone(s: Mem, s2: Mem, a: int, b: int, g: int) {
    && Shape(s) && DirLink(s, a).Some? && Main(DirLink(s, a).value.frame) && IsUser(b) && DirLink(s, b).None?
    && Main(g) && g != DirLink(s, a).value.frame && TablesApart(WithTable(s, b, g), a, b)
    && s2 == TableCopy(WithTable(s, b, g), a, b, ENTRIES)
  }

  lemma DirEffect(s: Mem, s2: Mem, a: int, b: int, g: int)
    requires DirDone(s, s2, a, b, g)
    ensures Shape(s2) && DirLink(s2, b) == Some(Link(g, true)) && forall d :: d != b ==> DirLink(s2, d) == DirLink(s, d)
    ensures s2.count == CountAfter(s.count[g := 1], TablePage(s, a), ENTRIES)
    ensures s2.phys[DirLink(s, a).value.frame] == ProtectedPage(TablePage(s, a), ENTRIES)
    ensures s2.phys[g] == FilledPage(s.phys[g], TablePage(s, a), ENTRIES)
    ensures forall f :: 0 <= f < PG_PAGES && f != g && f != DirLink(s, a).value.frame ==> s2.phys[f] == s.phys[f]
  {
    FullFacts(g);
    var s1 := WithTable(s, b, g);
    TableCopyApart(s1, a, b, ENTRIES);
    assert DirLink(s1, a) == DirLink(s, a);
    assert TablePage(s1, a) == TablePage(s, a);
  }

  lemma OtherSlots(s: Mem, s2: Mem, a: int, b: int, g: int, y: Slot)
    requires DirDone(s, s2, a, b, g) && y.d != b && (DirLink(s, y.d).Some? ==> DirLink(s, y.d).value.frame != g)
    ensures SameGoal(s, s2, y)
  {
    hide DirDone, TableCopy;
    DirEffect(s, s2, a, b, g);
    DoneParts(s, s2, a, b, g);
    if y.Pte? && DirLink(s, y.d) == DirLink(s, a) && 0 <= y.t < ENTRIES {
      ProtectFacts(TablePage(s, a)[y.t]);
    }
  }

  lemma DoneParts(s: Mem, s2: Mem, a: int, b: int, g: int)
    requires DirDone(s, s2, a, b, g)
    ensures Shape(s) && DirLink(s, a).Some? && Main(DirLink(s, a).value.frame) && Main(g)
    ensures g != DirLink(s, a).value.frame && DirLink(s, b).None?
  {}

  /** A count changes only for a frame that a maps. */
  lemma OtherCounts(s0: Mem, s: Mem, s2: Mem, fd: int, td: int, n: int, i: int, g: int, f: int)
    requires Inv(s0) && Ranges(fd, td, n) && Tracked(s0, s, fd, td, n, i) && 0 <= i < n
    requires DirDone(s, s2, fd + i, td + i, g) && 0 <= f <= PG_PAGES && !Copies(s0, fd, n, f)
    ensures |s2.count| == |s.count| && s2.count[f] == s.count[g := 1][f]
  {
    hide Copies, LinkOf;
    WordsThere(s0, s, fd, td, n, i);
    DirEffect(s, s2, fd + i, td + i, g);
    NotCounted(s.count[g := 1], TablePage(s, fd + i), ENTRIES, f);
  }

  lemma {:induction false} NotCounted(count: seq<int>, src: Page, nr: nat, f: int)
    requires nr <= |src| && 0 <= f < |count| && forall t :: 0 <= t < nr && Present(src[t]) ==> Frame(src[t]) != f
    ensures CountAfter(count, src, nr)[f] == count[f]
  {
    if nr > 0 { NotCounted(count, src, nr - 1, f); }
  }

  lemma StepTracked(s0: Mem, s: Mem, s2: Mem, fd: int, td: int, n: int, i: int, g: int)
    requires Inv(s0) && Ranges(fd, td, n) && Tracked(s0, s, fd, td, n, i) && 0 <= i < n
    requires DirDone(s, s2, fd + i, td + i, g) && g <= PG_PAGES && s.count[g] == 0
    ensures Tracked(s0, s2, fd, td, n, i + 1)
  {
    hide Copies, LinkOf, DirLink, DirDone;
    DoneParts(s, s2, fd + i, td + i, g);
    DirEffect(s, s2, fd + i, td + i, g);
    TablesThere(s0, s, fd, td, n, i);
    TakenThere(s0, s, fd, td, n, i, g);
    forall y | !InDirs(y, td, i + 1) ensures SameGoal(s0, s2, y) {
      assert !InDirs(y, td, i) && !InDirs(Dir(y.d), td, i);
      DirSame(s0, s, y.d);
      OtherSlots(s, s2, fd + i, td + i, g, y);
    }
    forall f | 0 <= f <= PG_PAGES && !Copies(s0, fd, n, f) && s0.count[f] != 0 ensures s2.count[f] == s0.count[f] {
      OtherCounts(s0, s, s2, fd, td, n, i, g, f);
    }
  }

  lemma StepAliased(s0: Mem, s: Mem, s2: Mem, fd: int, td: int, n: int, i: int, g: int)
    requires Inv(s0) && 0 <= i < n && Shape(s) && DirDone(s, s2, fd + i, td + i, g)
    requires Aliased(s0, s, fd, td, n, i) || Copies(s0, fd, n, g)
    ensures Shape(s2) && Aliased(s0, s2, fd, td, n, i + 1)
  {
    hide Copies, DirDone;
    DirEffect(s, s2, fd + i, td + i, g);
    if Copies(s0, fd, n, g) {
      assert FrameOf(s2, Dir(td + i)) == g;
    } else {
      var d :| td <= d < td + i && DirLink(s, d).Some? && Copies(s0, fd, n, FrameOf(s, Dir(d)));
      assert FrameOf(s2, Dir(d)) == FrameOf(s, Dir(d));
    }
  }

  // ----- while no page that is copied becomes a table -----

  lemma CapStep(s0: Mem, s: Mem, fd: int, td: int, n: int, i: int, f: int)
    requires Inv(s0) && Ranges(fd, td, n) && Tracked(s0, s, fd, td, n, i) && 0 <= i < n
    requires DirLink(s, fd + i).Some? && Main(DirLink(s, fd + i).value.frame) && DirLink(s, td + i).None?
    ensures var adds := Adds(TablePage(s, fd + i), td + i, ENTRIES, f);
      && Cap(s0, fd, td, i + 1, f) == Cap(s0, fd, td, i, f) + adds
      && |Cap(s0, fd, td, i + 1, f)| == |Cap(s0, fd, td, i, f)| + |adds|
  {
    hide Copies;
    WordsThere(s0, s, fd, td, n, i);
    TablesThere(s0, s, fd, td, n, i);
    var src := TablePage(s, fd + i);
    var adds := Adds(src, td + i, ENTRIES, f);
    assert SameWords(s0, src, fd + i);
    hide Users, Present, Frame, Inv, LinkOf, Cap, Adds;
    forall x ensures x in Cap(s0, fd, td, i + 1, f) <==> x in Cap(s0, fd, td, i, f) || x in adds
      ensures x in adds ==> x !in Cap(s0, fd, td, i, f)
    {
      CapMember(s0, src, fd, td, i, f, x);
    }
    assert Cap(s0, fd, td, i, f) !! adds;
  }

  /** The words of the page go where those of table a go. */
  ghost predicate SameWords(s: Mem, src: Page, a: int)
    requires Shape(s)
  {
    |src| == ENTRIES && forall t :: 0 <= t < ENTRIES ==>
      && (Present(src[t]) <==> LinkOf(s, Pte(a, t)).Some?)
      && (Present(src[t]) ==> Frame(src[t]) == FrameOf(s, Pte(a, t)))
  }

  lemma CapMember(s: Mem, src: Page, fd: int, td: int, i: int, f: int, x: Slot)
    requires Shape(s) && FIRST_USER <= td && 0 <= i && td + i < ENTRIES && DirLink(s, td + i).None?
    requires |src| == ENTRIES && SameWords(s, src, fd + i)
    ensures var adds := Adds(src, td + i, ENTRIES, f);
      && (x in Cap(s, fd, td, i + 1, f) <==> x in Cap(s, fd, td, i, f) || x in adds)
      && (x in adds ==> x !in Cap(s, fd, td, i, f))
  {
    hide Cap, Adds, LinkOf, SameWords;
    InCap(s, fd, td, i, f, x);
    InCap(s, fd, td, i + 1, f, x);
    AddsArePtes(src, td + i, ENTRIES, f, x);
    if x.d == td + i {
      AbsentRefersNothing(s, td + i, f, x);
      if x.Pte? { AddsAre(s, src, fd + i, td + i, f, x.t); }
    }
  }

  lemma AbsentRefersNothing(s: Mem, d: int, f: int, x: Slot)
    requires Shape(s) && DirLink(s, d).None? && x.d == d
    ensures !Refers(s, x, f)
  {}

  lemma AddsArePtes(src: Page, b: int, nr: nat, f: int, x: Slot)
    requires nr <= |src|
    ensures x in Adds(src, b, nr, f) ==> x.Pte? && x.d == b
  {}

  lemma InCap(s: Mem, fd: int, td: int, i: int, f: int, x: Slot)
    requires Shape(s) && FIRST_USER <= td && td + i <= ENTRIES
    ensures x in Cap(s, fd, td, i, f) <==> Refers(s, x, f) || CopyRefers(s, fd, td, i, f, x)
  {
    if CopyRefers(s, fd, td, i, f, x) { CapHolds(s, fd, td, i, f, x); }
  }

  lemma AddsAre(s0: Mem, src: Page, a: int, b: int, f: int, t: int)
    requires Shape(s0) && SameWords(s0, src, a)
    ensures Pte(b, t) in Adds(src, b, ENTRIES, f) <==> Refers(s0, Pte(a, t), f)
  {
    hide Present, Frame;
    if 0 <= t < ENTRIES && Present(src[t]) && Frame(src[t]) == f {
      assert Pte(b, t) in Adds(src, b, ENTRIES, f);
    }
  }

  lemma CapSkip(s0: Mem, fd: int, td: int, i: int, f: int)
    requires Shape(s0) && 0 <= i && FIRST_USER <= td && td + i < ENTRIES && DirLink(s0, fd + i).None?
    ensures Cap(s0, fd, td, i + 1, f) == Cap(s0, fd, td, i, f)
  {
    hide Cap, LinkOf;
    forall x ensures x in Cap(s0, fd, td, i + 1, f) <==> x in Cap(s0, fd, td, i, f) {
      InCap(s0, fd, td, i, f, x);
      InCap(s0, fd, td, i + 1, f, x);
      if x.Pte? && x.d == td + i { AbsentRefersNothing(s0, fd + i, f, Pte(fd + i, x.t)); }
    }
  }

  lemma StepCounts(s0: Mem, s: Mem, s2: Mem, fd: int, td: int, n: int, i: int, g: int)
    requires Inv(s0) && Ranges(fd, td, n) && Tracked(s0, s, fd, td, n, i) && 0 <= i < n
    requires DirDone(s, s2, fd + i, td + i, g) && CopyCounts(s0, s, fd, td, n, i) && !Copies(s0, fd, n, g)
    ensures Shape(s2) && CopyCounts(s0, s2, fd, td, n, i + 1)
  {
    hide Copies, LinkOf, DirLink, DirDone, Cap, Users, Adds;
    DoneParts(s, s2, fd + i, td + i, g);
    DirEffect(s, s2, fd + i, td + i, g);
    forall f | Copies(s0, fd, n, f) && 0 <= f < PG_PAGES
      ensures 0 <= s2.count[f] <= |Cap(s0, fd, td, i + 1, f)|
      ensures Cap(s0, fd, td, i + 1, f) != Users(s0, f) ==> s2.count[f] <= 255
    {
      CapStep(s0, s, fd, td, n, i, f);
      CountBounds(s.count[g := 1], TablePage(s, fd + i), td + i, ENTRIES, f);
      EmptyAdds(Cap(s0, fd, td, i, f), Adds(TablePage(s, fd + i), td + i, ENTRIES, f));
    }
  }

  lemma EmptyAdds(a: set<Slot>, b: set<Slot>)
    ensures |b| == 0 ==> a + b == a
  {}

  lemma StepNewTables(s0: Mem, s: Mem, s2: Mem, fd: int, td: int, n: int, i: int, g: int)
    requires Inv(s0) && Ranges(fd, td, n) && Tracked(s0, s, fd, td, n, i) && 0 <= i < n
    requires DirDone(s, s2, fd + i, td + i, g) && s.count[g] == 0 && !Copies(s0, fd, n, g)
    requires NewTables(s0, s, fd, td, n, i) && FreeKept(s0, s, td, i)
    ensures Shape(s2) && NewTables(s0, s2, fd, td, n, i + 1) && FreeKept(s0, s2, td, i + 1)
  {
    hide Copies, DirLink, DirDone, Filled, Protect;
    DoneParts(s, s2, fd + i, td + i, g);
    DirEffect(s, s2, fd + i, td + i, g);
    TablesThere(s0, s, fd, td, n, i);
    TakenThere(s0, s, fd, td, n, i, g);
    NewTableFilled(s0, s, s2, fd, td, n, i, g);
    OldTablesStay(s0, s, s2, fd, td, n, i, g);
    FreeStays(s0, s, s2, fd, td, n, i, g);
  }

  lemma NewTableFilled(s0: Mem, s: Mem, s2: Mem, fd: int, td: int, n: int, i: int, g: int)
    requires Inv(s0) && Ranges(fd, td, n) && Tracked(s0, s, fd, td, n, i) && 0 <= i < n
    requires DirDone(s, s2, fd + i, td + i, g) && s.count[g] == 0 && !Copies(s0, fd, n, g)
    requires NewTables(s0, s, fd, td, n, i) && FreeKept(s0, s, td, i)
    ensures Shape(s2) && NewTableAt(s0, s2, fd, td, n, td + i)
  {
    hide Copies, DirDone, LinkOf, NewTables;
    DoneParts(s, s2, fd + i, td + i, g);
    DirEffect(s, s2, fd + i, td + i, g);
    TakenThere(s0, s, fd, td, n, i, g);
    DirRefers(s2, td + i);
    OtherCounts(s0, s, s2, fd, td, n, i, g, g);
    WordsThere(s0, s, fd, td, n, i);
    StillFree(s0, s, fd, td, n, i, g);
    var src := TablePage(s, fd + i);
    forall t | 0 <= t < ENTRIES && Present(src[t])
      ensures Present(s2.phys[g][t]) && Frame(s2.phys[g][t]) == Frame(src[t])
    {
      ProtectFacts(src[t]);
    }
  }

  /** What has a count of zero has not become a table. */
  lemma StillFree(s0: Mem, s: Mem, fd: int, td: int, n: int, i: int, g: int)
    requires Shape(s0) && Shape(s) && NewTables(s0, s, fd, td, n, i) && FreeKept(s0, s, td, i)
    requires Main(g) && s0.count[g] == 0 && s.count[g] == 0
    ensures s.phys[g] == s0.phys[g]
  {
    hide Copies, Filled;
    forall d | td <= d < td + i ensures FrameOf(s, Dir(d)) != g {
      DirRefers(s, d);
      assert DirLink(s, d).Some? ==> NewTableAt(s0, s, fd, td, n, d);
    }
  }

  lemma OldTablesStay(s0: Mem, s: Mem, s2: Mem, fd: int, td: int, n: int, i: int, g: int)
    requires Inv(s0) && Ranges(fd, td, n) && Tracked(s0, s, fd, td, n, i) && 0 <= i < n
    requires DirDone(s, s2, fd + i, td + i, g) && s.count[g] == 0 && NewTables(s0, s, fd, td, n, i)
    ensures Shape(s2) && forall d :: td <= d < td + i && DirLink(s2, d).Some? ==> NewTableAt(s0, s2, fd, td, n, d)
  {
    hide Copies, DirDone, LinkOf, Filled, DirLink;
    DoneParts(s, s2, fd + i, td + i, g);
    DirEffect(s, s2, fd + i, td + i, g);
    TablesThere(s0, s, fd, td, n, i);
    forall d | td <= d < td + i && DirLink(s2, d).Some? ensures NewTableAt(s0, s2, fd, td, n, d) {
      assert NewTableAt(s0, s, fd, td, n, d);
      DirRefers(s, d);
      DirRefers(s2, d);
      OtherCounts(s0, s, s2, fd, td, n, i, g, FrameOf(s, Dir(d)));
    }
  }

  lemma FreeStays(s0: Mem, s: Mem, s2: Mem, fd: int, td: int, n: int, i: int, g: int)
    requires Inv(s0) && Ranges(fd, td, n) && Tracked(s0, s, fd, td, n, i) && 0 <= i < n
    requires DirDone(s, s2, fd + i, td + i, g) && s.count[g] == 0 && FreeKept(s0, s, td, i)
    ensures Shape(s2) && FreeKept(s0, s2, td, i + 1)
  {
    hide Copies, DirDone, LinkOf, DirLink;
    DoneParts(s, s2, fd + i, td + i, g);
    DirEffect(s, s2, fd + i, td + i, g);
    TablesThere(s0, s, fd, td, n, i);
    DirRefers(s2, td + i);
    forall f | Main(f) && s0.count[f] == 0
      ensures
        || (s2.count[f] == 0 && s2.phys[f] == s0.phys[f])
        || exists d :: td <= d < td + i + 1 && FrameOf(s2, Dir(d)) == f
    {
      if f == g {
        assert FrameOf(s2, Dir(td + i)) == f;
      } else if s.count[f] == 0 && s.phys[f] == s0.phys[f] {
        if Copies(s0, fd, n, f) { CopiedIsMain(s0, fd, n, f); }
        OtherCounts(s0, s, s2, fd, td, n, i, g, f);
      } else {
        var d :| td <= d < td + i && FrameOf(s, Dir(d)) == f;
        DirRefers(s, d);
        DirRefers(s2, d);
        assert FrameOf(s2, Dir(d)) == f;
      }
    }
  }

  /** With no overflow a copied frame never seems free. */
  lemma NoWrap(s0: Mem, s: Mem, s2: Mem, fd: int, td: int, n: int, i: int, g: int, f: int)
    requires Inv(s0) && Ranges(fd, td, n) && Tracked(s0, s, fd, td, n, i) && 0 <= i < n && NoOverflow(s0, fd, td, n)
    requires DirDone(s, s2, fd + i, td + i, g) && CopyCounts(s0, s, fd, td, n, i) && !Copies(s0, fd, n, g)
    requires Copies(s0, fd, n, f) && Main(f) && s.count[f] != 0
    ensures Shape(s2) && s2.count[f] != 0
  {
    hide Copies, LinkOf, DirLink, DirDone, Cap, Users, Adds;
    DoneParts(s, s2, fd + i, td + i, g);
    DirEffect(s, s2, fd + i, td + i, g);
    CapStep(s0, s, fd, td, n, i, f);
    CapGrows(s0, fd, td, i + 1, n, f);
    CountBounds(s.count[g := 1], TablePage(s, fd + i), td + i, ENTRIES, f);
  }

  lemma CapGrows(s: Mem, fd: int, td: int, i: int, n: int, f: int)
    requires Shape(s) && i <= n
    ensures Cap(s, fd, td, i, f) <= Cap(s, fd, td, n, f) && |Cap(s, fd, td, i, f)| <= |Cap(s, fd, td, n, f)|
  {
    assert Cap(s, fd, td, i, f) <= Cap(s, fd, td, n, f);
    FewerSlots(Cap(s, fd, td, i, f), Cap(s, fd, td, n, f));
  }

  lemma FewerSlots(a: set<Slot>, b: set<Slot>)
    requires a <= b
    ensures |a| <= |b|
  {
    assert b == a + (b - a);
  }

  /** While the counts follow, get_free_page gives out the next frame in order. */
  lemma NextInOrder(count0: seq<int>, count: seq<int>, bound: int, g: int)
    requires Follows(count0, count, bound) && 0 <= bound <= |count|
    requires g == NextFree(count, |count|) && g > 0
    ensures g == NextFree(count0, bound)
  {
    NextFreeIs(count0, bound, g);
  }

  lemma StepOrder(s0: Mem, s: Mem, s2: Mem, fd: int, td: int, n: int, i: int, g: int)
    requires Inv(s0) && Ranges(fd, td, n) && Tracked(s0, s, fd, td, n, i) && 0 <= i < n && NoOverflow(s0, fd, td, n)
    requires DirDone(s, s2, fd + i, td + i, g) && CopyCounts(s0, s, fd, td, n, i) && !Copies(s0, fd, n, g)
    requires InOrder(s0, s, fd, td, i) && g == NextFree(s.count, PG_PAGES + 1)
    ensures Shape(s2) && InOrder(s0, s2, fd, td, i + 1)
  {
    hide Copies, LinkOf, DirLink, DirDone, NoOverflow, CopyCounts, Tracked, Inv;
    DoneParts(s, s2, fd + i, td + i, g);
    DirEffect(s, s2, fd + i, td + i, g);
    TrackedShape(s0, s, fd, td, n, i);
    TablesThere(s0, s, fd, td, n, i);
    DirRefers(s2, td + i);
    NextInOrder(s0.count, s.count, Bound(s0, fd, i), g);
    assert Bound(s0, fd, i + 1) == g == GivenTo(s0, fd, i);
    forall j | 0 <= j <= PG_PAGES && j != g ensures s2.count[j] == 0 <==> s.count[j] == 0 {
      SameZero(s0, s, s2, fd, td, n, i, g, j);
    }
    OtherCounts(s0, s, s2, fd, td, n, i, g, g);
    forall d | td <= d < td + i + 1 && DirLink(s2, d).Some? ensures FrameOf(s2, Dir(d)) == GivenTo(s0, fd, d - td) {
      if d < td + i { DirRefers(s, d); DirRefers(s2, d); }
    }
  }

  lemma TrackedShape(s0: Mem, s: Mem, fd: int, td: int, n: int, i: int)
    requires Inv(s0) && Tracked(s0, s, fd, td, n, i)
    ensures Shape(s0) && Shape(s)
  {}

  lemma SameZero(s0: Mem, s: Mem, s2: Mem, fd: int, td: int, n: int, i: int, g: int, j: int)
    requires Inv(s0) && Ranges(fd, td, n) && Tracked(s0, s, fd, td, n, i) && 0 <= i < n && NoOverflow(s0, fd, td, n)
    requires DirDone(s, s2, fd + i, td + i, g) && CopyCounts(s0, s, fd, td, n, i) && !Copies(s0, fd, n, g)
    requires InOrder(s0, s, fd, td, i) && 0 <= j <= PG_PAGES && j != g
    ensures Shape(s2) && (s2.count[j] == 0 <==> s.count[j] == 0)
  {
    hide Copies, LinkOf, DirLink, DirDone, NoOverflow, CopyCounts;
    DoneParts(s, s2, fd + i, td + i, g);
    DirEffect(s, s2, fd + i, td + i, g);
    if Copies(s0, fd, n, j) {
      CopiedIsMain(s0, fd, n, j);
      NoWrap(s0, s, s2, fd, td, n, i, g, j);
    } else {
      OtherCounts(s0, s, s2, fd, td, n, i, g, j);
    }
  }

  /** One directory entry, whatever happens. */
  lemma StepExactly(s0: Mem, s: Mem, s2: Mem, fd: int, td: int, n: int, i: int, g: int)
    requires Inv(s0) && Ranges(fd, td, n) && Tracked(s0, s, fd, td, n, i) && 0 <= i < n
    requires DirDone(s, s2, fd + i, td + i, g) && g == NextFree(s.count, PG_PAGES + 1) && g > 0
    requires Aliased(s0, s, fd, td, n, i) || Exactly(s0, s, fd, td, n, i)
    ensures Tracked(s0, s2, fd, td, n, i + 1)
    ensures Aliased(s0, s2, fd, td, n, i + 1) || Exactly(s0, s2, fd, td, n, i + 1)
  {
    StepTracked(s0, s, s2, fd, td, n, i, g);
    hide Copies, DirDone, NewTables, FreeKept, CopyCounts, InOrder, NoOverflow, Tracked, Inv;
    TrackedShape(s0, s, fd, td, n, i);
    if Aliased(s0, s, fd, td, n, i) || Copies(s0, fd, n, g) {
      StepAliased(s0, s, s2, fd, td, n, i, g);
    } else {
      StepNewTables(s0, s, s2, fd, td, n, i, g);
      StepCounts(s0, s, s2, fd, td, n, i, g);
      if NoOverflow(s0, fd, td, n) { StepOrder(s0, s, s2, fd, td, n, i, g); }
    }
  }

  lemma SkipTracked(s0: Mem, s: Mem, fd: int, td: int, n: int, i: int)
    requires Inv(s0) && Ranges(fd, td, n) && Tracked(s0, s, fd, td, n, i) && 0 <= i < n
    requires DirLink(s, fd + i).None? && DirLink(s, td + i).None?
    requires Aliased(s0, s, fd, td, n, i) || Exactly(s0, s, fd, td, n, i)
    ensures Tracked(s0, s, fd, td, n, i + 1)
    ensures Aliased(s0, s, fd, td, n, i + 1) || Exactly(s0, s, fd, td, n, i + 1)
  {
    hide Copies, DirLink, LinkOf, Cap, Users, NewTableAt;
    TablesThere(s0, s, fd, td, n, i);
    if !Aliased(s0, s, fd, td, n, i) {
      forall f ensures Cap(s0, fd, td, i + 1, f) == Cap(s0, fd, td, i, f) { CapSkip(s0, fd, td, i, f); }
      assert Bound(s0, fd, i + 1) == Bound(s0, fd, i);
    }
  }

  // ----- the end -----

  /** A page cannot be both a table and mapped. */
  lemma AliasedIsUnsound(s0: Mem, s: Mem, fd: int, td: int, n: int, i: int)
    requires Inv(s0) && Ranges(fd, td, n) && 0 <= i <= n && Tracked(s0, s, fd, td, n, i) && Aliased(s0, s, fd, td, n, i)
    ensures !Inv(s)
  {
    var d :| td <= d < td + i && DirLink(s, d).Some? && Copies(s0, fd, n, FrameOf(s, Dir(d)));
    var e, t :| fd <= e < fd + n && Refers(s0, Pte(e, t), FrameOf(s, Dir(d)));
    assert !InDirs(Pte(e, t), td, i) && SameGoal(s0, s, Pte(e, t));
    DirRefers(s, d);
    assert LinkOf(s, Dir(d)).Some? && LinkOf(s, Dir(d)).value.writable;
    assert LinkOf(s, Pte(e, t)).Some?;
    assert !Exclusive(s);
  }

  /** Whoever refers to a frame before, or would if its page were copied, does so afterwards. */
  lemma CapRefers(s0: Mem, s: Mem, fd: int, td: int, n: int, f: int)
    requires Inv(s0) && Ranges(fd, td, n) && Tracked(s0, s, fd, td, n, n) && NewTables(s0, s, fd, td, n, n)
    requires forall d :: td <= d < td + n ==> DirLink(s0, d).None?
    ensures Cap(s0, fd, td, n, f) <= Users(s, f)
  {
    hide Cap, Users, LinkOf, Copies;
    forall x | x in Cap(s0, fd, td, n, f) ensures x in Users(s, f) {
      InCap(s0, fd, td, n, f, x);
      if Refers(s0, x, f) {
        if InDirs(x, td, n) { AbsentRefersNothing(s0, x.d, f, x); }
        assert SameGoal(s0, s, x);
      } else {
        CopyRefersNow(s0, s, fd, td, n, f, x);
      }
    }
  }

  lemma CopyRefersNow(s0: Mem, s: Mem, fd: int, td: int, n: int, f: int, x: Slot)
    requires Inv(s0) && Ranges(fd, td, n) && Tracked(s0, s, fd, td, n, n) && NewTables(s0, s, fd, td, n, n)
    requires CopyRefers(s0, fd, td, n, f, x)
    ensures Refers(s, x, f)
  {
    hide Copies, Users;
    var a := x.d - td + fd;
    assert LinkOf(s0, Pte(a, x.t)).Some? && DirLink(s0, a).Some?;
    assert DirLink(s, x.d).Some? && NewTableAt(s0, s, fd, td, n, x.d);
  }

  /** A count that has passed what a char holds does not say how many users there are. */
  lemma OverflowIsUnsound(s0: Mem, s: Mem, fd: int, td: int, n: int)
    requires Inv(s0) && Ranges(fd, td, n) && Tracked(s0, s, fd, td, n, n) && Exactly(s0, s, fd, td, n, n)
    requires forall d :: td <= d < td + n ==> DirLink(s0, d).None?
    requires !NoOverflow(s0, fd, td, n)
    ensures !Inv(s)
  {
    hide Cap, Users, LinkOf, Copies;
    var f :| Copies(s0, fd, n, f) && |Cap(s0, fd, td, n, f)| > 255;
    CopiedIsMain(s0, fd, n, f);
    CapRefers(s0, s, fd, td, n, f);
    FewerSlots(Cap(s0, fd, td, n, f), Users(s, f));
    if Cap(s0, fd, td, n, f) == Users(s0, f) { CopiedTwice(s0, fd, td, n, f); }
  }

  /** A frame that is copied has more users afterwards. */
  lemma CopiedTwice(s: Mem, fd: int, td: int, n: int, f: int)
    requires Inv(s) && Ranges(fd, td, n) && Copies(s, fd, n, f)
    requires forall d :: td <= d < td + n ==> DirLink(s, d).None?
    ensures Cap(s, fd, td, n, f) != Users(s, f)
  {
    hide Cap, Users, LinkOf;
    var d, t :| fd <= d < fd + n && Refers(s, Pte(d, t), f);
    var x := Pte(d - fd + td, t);
    assert CopyRefers(s, fd, td, n, f, x);
    InCap(s, fd, td, n, f, x);
    AbsentRefersNothing(s, x.d, f, x);
  }

  /** A word of a new table that is no copy maps a page that nobody counted. */
  lemma StrayIsUnsound(s0: Mem, s: Mem, fd: int, td: int, n: int, i: int, t: int)
    requires Inv(s0) && Ranges(fd, td, n) && Tracked(s0, s, fd, td, n, n) && Exactly(s0, s, fd, td, n, n)
    requires forall d :: td <= d < td + n ==> DirLink(s0, d).None?
    requires 0 <= i < n && DirLink(s, td + i).Some? && 0 <= t < ENTRIES && LinkOf(s0, Pte(fd + i, t)).None?
    requires Main(FrameOf(s, Dir(td + i))) && Present(s0.phys[FrameOf(s, Dir(td + i))][t])
    ensures !Inv(s)
  {
    hide Cap, Users, Copies;
    var x, g := Pte(td + i, t), FrameOf(s, Dir(td + i));
    assert NewTableAt(s0, s, fd, td, n, td + i);
    assert LinkOf(s, x).Some?;
    var f := LinkOf(s, x).value.frame;
    if Inv(s) {
      assert Main(f);
      NoTableMapped(s, x, f);
      CapRefers(s0, s, fd, td, n, f);
      InCap(s0, fd, td, n, f, x);
      AbsentRefersNothing(s0, td + i, f, x);
      ProperSubset(Cap(s0, fd, td, n, f), Users(s, f), x);
      CountAtMost(s0, s, fd, td, n, f);
    }
  }

  lemma NoTableMapped(s: Mem, x: Slot, f: int)
    requires Inv(s) && x.Pte? && Refers(s, x, f)
    ensures forall d :: FrameOf(s, Dir(d)) != f
  {}

  lemma CountAtMost(s0: Mem, s: Mem, fd: int, td: int, n: int, f: int)
    requires Inv(s0) && 0 <= n && Tracked(s0, s, fd, td, n, n) && Exactly(s0, s, fd, td, n, n) && Main(f)
    requires forall d :: FrameOf(s, Dir(d)) != f
    ensures s.count[f] <= |Cap(s0, fd, td, n, f)|
  {
    hide Users, Copies, LinkOf;
    if !Copies(s0, fd, n, f) {
      FewerSlots(Users(s0, f), Cap(s0, fd, td, n, f));
    }
  }

  /** A sound end comes from a safe start. */
  lemma SoundIsSafe(s0: Mem, s: Mem, fd: int, td: int, n: int)
    requires Inv(s0) && Inv(s) && Ranges(fd, td, n) && Tracked(s0, s, fd, td, n, n)
    requires Aliased(s0, s, fd, td, n, n) || Exactly(s0, s, fd, td, n, n)
    requires forall d :: td <= d < td + n ==> DirLink(s0, d).None?
    ensures CopySafe(s0, fd, td, n)
  {
    hide Users, LinkOf, Copies, Cap, NoOverflow;
    if Aliased(s0, s, fd, td, n, n) { AliasedIsUnsound(s0, s, fd, td, n, n); }
    if !NoOverflow(s0, fd, td, n) { OverflowIsUnsound(s0, s, fd, td, n); }
    forall i | 0 <= i < n && DirLink(s0, fd + i).Some?
      ensures StrayFree(PageOf(s0, GivenTo(s0, fd, i)), s0, fd + i)
    {
      StrayFreeAt(s0, s, fd, td, n, i);
    }
  }

  lemma StrayFreeAt(s0: Mem, s: Mem, fd: int, td: int, n: int, i: int)
    requires Inv(s0) && Inv(s) && Ranges(fd, td, n) && Tracked(s0, s, fd, td, n, n)
    requires Exactly(s0, s, fd, td, n, n) && NoOverflow(s0, fd, td, n)
    requires forall d :: td <= d < td + n ==> DirLink(s0, d).None?
    requires 0 <= i < n && DirLink(s0, fd + i).Some?
    ensures StrayFree(PageOf(s0, GivenTo(s0, fd, i)), s0, fd + i)
  {
    hide Users, LinkOf, Copies, Cap, NoOverflow, Filled;
    assert DirLink(s, td + i).Some? && NewTableAt(s0, s, fd, td, n, td + i);
    var g := FrameOf(s, Dir(td + i));
    assert g == GivenTo(s0, fd, i);
    forall t | 0 <= t < ENTRIES && LinkOf(s0, Pte(fd + i, t)).None? ensures !Present(s0.phys[g][t]) {
      if Present(s0.phys[g][t]) { StrayIsUnsound(s0, s, fd, td, n, i, t); }
    }
  }

  // ----- the loop of copy_page_tables -----

  /** After i directory entries. */
  ghost predicate Progress(s0: Mem, s: Mem, fd: int, td: int, n: int, i: nat)
    requires Shape(s0)
  {
    && Tracked(s0, s, fd, td, n, i)
    && (Aliased(s0, s, fd, td, n, i) || Exactly(s0, s, fd, td, n, i))
    && (CopySafe(s0, fd, td, n) ==> Inv(s) && DirsCopied(s0, s, fd, td, i))
    && (forall d :: td <= d < td + i ==> DirLink(s0, d).None?)
  }

  lemma NoProgress(s: Mem, fd: int, td: int, n: int)
    requires Inv(s)
    ensures Progress(s, s, fd, td, n, 0)
  {
    hide Tracked, Exactly, DirsCopied, CopySafe;
    TrackedAtStart(s, fd, td, n);
    NoDirsCopied(s, fd, td);
  }

  /** What the loop body needs of the tables. */
  lemma BodyNeeds(s0: Mem, s: Mem, fd: int, td: int, n: int, i: nat)
    requires Inv(s0) && Ranges(fd, td, n) && Progress(s0, s, fd, td, n, i) && i < n
    ensures Shape(s) && DirLink(s, fd + i) == DirLink(s0, fd + i) && DirLink(s, td + i) == DirLink(s0, td + i)
    ensures DirLink(s, fd + i).Some? ==> Main(DirLink(s, fd + i).value.frame) && MapsMain(TablePage(s, fd + i))
  {
    hide Exactly, DirsCopied, CopySafe, Copies;
    TablesThere(s0, s, fd, td, n, i);
    if DirLink(s, fd + i).Some? { WordsThere(s0, s, fd, td, n, i); }
  }

  ghost predicate TableReady(s: Mem, a: int, b: int, g: int)
    requires Shape(s) && IsUser(b)
  {
    && Main(g) && TablesApart(WithTable(s, b, g), a, b) && MapsMain(TablePage(WithTable(s, b, g), a))
    && DirDone(s, TableCopy(WithTable(s, b, g), a, b, ENTRIES), a, b, g)
  }

  /** The new table is apart from the one that is copied. */
  lemma BodyTable(s0: Mem, s: Mem, fd: int, td: int, n: int, i: nat, g: int)
    requires Inv(s0) && Ranges(fd, td, n) && Progress(s0, s, fd, td, n, i) && i < n
    requires DirLink(s, fd + i).Some? && DirLink(s, td + i).None? && 0 < g <= PG_PAGES && s.count[g] == 0
    ensures Shape(s) && IsUser(td + i) && TableReady(s, fd + i, td + i, g)
  {
    hide Exactly, DirsCopied, CopySafe, Copies;
    BodyNeeds(s0, s, fd, td, n, i);
    TakenThere(s0, s, fd, td, n, i, g);
    FullFacts(g);
    var s1 := WithTable(s, td + i, g);
    assert DirLink(s1, fd + i) == DirLink(s, fd + i);
    assert DirLink(s1, td + i) == Some(Link(g, true));
  }

  lemma BodyCopies(s0: Mem, s: Mem, s2: Mem, fd: int, td: int, n: int, i: nat, g: int)
    requires Inv(s0) && Ranges(fd, td, n) && Progress(s0, s, fd, td, n, i) && i < n
    requires DirDone(s, s2, fd + i, td + i, g) && g == NextFree(s.count, PG_PAGES + 1) && g > 0
    ensures Progress(s0, s2, fd, td, n, i + 1)
  {
    hide LinkOf, Users, Cap, Copies, Exclusive, TableCopy;
    StepExactly(s0, s, s2, fd, td, n, i, g);
    BodyNeeds(s0, s, fd, td, n, i);
    DoneParts(s, s2, fd + i, td + i, g);
    hide Tracked, Exactly, Aliased, DirsCopied, NoOverflow, Inv, DirLink;
    if CopySafe(s0, fd, td, n) { SafeBody(s0, s, s2, fd, td, n, i, g); }
  }

  lemma SafeBody(s0: Mem, s: Mem, s2: Mem, fd: int, td: int, n: int, i: nat, g: int)
    requires Inv(s0) && Ranges(fd, td, n) && Progress(s0, s, fd, td, n, i) && i < n && CopySafe(s0, fd, td, n)
    requires DirDone(s, s2, fd + i, td + i, g) && g == NextFree(s.count, PG_PAGES + 1) && g > 0
    ensures Inv(s2) && DirsCopied(s0, s2, fd, td, i + 1)
  {
    hide NewTables, FreeKept, CopyCounts, Copies, LinkOf, StrayFree, NoOverflow, View, SlotsCopied, TableCopy;
    DoneParts(s, s2, fd + i, td + i, g);
    if Aliased(s0, s, fd, td, n, i) { AliasedIsUnsound(s0, s, fd, td, n, i); }
    TablesThere(s0, s, fd, td, n, i);
    NextInOrder(s0.count, s.count, Bound(s0, fd, i), g);
    assert g == GivenTo(s0, fd, i);
    assert StrayFree(PageOf(s0, g), s0, fd + i);
    assert s.phys[g] == s0.phys[g];
    StrayFreeSame(s0, s, s0.phys[g], fd, td, n, i);
    SafeDir(s0, s, fd, td, n, i, g);
  }

  lemma StrayFreeSame(s0: Mem, s: Mem, p: Page, fd: int, td: int, n: int, i: nat)
    requires Shape(s0) && Ranges(fd, td, n) && Tracked(s0, s, fd, td, n, i) && i < n
    requires StrayFree(p, s0, fd + i)
    ensures StrayFree(p, s, fd + i)
  {
    forall t | 0 <= t < |p| && LinkOf(s, Pte(fd + i, t)).None? ensures !Present(p[t]) {
      assert !InDirs(Pte(fd + i, t), td, i) && SameGoal(s0, s, Pte(fd + i, t));
    }
  }

  lemma BodySkips(s0: Mem, s: Mem, fd: int, td: int, n: int, i: nat)
    requires Inv(s0) && Ranges(fd, td, n) && Progress(s0, s, fd, td, n, i) && i < n
    requires DirLink(s, fd + i).None? && DirLink(s, td + i).None?
    ensures Progress(s0, s, fd, td, n, i + 1)
  {
    hide Tracked, Exactly, Aliased, DirsCopied, CopySafe, DirLink, Inv;
    TrackedShape(s0, s, fd, td, n, i);
    BodyNeeds(s0, s, fd, td, n, i);
    SkipTracked(s0, s, fd, td, n, i);
    if CopySafe(s0, fd, td, n) { SafeSkip(s0, s, fd, td, n, i); }
  }

  /** A frame for each new table, and no table in the way. */
  ghost predicate CopyFits(s: Mem, fd: int, td: int, n: int)
    requires Shape(s)
  {
    && (forall i :: 0 <= i < n && DirLink(s, fd + i).Some? ==> GivenTo(s, fd, i) > 0)
    && (forall d :: td <= d < td + n ==> DirLink(s, d).None?)
  }

  /** Within the guard the counts are in order. */
  lemma SafeInOrder(s0: Mem, s: Mem, fd: int, td: int, n: int, i: nat)
    requires Inv(s0) && Ranges(fd, td, n) && Progress(s0, s, fd, td, n, i) && i <= n && CopySafe(s0, fd, td, n)
    ensures Inv(s) && Exactly(s0, s, fd, td, n, i) && InOrder(s0, s, fd, td, i)
  {
    hide NewTables, FreeKept, CopyCounts, Copies, NoOverflow, DirsCopied, InOrder, Exclusive;
    if Aliased(s0, s, fd, td, n, i) { AliasedIsUnsound(s0, s, fd, td, n, i); }
  }

  /** Memory runs out only where it had to. */
  lemma BodyRunsOut(s0: Mem, s: Mem, fd: int, td: int, n: int, i: nat)
    requires Inv(s0) && Ranges(fd, td, n) && Progress(s0, s, fd, td, n, i) && i < n
    requires DirLink(s, fd + i).Some? && NextFree(s.count, PG_PAGES + 1) == 0
    ensures CopySafe(s0, fd, td, n) ==> !CopyFits(s0, fd, td, n)
  {
    hide NewTables, FreeKept, CopyCounts, Copies, NoOverflow, DirsCopied, NoStrays, DirLink;
    BodyNeeds(s0, s, fd, td, n, i);
    if CopySafe(s0, fd, td, n) {
      SafeInOrder(s0, s, fd, td, n, i);
      NoneFollows(s0.count, s.count, Bound(s0, fd, i));
      assert GivenTo(s0, fd, i) == 0;
    }
  }

  lemma NoneFollows(count0: seq<int>, count: seq<int>, bound: int)
    requires Follows(count0, count, bound) && 0 <= bound <= |count| && NextFree(count, |count|) == 0
    ensures NextFree(count0, bound) == 0
  {
    NextFreeIs(count0, bound, 0);
  }

  lemma BodyFull(s0: Mem, s: Mem, fd: int, td: int, n: int, i: nat)
    requires Inv(s0) && Ranges(fd, td, n) && Progress(s0, s, fd, td, n, i) && i < n && DirLink(s, td + i).Some?
    ensures !CopyFits(s0, fd, td, n)
  {
    hide Exactly, DirsCopied, CopySafe, Aliased;
    BodyNeeds(s0, s, fd, td, n, i);
  }

  lemma EndFits(s0: Mem, s: Mem, fd: int, td: int, n: int)
    requires Inv(s0) && Ranges(fd, td, n) && Progress(s0, s, fd, td, n, n) && CopySafe(s0, fd, td, n)
    ensures CopyFits(s0, fd, td, n)
  {
    hide FreeKept, CopyCounts, Copies, NoOverflow, DirsCopied, NoStrays, Exclusive;
    SafeInOrder(s0, s, fd, td, n, n);
    forall i | 0 <= i < n && DirLink(s0, fd + i).Some? ensures GivenTo(s0, fd, i) > 0 {
      assert DirLink(s, td + i).Some?;
      assert NewTableAt(s0, s, fd, td, n, td + i);
    }
  }

  /** In the end the state is sound exactly if the copy was safe. */
  lemma SoundIfSafe(s0: Mem, s: Mem, fd: int, td: int, n: int)
    requires Inv(s0) && Ranges(fd, td, n) && Progress(s0, s, fd, td, n, n)
    ensures Inv(s) <==> CopySafe(s0, fd, td, n)
    ensures Inv(s) ==> DirsCopied(s0, s, fd, td, n)
  {
    hide Exactly, DirsCopied, CopySafe, Aliased, Tracked;
    if Inv(s) { SoundIsSafe(s0, s, fd, td, n); }
  }
}
