/** What copy_page_tables does to tables and counts, and when that is faithful. */
module TableCopying {
  import opened Pages
  import opened EagerCopying

  // ----- the frames that get_free_page gives out -----

  /** The highest index below a bound, but not 0, with a count of zero, or 0. */
  function NextFree(count: seq<int>, below: int): (i: int)
    requires below <= |count|
    ensures 0 <= i && (i > 0 ==> i < below && count[i] == 0)
    ensures forall j :: i < j < below ==> count[j] != 0
    decreases below
  {
    if below <= 1 then 0 else if count[below - 1] == 0 then below - 1 else NextFree(count, below - 1)
  }

  lemma NextFreeIs(count: seq<int>, below: int, i: int)
    requires 0 <= i && below <= |count| && (i > 0 ==> i < below && count[i] == 0)
    requires forall j :: i < j < below ==> count[j] != 0
    ensures NextFree(count, below) == i
  {}

  /** Once the highest is taken, the next is the highest below it. */
  lemma NextFreeAfter(count: seq<int>, below: int, count': seq<int>)
    requires 0 <= below <= |count| == |count'| && NextFree(count, below) > 0
    requires count' == count[NextFree(count, below) := 1]
    ensures NextFree(count', below) == NextFree(count, NextFree(count, below))
  {
    NextFreeIs(count', below, NextFree(count, NextFree(count, below)));
  }

  function PageOf(s: Mem, f: int): Page {
    if 0 <= f < |s.phys| then s.phys[f] else []
  }

  /** No word of the page but perhaps word t could be taken for a present entry. */
  ghost predicate CleanBut(p: Page, t: int) {
    forall u :: 0 <= u < |p| && u != t ==> !Present(p[u])
  }

  /** What a free frame holds concerns nobody. */
  lemma SetFreePage(s: Mem, g: int, p: Page)
    requires Inv(s) && Main(g) && s.count[g] == 0 && |p| == ENTRIES
    ensures var s' := s.(phys := s.phys[g := p]);
      Inv(s') && View(s') == View(s) && (forall y :: LinkOf(s', y) == LinkOf(s, y))
  {
    FreeFrameIsUnused(s, g);
    SetPageLinks(s, g, p);
    var s' := s.(phys := s.phys[g := p]);
    SameLinksKeepInv(s, s');
    hide LinkOf, Users, View;
    forall d ensures DirLink(s', d) == DirLink(s, d) { DirLinkSame(s, s', d); }
    forall e, u ensures PageAt(s', e, u) == PageAt(s, e, u) { assert !Refers(s, Pte(e, u), g); }
    ViewSame(s, s');
  }

  lemma DirLinkSame(s: Mem, s': Mem, d: int)
    requires Shape(s) && Shape(s') && s'.dir == s.dir
    ensures DirLink(s', d) == DirLink(s, d)
  {}

  // ----- links -----

  lemma MappedIsMain(s: Mem, d: int, t: int)
    requires Inv(s) && LinkOf(s, Pte(d, t)).Some?
    ensures Main(LinkOf(s, Pte(d, t)).value.frame)
  {}

  /** What the scan finds is a frame of main memory. */
  lemma FreshIsMain(s: Mem, i: int)
    requires Inv(s) && 0 < i <= PG_PAGES && s.count[i] == 0
    ensures Main(i)
  {}

  /** The frame a slot refers to, or -1. */
  ghost function FrameOf(s: Mem, y: Slot): int
    requires Shape(s)
  {
    if LinkOf(s, y).Some? then LinkOf(s, y).value.frame else -1
  }

  /** cap(f) is a set of at most 255 slots that holds all present users of f and all that
      the copy will add. */
  ghost predicate HasRoom(s: Mem, fd: int, td: int, cap: int -> set<Slot>)
    requires Shape(s)
  {
    forall t, f :: Refers(s, Pte(fd, t), f) ==> Users(s, f) <= cap(f) && Pte(td, t) in cap(f) && |cap(f)| <= 255
  }

  predicate Copied(y: Slot, td: int, nr: int) {
    y.Pte? && y.d == td && 0 <= y.t < nr
  }

  /** The first nr entries of table td map what those of fd did before, nothing else has
      changed for any program, and no slot's frame has changed but those. */
  ghost predicate TableCopied(s0: Mem, s: Mem, fd: int, td: int, nr: int)
    requires Shape(s0)
  {
    && Shape(s) && s.dir == s0.dir && SameOutside(s0, s, td)
    && (forall t :: 0 <= t < nr ==>
          PageAt(s, td, t) == PageAt(s0, fd, t) && FrameOf(s, Pte(td, t)) == FrameOf(s0, Pte(fd, t)))
    && (forall t :: nr <= t ==> LinkOf(s, Pte(td, t)).None?)
    && (forall y :: !Copied(y, td, nr) ==> FrameOf(s, y) == FrameOf(s0, y))
    && (forall f :: 0 <= f <= PG_PAGES && s0.count[f] != 0 ==> s.count[f] != 0)
    && (forall f :: 0 <= f < PG_PAGES && s.count[f] == 0 ==> s.phys[f] == s0.phys[f])
  }

  lemma InvParts(s: Mem, fd: int, td: int)
    requires Inv(s) && DirLink(s, fd).Some? && DirLink(s, td).Some? && fd != td
    ensures Shape(s) && Main(DirLink(s, fd).value.frame) && Main(DirLink(s, td).value.frame)
    ensures DirLink(s, fd).value.frame != DirLink(s, td).value.frame
  {
    assert LinkOf(s, Dir(fd)) == DirLink(s, fd) && LinkOf(s, Dir(td)) == DirLink(s, td);
  }

  lemma NothingCopied(s: Mem, fd: int, td: int)
    requires Inv(s) && MapsNothing(s, td)
    ensures TableCopied(s, s, fd, td, 0)
  {}

  lemma SkipOneEntry(s0: Mem, s: Mem, fd: int, td: int, t: int)
    requires Inv(s0) && Inv(s) && TableCopied(s0, s, fd, td, t) && fd != td && 0 <= t < ENTRIES
    requires DirLink(s, fd).Some? && 0 <= DirLink(s, fd).value.frame < PG_PAGES && !Present(WordAt(s, fd, t))
    ensures TableCopied(s0, s, fd, td, t + 1)
  {
  }

  lemma CopyOneEntry(s0: Mem, s: Mem, fd: int, td: int, t: int, nr: int, cap: int -> set<Slot>)
    requires Inv(s0) && Inv(s) && TableCopied(s0, s, fd, td, t) && fd != td && 0 <= t < nr <= ENTRIES
    requires DirLink(s, fd).Some? && DirLink(s, td).Some? && HasRoom(s0, fd, td, cap)
    requires Main(DirLink(s, fd).value.frame) && Main(DirLink(s, td).value.frame)
    requires Present(WordAt(s, fd, t))
    ensures var w := WordAt(s, fd, t);
      && Frame(Protect(w)) == Frame(w) && Main(Frame(w)) && 0 <= s.count[Frame(w)] < 255
      && Protect(w) > LOW_MEM * 4096
      && Inv(Shared(s, fd, td, t)) && TableCopied(s0, Shared(s, fd, td, t), fd, td, t + 1)
  {
    hide Users, PageAt, TableCopied;
    var w := WordAt(s, fd, t);
    ProtectFacts(w);
    AboveLowMem(w);
    MappedIsMain(s, fd, t);
    StillEmpty(s0, s, fd, td, t);
    RoomForOne(s0, s, fd, td, t, cap, Frame(w));
    ShareStep(s, fd, td, t);
    SharedIsCopied(s0, s, fd, td, t);
  }

  lemma StillEmpty(s0: Mem, s: Mem, fd: int, td: int, t: int)
    requires Shape(s0) && TableCopied(s0, s, fd, td, t)
    ensures Shape(s) && LinkOf(s, Pte(td, t)).None?
  {}

  lemma RoomForOne(s0: Mem, s: Mem, fd: int, td: int, t: int, cap: int -> set<Slot>, f: int)
    requires Inv(s0) && Inv(s) && TableCopied(s0, s, fd, td, t) && fd != td && HasRoom(s0, fd, td, cap)
    requires Refers(s, Pte(fd, t), f) && LinkOf(s, Pte(td, t)).None? && Main(f)
    ensures s.count[f] < 255
  {
    hide PageAt, LinkOf, Users;
    assert FrameOf(s, Pte(fd, t)) == FrameOf(s0, Pte(fd, t));
    assert Refers(s0, Pte(fd, t), f);
    forall y | y in Users(s, f) ensures y in cap(f) {
      if Copied(y, td, t) {
        assert y == Pte(td, y.t) && Refers(s0, Pte(fd, y.t), f);
      } else {
        assert FrameOf(s, y) == FrameOf(s0, y) && y in Users(s0, f);
      }
    }
    assert Pte(td, t) !in Users(s, f);
    ProperSubset(Users(s, f), cap(f), Pte(td, t));
  }

  lemma ProperSubset(a: set<Slot>, b: set<Slot>, x: Slot)
    requires a <= b && x in b && x !in a
    ensures |a| < |b|
  {
    assert a * b == a && a + b == b && a - b == {};
    assert x in b - a;
    assert |b - a| > 0;
  }

  lemma TableInUse(s: Mem, d: int)
    requires Inv(s) && DirLink(s, d).Some?
    ensures Main(DirLink(s, d).value.frame) && s.count[DirLink(s, d).value.frame] > 0
  {
    TableIsMain(s, d);
    assert Refers(s, Dir(d), DirLink(s, d).value.frame);
    assert Dir(d) in Users(s, DirLink(s, d).value.frame);
  }

  lemma SharedIsCopied(s0: Mem, s: Mem, fd: int, td: int, t: int)
    requires Inv(s0) && Inv(s) && TableCopied(s0, s, fd, td, t) && fd != td && 0 <= t < ENTRIES
    requires DirLink(s, fd).Some? && DirLink(s, td).Some?
    requires LinkOf(s, Pte(fd, t)).Some? && LinkOf(s, Pte(td, t)).None?
    requires Main(DirLink(s, fd).value.frame) && Main(DirLink(s, td).value.frame) && Main(Frame(WordAt(s, fd, t)))
    ensures TableCopied(s0, Shared(s, fd, td, t), fd, td, t + 1)
  {
    hide PageAt, LinkOf, Users, Protect, Exclusive;
    ShareStep(s, fd, td, t);
    TableInUse(s, fd);
    TableInUse(s, td);
    ProtectFacts(WordAt(s, fd, t));
    var s' := Shared(s, fd, td, t);
    assert FrameOf(s, Pte(fd, t)) == FrameOf(s0, Pte(fd, t));
    forall y | !Copied(y, td, t + 1) ensures FrameOf(s', y) == FrameOf(s0, y) {
      assert FrameOf(s, y) == FrameOf(s0, y);
    }
  }

  // ----- one table, as the code copies it -----

  function CopiedWord(w: int): int { if Present(w) then Protect(w) else w }

  /** The source table once its first nr entries are write-protected... */
  function ProtectedPage(src: Page, nr: int): (p: Page)
    ensures |p| == |src|
  {
    seq(|src|, t requires 0 <= t < |src| => if t < nr then CopiedWord(src[t]) else src[t])
  }

  /** ... and the target, of which only the words for present entries are stored. */
  function FilledPage(was: Page, src: Page, nr: int): (p: Page)
    requires |was| == |src|
    ensures |p| == |src|
  {
    seq(|src|, t requires 0 <= t < |src| => if t < nr && Present(src[t]) then Protect(src[t]) else was[t])
  }

  /** Each present entry adds one to the unsigned char that counts its frame's users. */
  function CountAfter(count: seq<int>, src: Page, nr: nat): (c: seq<int>)
    requires nr <= |src|
    ensures |c| == |count|
  {
    if nr == 0 then count
    else
      var c, f := CountAfter(count, src, nr - 1), Frame(src[nr - 1]);
      if Present(src[nr - 1]) && 0 <= f < |c| then c[f := (c[f] + 1) % 256] else c
  }

  ghost predicate TablesApart(s: Mem, a: int, b: int) {
    && Shape(s) && DirLink(s, a).Some? && DirLink(s, b).Some?
    && Main(DirLink(s, a).value.frame) && Main(DirLink(s, b).value.frame)
    && DirLink(s, a).value.frame != DirLink(s, b).value.frame
  }

  /** The page table of directory entry a. */
  ghost function TablePage(s: Mem, a: int): Page
    requires Shape(s) && DirLink(s, a).Some? && Main(DirLink(s, a).value.frame)
  {
    s.phys[DirLink(s, a).value.frame]
  }

  /** Copying the first nr entries of a's table to b's. */
  ghost function TableCopy(s: Mem, a: int, b: int, nr: nat): Mem
    requires TablesApart(s, a, b) && nr <= ENTRIES
  {
    var src, was := TablePage(s, a), TablePage(s, b);
    Mem(CountAfter(s.count, src, nr), s.dir,
        s.phys[DirLink(s, a).value.frame := ProtectedPage(src, nr)]
              [DirLink(s, b).value.frame := FilledPage(was, src, nr)])
  }

  ghost predicate MapsMain(src: Page) {
    forall t :: 0 <= t < |src| && Present(src[t]) ==> Main(Frame(src[t]))
  }

  lemma TableCopyApart(s: Mem, a: int, b: int, nr: nat)
    requires TablesApart(s, a, b) && nr <= ENTRIES
    ensures var s' := TableCopy(s, a, b, nr);
      && TablesApart(s', a, b) && (forall d :: DirLink(s', d) == DirLink(s, d))
      && TablePage(s', a) == ProtectedPage(TablePage(s, a), nr)
      && TablePage(s', b) == FilledPage(TablePage(s, b), TablePage(s, a), nr)
  {}

  lemma NoEntriesCopied(s: Mem, a: int, b: int)
    requires TablesApart(s, a, b)
    ensures TableCopy(s, a, b, 0) == s
  {
    assert ProtectedPage(TablePage(s, a), 0) == TablePage(s, a);
    assert FilledPage(TablePage(s, b), TablePage(s, a), 0) == TablePage(s, b);
  }

  /** One more entry is looked at. */
  lemma OneEntryMore(s: Mem, a: int, b: int, t: nat)
    requires TablesApart(s, a, b) && t < ENTRIES && MapsMain(TablePage(s, a))
    ensures var s1 := TableCopy(s, a, b, t);
      var w := TablePage(s, a)[t];
      && TablesApart(s1, a, b) && WordAt(s1, a, t) == w
      && (!Present(w) ==> TableCopy(s, a, b, t + 1) == s1)
      && (Present(w) ==> Main(Frame(w)))
      && (Present(w) ==>
            TableCopy(s, a, b, t + 1) ==
            SetWord(SetWord(s1, a, t, Protect(w)), b, t, Protect(w))
              .(count := s1.count[Frame(w) := (s1.count[Frame(w)] + 1) % 256]))
  {
    hide Protect, Frame, Present;
    TableCopyApart(s, a, b, t);
    var src, was := TablePage(s, a), TablePage(s, b);
    var w := src[t];
    if Present(w) {
      assert ProtectedPage(src, t + 1) == ProtectedPage(src, t)[t := Protect(w)];
      assert FilledPage(was, src, t + 1) == FilledPage(was, src, t)[t := Protect(w)];
    } else {
      assert ProtectedPage(src, t + 1) == ProtectedPage(src, t);
      assert FilledPage(was, src, t + 1) == FilledPage(was, src, t);
    }
    var A, B := DirLink(s, a).value.frame, DirLink(s, b).value.frame;
    var s1, s2 := TableCopy(s, a, b, t), TableCopy(s, a, b, t + 1);
    if Present(w) {
      assert s2.phys == s1.phys[A := s1.phys[A][t := Protect(w)]][B := s1.phys[B][t := Protect(w)]];
    } else {
      assert s2.phys == s1.phys;
    }
  }

  /** In a sound state the present words of a table refer to main memory. */
  lemma TableMapsMain(s: Mem, a: int)
    requires Inv(s) && DirLink(s, a).Some?
    ensures Main(DirLink(s, a).value.frame) && MapsMain(TablePage(s, a))
  {
    TableIsMain(s, a);
    forall t | 0 <= t < ENTRIES && Present(TablePage(s, a)[t]) ensures Main(Frame(TablePage(s, a)[t])) {
      MappedIsMain(s, a, t);
    }
  }

  /** With room for every new user, copying into an empty table is sharing entry by entry. */
  lemma {:induction false} TableCopySafe(s: Mem, a: int, b: int, nr: nat, cap: int -> set<Slot>)
    requires Inv(s) && DirLink(s, a).Some? && DirLink(s, b).Some? && a != b && nr <= ENTRIES
    requires MapsNothing(s, b) && HasRoom(s, a, b, cap)
    ensures TablesApart(s, a, b)
    ensures Inv(TableCopy(s, a, b, nr)) && TableCopied(s, TableCopy(s, a, b, nr), a, b, nr)
  {
    hide View, Users, PageAt, LinkOf, TableCopied, HasRoom, TableCopy, MapsNothing, Exclusive, Shared;
    InvParts(s, a, b);
    if nr == 0 {
      NoEntriesCopied(s, a, b);
      NothingCopied(s, a, b);
    } else {
      var t := nr - 1;
      TableCopySafe(s, a, b, t, cap);
      TableMapsMain(s, a);
      OneEntryMore(s, a, b, t);
      TableCopyApart(s, a, b, t);
      var s1 := TableCopy(s, a, b, t);
      if Present(WordAt(s1, a, t)) {
        CopyOneEntry(s, s1, a, b, t, nr, cap);
        SharedIsOneMore(s1, a, b, t);
      } else {
        SkipOneEntry(s, s1, a, b, t);
      }
    }
  }

  lemma SharedIsOneMore(s: Mem, a: int, b: int, t: int)
    requires TablesApart(s, a, b) && 0 <= t < ENTRIES
    requires var w := WordAt(s, a, t); Frame(Protect(w)) == Frame(w) && Main(Frame(w)) && 0 <= s.count[Frame(w)] < 255
    ensures var w := WordAt(s, a, t);
      Shared(s, a, b, t) ==
      SetWord(SetWord(s, a, t, Protect(w)), b, t, Protect(w))
        .(count := s.count[Frame(w) := (s.count[Frame(w)] + 1) % 256])
  {}

  // ----- how often a frame is counted -----

  /** The entries of table b for which f is counted once more. */
  function Adds(src: Page, b: int, nr: nat, f: int): set<Slot>
    requires nr <= |src|
  {
    set t {:trigger src[t]} | 0 <= t < nr && Present(src[t]) && Frame(src[t]) == f :: Pte(b, t)
  }

  lemma AddsOneMore(src: Page, b: int, t: nat, f: int)
    requires t < |src|
    ensures Adds(src, b, t + 1, f) ==
      if Present(src[t]) && Frame(src[t]) == f then Adds(src, b, t, f) + {Pte(b, t)} else Adds(src, b, t, f)
    ensures Pte(b, t) !in Adds(src, b, t, f)
  {}

  lemma AddsNone(src: Page, b: int, f: int)
    ensures Adds(src, b, 0, f) == {}
  {}

  /** The count rises by the number of new users, unless it wraps, and never beyond a char. */
  lemma {:induction false} CountBounds(count: seq<int>, src: Page, b: int, nr: nat, f: int)
    requires nr <= |src| && 0 <= f < |count| && count[f] >= 0
    ensures var c, k := CountAfter(count, src, nr)[f], |Adds(src, b, nr, f)|;
      && 0 <= c <= count[f] + k && (k == 0 ==> c == count[f]) && (k > 0 ==> c <= 255)
      && (count[f] + k <= 255 ==> c == count[f] + k)
  {
    hide Adds, Present, Frame;
    if nr == 0 {
      AddsNone(src, b, f);
    } else {
      CountBounds(count, src, b, nr - 1, f);
      AddsOneMore(src, b, nr - 1, f);
    }
  }

  // ----- copying directory entries -----

  /** What copying page by page gives: a table is never overwritten, an absent one skipped. */
  function EagerCopy(v: Space, fd: int, td: int, n: int): Option<Space>
    decreases n
  {
    if n <= 0 then Some(v)
    else
      var before := EagerCopy(v, fd, td, n - 1);
      if before.None? || !(0 <= fd + n - 1 < |before.value| && 0 <= td + n - 1 < |before.value|) then None
      else if before.value[td + n - 1].Some? then None
      else if before.value[fd + n - 1].None? then before
      else Some(before.value[td + n - 1 := before.value[fd + n - 1]])
  }

  /** The users f would have if every page of the range had been copied. */
  ghost function Cap(s: Mem, fd: int, td: int, n: int, f: int): set<Slot>
    requires Shape(s)
  {
    Users(s, f) + set x | x in AllSlots() && CopyRefers(s, fd, td, n, f, x)
  }

  ghost predicate CopyRefers(s: Mem, fd: int, td: int, n: int, f: int, x: Slot)
    requires Shape(s)
  {
    x.Pte? && td <= x.d < td + n && Refers(s, Pte(x.d - td + fd, x.t), f)
  }

  predicate InDirs(y: Slot, td: int, n: int) {
    td <= y.d < td + n
  }

  lemma InUseAtStart(s0: Mem, x: Slot, f: int)
    requires Inv(s0) && Refers(s0, x, f)
    ensures Main(f) && s0.count[f] > 0
  {}

  lemma CapHolds(s0: Mem, fd: int, td: int, n: int, f: int, y: Slot)
    requires Shape(s0) && FIRST_USER <= td && td + n <= ENTRIES
    requires Refers(s0, y, f) || CopyRefers(s0, fd, td, n, f, y)
    ensures y in Cap(s0, fd, td, n, f)
  {}

  lemma DirRefers(s: Mem, d: int)
    requires Shape(s)
    ensures LinkOf(s, Dir(d)) == DirLink(s, d)
  {}

  lemma DirsRemain(s: Mem, s1: Mem, d: int)
    requires Shape(s) && Shape(s1) && LinkOf(s1, Dir(d)) == LinkOf(s, Dir(d))
    ensures DirLink(s1, d) == DirLink(s, d)
  {}

  /** One directory entry's worth of work: a new table, filled. */
  lemma OneDirView(s: Mem, s2: Mem, fd: int, td: int, g: int)
    requires Inv(s) && Inv(s2) && fd != td && IsUser(td) && Main(g) && s.count[g] == 0 && Clean(s.phys[g])
    requires DirLink(s, td).None? && DirLink(s, fd).Some?
    requires TableCopied(WithTable(s, td, g), s2, fd, td, ENTRIES)
    ensures View(s)[td].None? && View(s)[fd].Some? && View(s2) == View(s)[td := View(s)[fd]]
  {
    hide PageAt, Users, LinkOf;
    NewTableStep(s, td, g);
    var s1 := WithTable(s, td, g);
    forall e ensures e != td ==> (DirLink(s2, e).Some? <==> DirLink(s, e).Some?) {
      DirRefers(s, e);
      DirRefers(s1, e);
    }
    ViewSetsDir(s, s2, td);
    assert ViewDir(s2, td).value == ViewDir(s, fd).value;
  }

  lemma OneDirFrames(s: Mem, s2: Mem, fd: int, td: int, g: int)
    requires Inv(s) && Inv(s2) && fd != td && IsUser(td) && Main(g) && s.count[g] == 0 && Clean(s.phys[g])
    requires DirLink(s, td).None? && TableCopied(WithTable(s, td, g), s2, fd, td, ENTRIES)
    ensures forall y: Slot :: y.d != td ==> FrameOf(s2, y) == FrameOf(s, y)
    ensures forall t :: FrameOf(s2, Pte(td, t)) == FrameOf(s, Pte(fd, t))
    ensures FrameOf(s2, Dir(td)) == g && s2.count[g] != 0
    ensures forall f :: 0 <= f <= PG_PAGES && s.count[f] != 0 ==> s2.count[f] != 0
    ensures forall f :: 0 <= f < PG_PAGES && s2.count[f] == 0 ==> s2.phys[f] == s.phys[f]
  {
    hide PageAt, Users, View;
    NewTableStep(s, td, g);
    var s1 := WithTable(s, td, g);
    forall y: Slot | y.d != td ensures FrameOf(s2, y) == FrameOf(s, y) {
      assert !Copied(y, td, ENTRIES) && LinkOf(s1, y) == LinkOf(s, y);
      assert FrameOf(s2, y) == FrameOf(s1, y);
    }
    forall t ensures FrameOf(s2, Pte(td, t)) == FrameOf(s, Pte(fd, t)) {
      assert LinkOf(s1, Pte(fd, t)) == LinkOf(s, Pte(fd, t));
    }
    assert FrameOf(s2, Dir(td)) == FrameOf(s1, Dir(td)) == g;
  }

  lemma ViewLength(s: Mem)
    requires Shape(s)
    ensures |View(s)| == ENTRIES
    ensures forall d :: 0 <= d < ENTRIES ==> (View(s)[d].Some? <==> DirLink(s, d).Some?)
  {}

  lemma AbsentDirMapsNothing(s: Mem, d: int)
    requires Shape(s) && DirLink(s, d).None?
    ensures FrameOf(s, Dir(d)) == -1 && forall t :: FrameOf(s, Pte(d, t)) == -1
  {}

  /** Disjoint parts of user space. */
  predicate Ranges(fd: int, td: int, n: int) {
    && FIRST_USER <= fd && FIRST_USER <= td && 0 <= n && fd + n <= ENTRIES && td + n <= ENTRIES
    && (fd + n <= td || td + n <= fd)
  }

  /** An entry of the range maps f. */
  ghost predicate Copies(s: Mem, fd: int, n: int, f: int)
    requires Shape(s)
  {
    exists d, t :: fd <= d < fd + n && Refers(s, Pte(d, t), f)
  }

  /** No count of a page that is copied exceeds what an unsigned char holds. */
  ghost predicate NoOverflow(s: Mem, fd: int, td: int, n: int)
    requires Shape(s)
  {
    forall f :: Copies(s, fd, n, f) ==> |Cap(s, fd, td, n, f)| <= 255
  }

  /** Below which index get_free_page finds the next frame after the first i directory entries. */
  ghost function Bound(s: Mem, fd: int, i: nat): (r: int)
    requires Shape(s)
    ensures 0 <= r <= PG_PAGES + 1
  {
    if i == 0 then PG_PAGES + 1
    else if DirLink(s, fd + i - 1).Some? then NextFree(s.count, Bound(s, fd, i - 1))
    else Bound(s, fd, i - 1)
  }

  /** The frame that get_free_page gives out for the table of the i-th directory entry. */
  ghost function GivenTo(s: Mem, fd: int, i: nat): int
    requires Shape(s)
  {
    NextFree(s.count, Bound(s, fd, i))
  }

  /** The page holds nothing that looks like a present entry where table d has none. */
  ghost predicate StrayFree(p: Page, s: Mem, d: int)
    requires Shape(s)
  {
    forall t :: 0 <= t < |p| && LinkOf(s, Pte(d, t)).None? ==> !Present(p[t])
  }

  ghost predicate NoStrays(s: Mem, fd: int, n: int)
    requires Shape(s)
  {
    forall i :: 0 <= i < n && DirLink(s, fd + i).Some? ==> StrayFree(PageOf(s, GivenTo(s, fd, i)), s, fd + i)
  }

  /** When the code copies faithfully: no count wraps, and the frames that will be the new tables hold
      nothing that looks like a present entry where the copied table has none. */
  ghost predicate CopySafe(s: Mem, fd: int, td: int, n: int)
    requires Shape(s)
  {
    NoOverflow(s, fd, td, n) && NoStrays(s, fd, n)
  }

  ghost predicate DirsCopied(s0: Mem, s: Mem, fd: int, td: int, n: int)
    requires Shape(s0)
  {
    && Shape(s) && EagerCopy(View(s0), fd, td, n) == Some(View(s))
    && SlotsCopied(s0, s, fd, td, n) && CountsKept(s0, s)
  }

  /** Copied entries refer to the frames their originals referred to, their tables lie in
      frames that were free, and no other slot's frame has changed. */
  ghost predicate SlotsCopied(s0: Mem, s: Mem, fd: int, td: int, n: int)
    requires Shape(s0) && Shape(s)
  {
    && (forall y :: !InDirs(y, td, n) ==> FrameOf(s, y) == FrameOf(s0, y))
    && (forall d, t :: td <= d < td + n ==> FrameOf(s, Pte(d, t)) == FrameOf(s0, Pte(d - td + fd, t)))
    && (forall d :: td <= d < td + n && Main(FrameOf(s, Dir(d))) ==> s0.count[FrameOf(s, Dir(d))] == 0)
  }

  /** What was in use still is, and what is free holds what it held. */
  ghost predicate CountsKept(s0: Mem, s: Mem)
    requires Shape(s0) && Shape(s)
  {
    && (forall f :: 0 <= f <= PG_PAGES && s0.count[f] != 0 ==> s.count[f] != 0)
    && (forall f :: 0 <= f < PG_PAGES && s.count[f] == 0 ==> s.phys[f] == s0.phys[f])
  }

  lemma NoDirsCopied(s: Mem, fd: int, td: int)
    requires Inv(s)
    ensures DirsCopied(s, s, fd, td, 0)
  {}

  lemma UsersStayInCap(s0: Mem, s: Mem, fd: int, td: int, n: int, i: int, t: int, f: int)
    requires Inv(s0) && Inv(s) && Ranges(fd, td, n) && NoOverflow(s0, fd, td, n)
    requires SlotsCopied(s0, s, fd, td, i) && 0 <= i < n && Refers(s, Pte(fd + i, t), f)
    ensures Users(s, f) <= Cap(s0, fd, td, n, f) && Pte(td + i, t) in Cap(s0, fd, td, n, f)
    ensures |Cap(s0, fd, td, n, f)| <= 255
  {
    hide View, PageAt, EagerCopy, Cap, LinkOf, Users;
    var here := Pte(fd + i, t);
    assert !InDirs(here, td, i) && FrameOf(s, here) == FrameOf(s0, here);
    InUseAtStart(s0, here, f);
    assert Copies(s0, fd, n, f);
    CapHolds(s0, fd, td, n, f, Pte(td + i, t));
    forall y | y in Users(s, f) ensures y in Cap(s0, fd, td, n, f) {
      assert FrameOf(s, y) == f;
      if InDirs(y, td, i) { assert y != Dir(y.d); }
      CapHolds(s0, fd, td, n, f, y);
    }
  }

  lemma FreshTable(s0: Mem, s: Mem, fd: int, td: int, n: int, i: int, g: int)
    requires Inv(s0) && Inv(s) && Ranges(fd, td, n) && NoOverflow(s0, fd, td, n)
    requires SlotsCopied(s0, s, fd, td, i) && 0 <= i < n
    requires DirLink(s, td + i).None? && DirLink(s, fd + i).Some? && Main(g) && s.count[g] == 0 && Clean(s.phys[g])
    ensures Inv(WithTable(s, td + i, g))
    ensures var s1 := WithTable(s, td + i, g);
      && DirLink(s1, fd + i).Some? && DirLink(s1, td + i).Some? && MapsNothing(s1, td + i)
      && HasRoom(s1, fd + i, td + i, f => Cap(s0, fd, td, n, f))
  {
    hide View, PageAt, EagerCopy, Users, LinkOf, Cap;
    NewTableStep(s, td + i, g);
    FreeFrameIsUnused(s, g);
    var s1, a, b := WithTable(s, td + i, g), fd + i, td + i;
    forall t, f | Refers(s1, Pte(a, t), f)
      ensures var cap := Cap(s0, fd, td, n, f); Users(s1, f) <= cap && Pte(b, t) in cap && |cap| <= 255
    {
      assert LinkOf(s1, Pte(a, t)) == LinkOf(s, Pte(a, t));
      assert !Refers(s, Pte(a, t), g);
      UsersStayInCap(s0, s, fd, td, n, i, t, f);
      DirRefers(s1, td + i);
      forall y | y in Users(s1, f) ensures y in Users(s, f) { assert y != Dir(td + i); }
    }
    DirsRemain(s, s1, fd + i);
  }

  /** The page without the words that the copy will overwrite. */
  function Emptied(p: Page, src: Page): (r: Page)
    requires |p| == |src|
    ensures |r| == |p|
  {
    seq(|p|, t requires 0 <= t < |p| => if Present(src[t]) then 0 else p[t])
  }

  lemma NewTableApart(s: Mem, a: int, b: int, g: int)
    requires Inv(s) && DirLink(s, a).Some? && DirLink(s, b).None? && IsUser(b) && Main(g) && s.count[g] == 0
    ensures Main(DirLink(s, a).value.frame) && g != DirLink(s, a).value.frame
    ensures var s1 := WithTable(s, b, g);
      TablesApart(s1, a, b) && DirLink(s1, a) == DirLink(s, a) && DirLink(s1, b) == Some(Link(g, true))
  {
    TableInUse(s, a);
    FullFacts(g);
  }

  lemma DirtyWordsOverwritten(s: Mem, c: Mem, a: int, b: int, g: int)
    requires Inv(s) && DirLink(s, a).Some? && DirLink(s, b).None? && IsUser(b) && Main(g) && s.count[g] == 0
    requires Main(DirLink(s, a).value.frame)
    requires Inv(c) && c == s.(phys := s.phys[g := Emptied(s.phys[g], TablePage(s, a))])
    ensures TablesApart(WithTable(s, b, g), a, b) && TablesApart(WithTable(c, b, g), a, b)
    ensures TableCopy(WithTable(c, b, g), a, b, ENTRIES) == TableCopy(WithTable(s, b, g), a, b, ENTRIES)
  {
    DirLinkSame(s, c, a);
    DirLinkSame(s, c, b);
    NewTableApart(s, a, b, g);
    NewTableApart(c, a, b, g);
    hide Protect, Present, Frame, Full;
    var src := TablePage(s, a);
    assert TablePage(c, a) == src;
    assert FilledPage(Emptied(s.phys[g], src), src, ENTRIES) == FilledPage(s.phys[g], src, ENTRIES);
    var x, y := TableCopy(WithTable(c, b, g), a, b, ENTRIES), TableCopy(WithTable(s, b, g), a, b, ENTRIES);
    assert x.phys == y.phys;
  }

  lemma EmptiedIsClean(s: Mem, a: int, p: Page)
    requires Inv(s) && DirLink(s, a).Some? && Main(DirLink(s, a).value.frame) && |p| == ENTRIES && StrayFree(p, s, a)
    ensures Clean(Emptied(p, TablePage(s, a)))
  {
    forall t | 0 <= t < |p| && !Present(TablePage(s, a)[t]) ensures !Present(p[t]) {
      assert LinkOf(s, Pte(a, t)).None?;
    }
  }

  /** One directory entry of a safe copy. */
  lemma SafeDir(s0: Mem, s: Mem, fd: int, td: int, n: int, i: int, g: int)
    requires Inv(s0) && Inv(s) && Ranges(fd, td, n) && NoOverflow(s0, fd, td, n) && DirsCopied(s0, s, fd, td, i)
    requires 0 <= i < n && DirLink(s, td + i).None? && DirLink(s, fd + i).Some? && Main(g) && s.count[g] == 0
    requires StrayFree(s.phys[g], s, fd + i)
    ensures TablesApart(WithTable(s, td + i, g), fd + i, td + i)
    ensures var s2 := TableCopy(WithTable(s, td + i, g), fd + i, td + i, ENTRIES);
      Inv(s2) && DirsCopied(s0, s2, fd, td, i + 1)
  {
    hide View, PageAt, Users, LinkOf, Cap, TableCopied, HasRoom, TableCopy, Emptied, StrayFree, Clean, MapsNothing;
    hide Exclusive, SlotsCopied, NoOverflow;
    var a, b := fd + i, td + i;
    TableIsMain(s, a);
    EmptiedIsClean(s, a, s.phys[g]);
    var p := Emptied(s.phys[g], TablePage(s, a));
    SetFreePage(s, g, p);
    var c := s.(phys := s.phys[g := p]);
    DirLinkSame(s, c, a);
    DirLinkSame(s, c, b);
    SameSlotsCopied(s0, s, c, fd, td, i);
    FreshTable(s0, c, fd, td, n, i, g);
    TableCopySafe(WithTable(c, b, g), a, b, ENTRIES, f => Cap(s0, fd, td, n, f));
    DirtyWordsOverwritten(s, c, a, b, g);
    SafeDirSeen(s0, s, c, TableCopy(WithTable(s, b, g), a, b, ENTRIES), fd, td, n, i, g);
  }

  lemma SameSlotsCopied(s0: Mem, s: Mem, c: Mem, fd: int, td: int, i: int)
    requires Shape(s0) && Shape(s) && Shape(c) && SlotsCopied(s0, s, fd, td, i)
    requires forall y :: LinkOf(c, y) == LinkOf(s, y)
    ensures SlotsCopied(s0, c, fd, td, i)
  {
    hide LinkOf;
  }

  lemma SafeDirSeen(s0: Mem, s: Mem, c: Mem, s2: Mem, fd: int, td: int, n: int, i: int, g: int)
    requires Inv(s0) && Inv(s) && Inv(c) && Inv(s2) && Ranges(fd, td, n) && DirsCopied(s0, s, fd, td, i) && 0 <= i < n
    requires Main(g) && s.count[g] == 0 && c.count == s.count && View(c) == View(s)
    requires (forall y :: LinkOf(c, y) == LinkOf(s, y))
    requires forall f :: 0 <= f < PG_PAGES && f != g ==> c.phys[f] == s.phys[f]
    requires Clean(c.phys[g]) && DirLink(c, td + i).None? && DirLink(c, fd + i).Some?
    requires TableCopied(WithTable(c, td + i, g), s2, fd + i, td + i, ENTRIES)
    ensures DirsCopied(s0, s2, fd, td, i + 1)
  {
    hide PageAt, Users, LinkOf, TableCopied, View, SlotsCopied, Clean, Exclusive;
    OneDirView(c, s2, fd + i, td + i, g);
    OneDirFrames(c, s2, fd + i, td + i, g);
    ViewLength(s);
    forall y ensures FrameOf(c, y) == FrameOf(s, y) {}
    SlotsCopiedOne(s0, s, s2, fd, td, n, i, g);
  }

  lemma SlotsCopiedOne(s0: Mem, s: Mem, s2: Mem, fd: int, td: int, n: int, i: int, g: int)
    requires Shape(s0) && Shape(s) && Shape(s2) && SlotsCopied(s0, s, fd, td, i) && 0 <= i < n && Ranges(fd, td, n)
    requires forall y: Slot :: y.d != td + i ==> FrameOf(s2, y) == FrameOf(s, y)
    requires var a, b := fd + i, td + i; forall t :: FrameOf(s2, Pte(b, t)) == FrameOf(s, Pte(a, t))
    requires var f := FrameOf(s2, Dir(td + i)); Main(f) ==> s0.count[f] == 0
    ensures SlotsCopied(s0, s2, fd, td, i + 1)
  {
    hide LinkOf, FrameOf;
    forall y | !InDirs(y, td, i + 1) ensures FrameOf(s2, y) == FrameOf(s0, y) {
      assert !InDirs(y, td, i);
    }
    forall d, t | td <= d < td + i + 1 ensures FrameOf(s2, Pte(d, t)) == FrameOf(s0, Pte(d - td + fd, t)) {
      if d == td + i { assert !InDirs(Pte(d - td + fd, t), td, i); }
    }
  }

  /** A directory entry that is absent is skipped. */
  lemma SafeSkip(s0: Mem, s: Mem, fd: int, td: int, n: int, i: int)
    requires Inv(s0) && Inv(s) && Ranges(fd, td, n) && DirsCopied(s0, s, fd, td, i) && 0 <= i < n
    requires DirLink(s, td + i).None? && DirLink(s, fd + i).None?
    ensures DirsCopied(s0, s, fd, td, i + 1)
  {
    hide PageAt, Users, LinkOf, View, SlotsCopied;
    ViewLength(s);
    AbsentDirMapsNothing(s, td + i);
    AbsentDirMapsNothing(s, fd + i);
    SlotsCopiedOne(s0, s, s, fd, td, n, i, 0);
  }
}
