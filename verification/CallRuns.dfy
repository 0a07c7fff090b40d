/** Whole runs of the memory manager's own calls: programs are forked, get pages, store into them and
    exit, in any order.  Each call is checked beforehand; up to the first that is outside the guards, the
    programs see what they would see if copying were eager. */
module CallRuns {
  import opened Pages
  import opened EagerCopying
  import opened TableCopying
  import opened CopyTracking
  import opened PageManager

  // ----- the guards, decided from the tables and the counts -----

  /** A free frame could be the table that entries of src are copied to. */
  method CheckPage(src: Page, p: Page) returns (ok: bool)
    requires |src| == |p|
    ensures ok <==> forall t :: 0 <= t < |p| && !Present(src[t]) ==> !Present(p[t])
  {
    var t := 0;
    while t < |p|
      invariant 0 <= t <= |p| && forall u :: 0 <= u < t && !Present(src[u]) ==> !Present(p[u])
    {
      if !Present(src[t]) && Present(p[t]) { return false; }
      t := t + 1;
    }
    ok := true;
  }

  lemma StrayFreeIs(s: Mem, d: int, p: Page)
    requires Inv(s) && DirLink(s, d).Some? && |p| == ENTRIES
    ensures Main(DirLink(s, d).value.frame)
    ensures var src := TablePage(s, d);
      StrayFree(p, s, d) <==> forall t :: 0 <= t < |p| && !Present(src[t]) ==> !Present(p[t])
  {
    TableIsMain(s, d);
    var src := TablePage(s, d);
    assert forall t :: 0 <= t < |p| ==> (LinkOf(s, Pte(d, t)).None? <==> !Present(src[t]));
  }

  /** There is a frame for each new table, and no word in it that the copy would leave. */
  ghost predicate TablesFit(s: Mem, fd: int, n: int)
    requires Shape(s)
  {
    forall i :: 0 <= i < n && DirLink(s, fd + i).Some? ==>
      GivenTo(s, fd, i) > 0 && StrayFree(PageOf(s, GivenTo(s, fd, i)), s, fd + i)
  }

  method CheckTables(m: Manager, fd: int, n: nat) returns (ok: bool)
    requires m.Valid() && FIRST_USER <= fd && fd + n <= ENTRIES
    ensures ok <==> TablesFit(m.St(), fd, n)
  {
    hide StrayFree, LinkOf, Users;
    ghost var s := m.St();
    var i, bound := 0, PG_PAGES + 1;
    while i < n
      invariant 0 <= i <= n && bound == Bound(s, fd, i) && TablesFit(s, fd, i)
    {
      if Present(m.dir[fd + i]) {
        TableIsMain(s, fd + i);
        var g := NextFree(m.memMap[..], bound);
        assert g == GivenTo(s, fd, i);
        if g == 0 { return false; }
        FreshIsMain(s, g);
        StrayFreeIs(s, fd + i, s.phys[g]);
        var clean := CheckPage(m.phys[Frame(m.dir[fd + i])], m.phys[g]);
        if !clean { return false; }
        bound := g;
      }
      i := i + 1;
    }
    ok := true;
  }

  method CheckTargets(m: Manager, td: int, n: nat) returns (ok: bool)
    requires m.Valid() && FIRST_USER <= td && td + n <= ENTRIES
    ensures ok <==> forall d :: td <= d < td + n ==> DirLink(m.St(), d).None?
  {
    var i := 0;
    while i < n
      invariant 0 <= i <= n && forall d :: td <= d < td + i ==> DirLink(m.St(), d).None?
    {
      if Present(m.dir[td + i]) {
        assert DirLink(m.St(), td + i).Some?;
        return false;
      }
      i := i + 1;
    }
    ok := true;
  }

  /** One user more for each present entry of the table. */
  method CountTable(src: Page, adds: array<int>, ghost b: int)
    requires adds.Length == PG_PAGES && MapsMain(src)
    modifies adds
    ensures forall f :: 0 <= f < PG_PAGES ==> adds[f] == old(adds[f]) + |Adds(src, b, |src|, f)|
  {
    hide Adds, Present, Frame;
    forall f ensures Adds(src, b, 0, f) == {} { AddsNone(src, b, f); }
    var t := 0;
    while t < |src|
      invariant 0 <= t <= |src|
      invariant forall f :: 0 <= f < PG_PAGES ==> adds[f] == old(adds[f]) + |Adds(src, b, t, f)|
    {
      forall f ensures Adds(src, b, t + 1, f) ==
        if Present(src[t]) && Frame(src[t]) == f then Adds(src, b, t, f) + {Pte(b, t)} else Adds(src, b, t, f)
        ensures Pte(b, t) !in Adds(src, b, t, f)
      {
        AddsOneMore(src, b, t, f);
      }
      if Present(src[t]) { adds[Frame(src[t])] := adds[Frame(src[t])] + 1; }
      t := t + 1;
    }
  }

  /** One directory entry more. */
  lemma CapOfOneMore(s: Mem, fd: int, td: int, i: int, f: int)
    requires Inv(s) && FIRST_USER <= td && 0 <= i && td + i < ENTRIES && DirLink(s, td + i).None?
    requires DirLink(s, fd + i).Some? && Main(DirLink(s, fd + i).value.frame)
    ensures |Cap(s, fd, td, i + 1, f)| ==
      |Cap(s, fd, td, i, f)| + |Adds(TablePage(s, fd + i), td + i, ENTRIES, f)|
  {
    var src := TablePage(s, fd + i);
    var adds := Adds(src, td + i, ENTRIES, f);
    WordsAre(s, fd + i);
    hide Cap, Adds, LinkOf, Users;
    forall x ensures x in Cap(s, fd, td, i + 1, f) <==> x in Cap(s, fd, td, i, f) || x in adds
      ensures x in adds ==> x !in Cap(s, fd, td, i, f)
    {
      CapMember(s, src, fd, td, i, f, x);
    }
    assert Cap(s, fd, td, i + 1, f) == Cap(s, fd, td, i, f) + adds;
    assert Cap(s, fd, td, i, f) !! adds;
  }

  lemma WordsAre(s: Mem, d: int)
    requires Shape(s) && DirLink(s, d).Some? && Main(DirLink(s, d).value.frame)
    ensures SameWords(s, TablePage(s, d), d)
  {}

  /** The users that a copy adds are the entries that map the frame. */
  lemma CopiesCount(s: Mem, fd: int, td: int, n: int, f: int)
    requires Inv(s) && Ranges(fd, td, n) && forall d :: td <= d < td + n ==> DirLink(s, d).None?
    ensures Copies(s, fd, n, f) <==> |Cap(s, fd, td, n, f)| > |Users(s, f)|
  {
    hide Users, LinkOf;
    CapOfNone(s, fd, td, f);
    CapGrows(s, fd, td, 0, n, f);
    if Copies(s, fd, n, f) {
      CopiedTwice(s, fd, td, n, f);
      if |Cap(s, fd, td, n, f)| == |Users(s, f)| { SameSize(Users(s, f), Cap(s, fd, td, n, f)); }
    } else {
      forall x ensures x in Cap(s, fd, td, n, f) ==> x in Users(s, f) {
        InCap(s, fd, td, n, f, x);
      }
      assert Cap(s, fd, td, n, f) == Users(s, f);
    }
  }

  lemma SameSize(a: set<Slot>, b: set<Slot>)
    requires a <= b && |a| == |b|
    ensures a == b
  {
    assert b == a + (b - a);
  }

  method CountCopies(m: Manager, fd: int, td: int, n: nat) returns (adds: array<int>)
    requires m.Valid() && Ranges(fd, td, n) && forall d :: td <= d < td + n ==> DirLink(m.St(), d).None?
    ensures fresh(adds) && adds.Length == PG_PAGES
    ensures forall f :: Main(f) ==> adds[f] == |Cap(m.St(), fd, td, n, f)| - |Users(m.St(), f)|
  {
    hide Cap, Users, Adds, LinkOf;
    ghost var s := m.St();
    adds := new int[PG_PAGES](f => 0);
    forall f ensures Cap(s, fd, td, 0, f) == Users(s, f) { CapOfNone(s, fd, td, f); }
    var i := 0;
    while i < n
      invariant 0 <= i <= n && m.St() == s && m.Valid()
      invariant forall f :: Main(f) ==> adds[f] == |Cap(s, fd, td, i, f)| - |Users(s, f)|
    {
      if Present(m.dir[fd + i]) {
        TableMapsMain(s, fd + i);
        forall f ensures |Cap(s, fd, td, i + 1, f)| ==
          |Cap(s, fd, td, i, f)| + |Adds(TablePage(s, fd + i), td + i, ENTRIES, f)|
        {
          CapOfOneMore(s, fd, td, i, f);
        }
        CountTable(m.phys[Frame(m.dir[fd + i])], adds, td + i);
      } else {
        forall f ensures Cap(s, fd, td, i + 1, f) == Cap(s, fd, td, i, f) { CapSkip(s, fd, td, i, f); }
      }
      i := i + 1;
    }
  }

  method CheckCounts(m: Manager, fd: int, td: int, n: nat) returns (ok: bool)
    requires m.Valid() && Ranges(fd, td, n) && forall d :: td <= d < td + n ==> DirLink(m.St(), d).None?
    ensures ok <==> NoOverflow(m.St(), fd, td, n)
  {
    hide Cap, Users, LinkOf, Copies;
    ghost var s := m.St();
    var adds := CountCopies(m, fd, td, n);
    forall f ensures Copies(s, fd, n, f) <==> |Cap(s, fd, td, n, f)| > |Users(s, f)| {
      CopiesCount(s, fd, td, n, f);
    }
    var f := START_MEM;
    while f < PG_PAGES
      invariant START_MEM <= f <= PG_PAGES
      invariant forall g :: START_MEM <= g < f && Copies(s, fd, n, g) ==> |Cap(s, fd, td, n, g)| <= 255
    {
      if adds[f] > 0 && m.memMap[f] + adds[f] > 255 {
        assert Copies(s, fd, n, f);
        return false;
      }
      f := f + 1;
    }
    forall g | Copies(s, fd, n, g) ensures |Cap(s, fd, td, n, g)| <= 255 { CopiedIsMain(s, fd, n, g); }
    ok := true;
  }

  /** The page that get_empty_page would need for a table. */
  method CheckEmptyPage(m: Manager, d: int, t: int) returns (ok: bool)
    requires m.Valid() && IsUser(d) && 0 <= t < ENTRIES
    ensures ok <==> EmptyPageFits(m.St(), d) && EmptyPageSafe(m.St(), d, t, TableFrame(m.St()))
  {
    hide LinkOf, Users, Exclusive;
    ghost var s := m.St();
    var g := NextFree(m.memMap[..], PG_PAGES + 1);
    if g == 0 { return false; }
    if Present(m.dir[d]) {
      TableIsMain(s, d);
      LinkIsNone(s, d, t);
      return !Present(m.phys[Frame(m.dir[d])][t]);
    }
    var table := NextFree(m.memMap[..], g);
    if table == 0 { return false; }
    FreshIsMain(s, table);
    ok := CheckTablePage(m.phys[table], t);
  }

  lemma LinkIsNone(s: Mem, d: int, t: int)
    requires Shape(s) && DirLink(s, d).Some? && Main(DirLink(s, d).value.frame) && 0 <= t < ENTRIES
    ensures LinkOf(s, Pte(d, t)).None? <==> !Present(TablePage(s, d)[t])
  {}

  method CheckTablePage(p: Page, t: int) returns (ok: bool)
    ensures ok <==> CleanBut(p, t)
  {
    var u := 0;
    while u < |p|
      invariant 0 <= u <= |p| && forall w :: 0 <= w < u && w != t ==> !Present(p[w])
    {
      if u != t && Present(p[u]) { return false; }
      u := u + 1;
    }
    ok := true;
  }

  /** The second highest free frame. */
  function TableFrame(s: Mem): int
    requires |s.count| == PG_PAGES + 1
  {
    NextFree(s.count, NextFree(s.count, PG_PAGES + 1))
  }

  // ----- the calls -----

  datatype Call =
    | CopyTables(from: int, to: int, size: int)
    | EmptyPage(address: int)
    | FreeTables(from: int, size: int)
    | UserWrite(address: int, v: int)

  /** Addresses of user space that the call accepts. */
  predicate InRange(c: Call) {
    match c
    case CopyTables(from, to, size) =>
      && 0 <= from && 0 <= to && 0 <= size && Aligned(from) && Aligned(to)
      && Ranges(from / TABLE_SIZE, to / TABLE_SIZE, Tables(size))
    case EmptyPage(address) => 0 <= address && IsUser(DirIndex(address))
    case FreeTables(from, size) =>
      && 0 <= from && 0 <= size && Aligned(from) && from != 0
      && IsUser(from / TABLE_SIZE) && from / TABLE_SIZE + Tables(size) <= ENTRIES
    case UserWrite(address, _) => 0 <= address && IsUser(DirIndex(address))
  }

  /** The calls that go well. */
  ghost predicate Proper(s: Mem, c: Call)
    requires Shape(s)
  {
    && InRange(c)
    && match c
       case CopyTables(from, to, size) =>
         var fd, td, n := from / TABLE_SIZE, to / TABLE_SIZE, Tables(size);
         CopySafe(s, fd, td, n) && CopyFits(s, fd, td, n)
       case EmptyPage(address) =>
         var d, t := DirIndex(address), TableIndex(address);
         EmptyPageFits(s, d) && EmptyPageSafe(s, d, t, TableFrame(s))
       case FreeTables(_, _) => true
       case UserWrite(address, _) => StoreEnd(s, Pte(DirIndex(address), TableIndex(address))) == Stored
  }

  /** The same call where copying is eager.  `page` is what a new page holds. */
  function EagerCall(v: Space, c: Call, page: Page): Space {
    match c
    case CopyTables(from, to, size) =>
      var r := EagerCopy(v, from / TABLE_SIZE, to / TABLE_SIZE, Tables(size));
      if r.Some? then r.value else v
    case EmptyPage(address) => MappedEagerly(v, DirIndex(address), TableIndex(address), page)
    case FreeTables(from, size) => Cleared(v, from / TABLE_SIZE, Tables(size))
    case UserWrite(address, w) => Eagerly(v, Store(DirIndex(address), TableIndex(address), Offset(address), w))
  }

  /** In range means above 32 MB and below 4 GB, for copies 4 MB tables apart. */
  lemma RangeIs(c: Call)
    ensures c.FreeTables? ==>
      (InRange(c) <==>
       c.from % 0x40_0000 == 0 && 0x200_0000 <= c.from < 0x1_0000_0000 && 0 <= c.size <= 0x1_0000_0000 - c.from)
    ensures c.CopyTables? && c.size > 0 ==>
      (InRange(c) <==>
       && c.from % 0x40_0000 == 0 && 0x200_0000 <= c.from <= 0x1_0000_0000 - c.size
       && c.to % 0x40_0000 == 0 && 0x200_0000 <= c.to <= 0x1_0000_0000 - c.size
       && (c.from + c.size <= c.to || c.to + c.size <= c.from))
    ensures c.EmptyPage? && c.address < 0x1_0000_0000 ==> (InRange(c) <==> 0x200_0000 <= c.address)
    ensures c.UserWrite? && c.address < 0x1_0000_0000 ==> (InRange(c) <==> 0x200_0000 <= c.address)
  {}

  /** What an eager call does, at each address. */
  lemma CallSeen(v: Space, c: Call, page: Page, b: int)
    requires InRange(c) && |v| == ENTRIES && 0 <= b < 0x1_0000_0000
    requires forall d :: 0 <= d < |v| && v[d].Some? ==> |v[d].value| == ENTRIES
    ensures c.FreeTables? ==>
      Seen(EagerCall(v, c, page), b) == if Touches(c.from, c.size, b) then None else Seen(v, b)
    ensures c.EmptyPage? && c.address < 0x1_0000_0000 ==>
      Seen(EagerCall(v, c, page), b) == if b / 4096 == c.address / 4096 then Some(page) else Seen(v, b)
    ensures c.UserWrite? && c.address < 0x1_0000_0000 && HasPage(v, c.address) ==>
      WordSeen(EagerCall(v, c, page), b) == if b / 4 == c.address / 4 then Some(c.v) else WordSeen(v, b)
    ensures c.CopyTables? && EagerCopy(v, c.from / TABLE_SIZE, c.to / TABLE_SIZE, Tables(c.size)).Some? ==>
      && (Touches(c.from, c.size, b) ==> Seen(EagerCall(v, c, page), c.to + (b - c.from)) == Seen(v, b))
      && (!Touches(c.to, c.size, b) ==> Seen(EagerCall(v, c, page), b) == Seen(v, b))
  {
    hide Seen, WordSeen, Touches, Tables, EagerCopy, Eagerly, MappedEagerly, DirIndex, TableIndex, Offset;
    match c {
      case CopyTables(from, to, size) =>
        var r := EagerCopy(v, from / TABLE_SIZE, to / TABLE_SIZE, Tables(size));
        if r.Some? { CopySeen(v, r.value, from, to, size); }
      case EmptyPage(address) => if address < 0x1_0000_0000 { MapSeen(v, address, page); }
      case FreeTables(from, size) => ClearSeen(v, from, size);
      case UserWrite(address, w) =>
        if address < 0x1_0000_0000 && HasPage(v, address) { StoreSeen(v, address, w); }
    }
  }

  function AllEagerCalls(v: Space, calls: seq<Call>, pages: seq<Page>): Space
    requires |calls| == |pages|
    decreases |calls|
  {
    if calls == [] then v
    else
      var n := |calls| - 1;
      EagerCall(AllEagerCalls(v, calls[..n], pages[..n]), calls[n], pages[n])
  }

  method ServeCopy(m: Manager, from: int, to: int, size: int) returns (ok: bool)
    requires m.Valid()
    modifies m.memMap, m.dir, m.phys
    ensures m.Valid()
    ensures ok <==> Proper(old(m.St()), CopyTables(from, to, size))
    ensures ok ==> View(m.St()) == EagerCall(old(View(m.St())), CopyTables(from, to, size), [])
    ensures !ok ==> m.St() == old(m.St())
  {
    hide View, Users, LinkOf, EagerCopy, NoOverflow, StrayFree, Inv;
    if !InRange(CopyTables(from, to, size)) { return false; }
    var fd, td, n := from / TABLE_SIZE, to / TABLE_SIZE, Tables(size);
    TestsAre(m.St(), fd, td, n);
    ok := CheckTargets(m, td, n);
    if ok { ok := CheckTables(m, fd, n); }
    if ok { ok := CheckCounts(m, fd, td, n); }
    if ok {
      var done := m.CopyPageTables(from, to, size);
    }
  }

  lemma TestsAre(s: Mem, fd: int, td: int, n: int)
    requires Inv(s)
    ensures CopySafe(s, fd, td, n) && CopyFits(s, fd, td, n) <==>
      && (forall d :: td <= d < td + n ==> DirLink(s, d).None?)
      && TablesFit(s, fd, n) && NoOverflow(s, fd, td, n)
  {
    hide NoOverflow, StrayFree, DirLink;
  }

  method ServeEmptyPage(m: Manager, address: int) returns (ok: bool, ghost page: Page)
    requires m.Valid()
    modifies m.memMap, m.dir, m.phys
    ensures m.Valid()
    ensures ok <==> Proper(old(m.St()), EmptyPage(address))
    ensures ok ==> View(m.St()) == EagerCall(old(View(m.St())), EmptyPage(address), page)
    ensures !ok ==> m.St() == old(m.St())
  {
    hide View, Users, LinkOf, MappedEagerly, EmptyPageSafe, EmptyPageFits, Exclusive;
    page := [];
    if !InRange(EmptyPage(address)) { return false, page; }
    ok := CheckEmptyPage(m, DirIndex(address), TableIndex(address));
    if ok {
      ghost var phys := m.phys[..];
      var done, g := m.GetEmptyPage(address);
      page := phys[g];
    }
  }

  method ServeFree(m: Manager, from: int, size: int) returns (ok: bool)
    requires m.Valid()
    modifies m.memMap, m.dir, m.phys
    ensures m.Valid()
    ensures ok <==> Proper(old(m.St()), FreeTables(from, size))
    ensures ok ==> View(m.St()) == EagerCall(old(View(m.St())), FreeTables(from, size), [])
    ensures !ok ==> m.St() == old(m.St())
  {
    hide View, Users, LinkOf, Exclusive;
    if !InRange(FreeTables(from, size)) { return false; }
    ok := m.FreePageTables(from, size);
    assert View(m.St()) == Cleared(old(View(m.St())), from / TABLE_SIZE, Tables(size));
  }

  method ServeWrite(m: Manager, address: int, v: int) returns (ok: bool)
    requires m.Valid()
    modifies m.memMap, m.dir, m.phys
    ensures m.Valid()
    ensures ok <==> Proper(old(m.St()), UserWrite(address, v))
    ensures ok ==> View(m.St()) == EagerCall(old(View(m.St())), UserWrite(address, v), [])
    ensures !ok ==> m.St() == old(m.St())
  {
    hide View, Users, LinkOf, Inv, Eagerly, StoreEnd;
    if !InRange(UserWrite(address, v)) { return false; }
    var r := m.UserStore(address, v);
    ok := r.Stored?;
  }

  /** One call, if it is proper; otherwise nothing. */
  method Serve(m: Manager, c: Call) returns (ok: bool, ghost page: Page)
    requires m.Valid()
    modifies m.memMap, m.dir, m.phys
    ensures m.Valid()
    ensures ok <==> Proper(old(m.St()), c)
    ensures ok ==> View(m.St()) == EagerCall(old(View(m.St())), c, page)
    ensures !ok ==> m.St() == old(m.St())
  {
    hide View, Proper, EagerCall, Exclusive, Users;
    page := [];
    match c {
      case CopyTables(from, to, size) => ok := ServeCopy(m, from, to, size);
      case EmptyPage(address) => ok, page := ServeEmptyPage(m, address);
      case FreeTables(from, size) => ok := ServeFree(m, from, size);
      case UserWrite(address, v) => ok := ServeWrite(m, address, v);
    }
  }

  /** The calls up to the first that is not proper: one outside CopySafe or EmptyPageSafe, one for which
      there are not enough frames, or one that the code or the processor refuses.  The counts, the
      exclusiveness of writable pages and the programs' views are then those of eager copying. */
  method Execute(m: Manager, calls: seq<Call>) returns (served: nat, ghost pages: seq<Page>)
    requires m.Valid()
    modifies m.memMap, m.dir, m.phys
    ensures m.Valid() && served == |pages| <= |calls|
    ensures View(m.St()) == AllEagerCalls(old(View(m.St())), calls[..served], pages)
    ensures served < |calls| ==> !Proper(m.St(), calls[served])
  {
    hide View, Proper, EagerCall, Exclusive, Users;
    ghost var v := View(m.St());
    served, pages := 0, [];
    assert calls[..0] == [];
    var ok := true;
    while ok && served < |calls|
      invariant m.Valid() && served == |pages| <= |calls|
      invariant View(m.St()) == AllEagerCalls(v, calls[..served], pages)
      invariant !ok ==> served < |calls| && !Proper(m.St(), calls[served])
      decreases |calls| - served, ok
    {
      ghost var page;
      ok, page := Serve(m, calls[served]);
      if ok {
        assert calls[..served + 1][..served] == calls[..served];
        assert (pages + [page])[..served] == pages;
        served, pages := served + 1, pages + [page];
      }
    }
  }
}
