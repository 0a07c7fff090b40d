/** mm/mm.c: reference counts, directory and frames, changed in place.

    `panic` does not return; a method's result `ok` is false exactly where the code panics. */
module PageManager {
  import opened Pages
  import opened EagerCopying
  import opened KernelFrames
  import opened TableCopying
  import opened CopyTracking

  const TABLE_SIZE := 0x400000

  class Manager {
    /** mem_map, and behind it the byte that get_free_page looks at first. */
    const memMap: array<int>
    /** The directory. */
    const dir: array<int>
    /** Physical memory, frame by frame, each 1024 words. */
    const phys: array<Page>

    constructor (counts: array<int>, directory: array<int>, frames: array<Page>)
      ensures memMap == counts && dir == directory && phys == frames
    {
      memMap, dir, phys := counts, directory, frames;
    }

    ghost function St(): Mem
      reads memMap, dir, phys
    {
      Mem(memMap[..], dir[..], phys[..])
    }

    ghost predicate Valid()
      reads memMap, dir, phys
    {
      memMap != dir && Inv(St())
    }

    /** get_free_page: the highest free frame, or 0 (out of memory, a panic).  If the byte
        behind the table happens to be zero, it is a frame that does not exist.  While the kernel's
        frames count as free, one of them is given out exactly when all frames above are in use. */
    method GetFreePage() returns (i: int)
      requires memMap.Length == PG_PAGES + 1
      modifies memMap
      ensures 0 <= i <= PG_PAGES && forall j :: i < j <= PG_PAGES ==> old(memMap[j]) != 0
      ensures i == 0 ==> memMap[..] == old(memMap[..])
      ensures i > 0 ==> old(memMap[i]) == 0 && memMap[..] == old(memMap[..])[i := 1]
      ensures old(memMap[LAST_TABLE]) == 0 ==>
        (IsKernelFrame(i) <==> forall j :: LAST_TABLE < j <= PG_PAGES ==> old(memMap[j]) != 0)
    {
      i := PG_PAGES;
      while i > 0
        invariant 0 <= i <= PG_PAGES && forall j :: i < j <= PG_PAGES ==> memMap[j] != 0
      {
        if memMap[i] == 0 { break; }
        i := i - 1;
      }
      if i != 0 { memMap[i] := memMap[i] + 1; }
    }

    /** un_wp_page on entry t of directory entry d: afterwards the entry is writable and no program sees
        any difference.  Memory runs out exactly if the page has another user and no frame is free. */
    method UnWpPage(d: int, t: int) returns (ok: bool)
      requires Valid() && DirLink(St(), d).Some? && 0 <= t < ENTRIES && LinkOf(St(), Pte(d, t)).Some?
      modifies memMap, phys
      ensures !ok <==> old(NeedsFrame(St(), Pte(d, t)) && NoFreeFrame(memMap[..]))
      ensures !ok ==> NoFreeFrame(memMap[..]) && St() == old(St())
      ensures ok ==>
        && Valid() && View(St()) == old(View(St())) && SameDirs(old(St()), St())
        && LinkOf(St(), Pte(d, t)).Some? && LinkOf(St(), Pte(d, t)).value.writable
        && (forall y :: y != Pte(d, t) ==> LinkOf(St(), y) == old(LinkOf(St(), y)))
      ensures ok && 0 <= old(FrameOf(St(), Pte(d, t))) <= PG_PAGES ==>
        (old(memMap[FrameOf(St(), Pte(d, t))]) == 1 <==> FrameOf(St(), Pte(d, t)) == old(FrameOf(St(), Pte(d, t))))
    {
      hide View, Users, PageAt, Full, Unprotect, Exclusive;
      ghost var s := St();
      TableIsMain(s, d);
      MappedIsMain(s, d, t);
      var table := Frame(dir[d]);
      var w := phys[table][t];
      var page := Frame(w);
      if page >= LOW_MEM && memMap[page] == 1 {
        phys[table] := phys[table][t := Unprotect(w)];
        UpgradeStep(s, d, t);
        assert St() == SetWord(s, d, t, Unprotect(w));
        ViewSame(s, St());
        return true;
      }
      var newPage := GetFreePage();
      if newPage == 0 { assert St() == s; return false; }
      FreshIsMain(s, newPage);
      MoveStep(s, d, t, newPage);
      MoveEntry(table, t, page, newPage);
      assert St() == Moved(s, d, t, newPage);
      ViewSame(s, St());
      ok := true;
    }

    /** un_wp_page from line 174 on: the entry goes to a new page, which gets a copy of the old. */
    method MoveEntry(table: int, t: int, page: int, newPage: int)
      requires Shape(St()) && Main(table) && 0 <= t < ENTRIES && Main(page) && Main(newPage) && table != newPage
      modifies memMap, phys
      ensures memMap[..] == old(memMap[..])[page := old(memMap[page]) - 1]
      ensures var p := old(phys[..])[table := old(phys[table])[t := Full(newPage)]];
        phys[..] == p[newPage := p[page]]
    {
      if page >= LOW_MEM { memMap[page] := memMap[page] - 1; }
      phys[table] := phys[table][t := Full(newPage)];
      phys[newPage] := phys[page];
    }

    /** mem_init and setup_page: main memory is free, the kernel's eight directory entries are
        present, no program has a page.  The invariant holds from the start unless the byte
        behind mem_map is zero.  The directory and the tables of the kernel's entries lie in frames
        that count as free. */
    method MemInit()
      requires memMap != dir && memMap.Length == PG_PAGES + 1 && dir.Length == ENTRIES && phys.Length == PG_PAGES
      requires forall f :: 0 <= f < PG_PAGES ==> |phys[f]| == ENTRIES
      modifies memMap, dir
      ensures Valid() <==> old(memMap[PG_PAGES]) != 0
      ensures View(St()) == seq(ENTRIES, _ => None)
      ensures KernelMapped(St()) && KernelAlone(St())
    {
      var i := 0;
      while i < PG_PAGES
        invariant 0 <= i <= PG_PAGES && memMap[PG_PAGES] == old(memMap[PG_PAGES])
        invariant forall j :: 0 <= j < i ==> memMap[j] == 100
      {
        memMap[i] := 100;
        i := i + 1;
      }
      i := START_MEM;
      var pages := PG_PAGES - START_MEM;
      while pages > 0
        invariant 0 <= pages && i == PG_PAGES - pages && memMap[PG_PAGES] == old(memMap[PG_PAGES])
        invariant forall j :: 0 <= j < START_MEM ==> memMap[j] == 100
        invariant forall j :: START_MEM <= j < i ==> memMap[j] == 0
      {
        memMap[i] := 0;
        i, pages := i + 1, pages - 1;
      }
      i := 0;
      ghost var counts := memMap[..];
      while i < ENTRIES
        invariant 0 <= i <= ENTRIES && memMap[..] == counts
        invariant forall j :: FIRST_USER <= j < i ==> dir[j] == 6
        invariant forall j :: 0 <= j < i && j < FIRST_USER ==> dir[j] == Full(DIRECTORY + 1 + j)
      {
        dir[i] := if i < FIRST_USER then (DIRECTORY + 1 + i) * 4096 + 7 else 6;
        i := i + 1;
      }
      forall j | 0 <= j < FIRST_USER ensures Present(dir[j]) && Frame(dir[j]) == DIRECTORY + 1 + j {
        FullFacts(DIRECTORY + 1 + j);
      }
      EmptySpace(St());
    }

    /** A store by a program.  The processor refuses it on an absent page, and calls
        do_wp_page on a write-protected one. */
    method UserStore(address: int, v: int) returns (r: StoreResult)
      requires Valid() && 0 <= address && IsUser(DirIndex(address))
      modifies memMap, phys
      ensures r == old(StoreEnd(St(), Pte(DirIndex(address), TableIndex(address))))
      ensures r.Stored? ==>
        && Valid() && old(LinkOf(St(), Pte(DirIndex(address), TableIndex(address)))).Some?
        && View(St()) == Eagerly(old(View(St())), Store(DirIndex(address), TableIndex(address), Offset(address), v))
      ensures r.NotMapped? ==>
        old(LinkOf(St(), Pte(DirIndex(address), TableIndex(address)))).None? && St() == old(St())
      ensures r.NoMemory? ==> NoFreeFrame(memMap[..]) && St() == old(St())
      ensures r.NotMapped? && address < 0x1_0000_0000 <==>
        address < 0x1_0000_0000 && old(Seen(View(St()), address)).None?
      ensures r.NoMemory? <==>
        && (forall f :: 0 < f <= PG_PAGES ==> old(memMap[f]) != 0)
        && old(var l := LinkOf(St(), Pte(DirIndex(address), TableIndex(address)));
            l.Some? && !l.value.writable && (0 <= l.value.frame < PG_PAGES ==> memMap[l.value.frame] != 1))
      ensures r.Stored? && address < 0x1_0000_0000 ==> forall b :: 0 <= b < 0x1_0000_0000 ==>
        WordSeen(View(St()), b) == if b / 4 == address / 4 then Some(v) else old(WordSeen(View(St()), b))
    {
      hide View, Users, PageAt, Seen, WordSeen, Eagerly, Exclusive, DirIndex, TableIndex, Offset;
      StoredSeen(St(), address, v);
      AddressInRange(address);
      var d, t, off := DirIndex(address), TableIndex(address), Offset(address);
      if !Present(dir[d]) { return NotMapped; }
      ghost var s := St();
      TableIsMain(s, d);
      var w := phys[Frame(dir[d])][t];
      if !Present(w) { return NotMapped; }
      if !Writable(w) {
        var ok := DoWpPage(address);
        if !ok { return NoMemory; }
      }
      StoreWritable(d, t, off, v);
      r := Stored;
    }

    method StoreWritable(d: int, t: int, off: int, v: int)
      requires Valid() && Enabled(St(), Store(d, t, off, v)) && DirLink(St(), d).Some? && 0 <= t < ENTRIES
      modifies phys
      ensures Valid() && View(St()) == Eagerly(old(View(St())), Store(d, t, off, v))
    {
      hide View, Users, PageAt;
      ghost var s := St();
      TableIsMain(s, d);
      MappedIsMain(s, d, t);
      StepRefines(s, Store(d, t, off, v));
      var f := Frame(phys[Frame(dir[d])][t]);
      phys[f] := phys[f][off := v];
      assert St() == Pages.Stored(s, d, t, off, v);
    }

    /** do_wp_page */
    method DoWpPage(address: int) returns (ok: bool)
      requires Valid() && 0 <= address
      requires var x := Pte(DirIndex(address), TableIndex(address));
        DirLink(St(), x.d).Some? && LinkOf(St(), x).Some?
      modifies memMap, phys
      ensures !ok <==>
        old(NeedsFrame(St(), Pte(DirIndex(address), TableIndex(address))) && NoFreeFrame(memMap[..]))
      ensures !ok ==> NoFreeFrame(memMap[..]) && St() == old(St())
      ensures ok ==>
        && Valid() && View(St()) == old(View(St())) && SameDirs(old(St()), St())
        && var x := Pte(DirIndex(address), TableIndex(address));
           && LinkOf(St(), x).Some? && LinkOf(St(), x).value.writable
           && (forall y :: y != x ==> LinkOf(St(), y) == old(LinkOf(St(), y)))
    {
      ok := UnWpPage(DirIndex(address), TableIndex(address));
    }

    /** put_page, which accepts only a page that one user is counted for.  `table` is the frame taken
        for a new page table, or 0. */
    method PutPage(page: int, address: int) returns (ok: bool, table: int)
      requires memMap != dir && Shape(St()) && 0 <= address && IsUser(DirIndex(address)) && 0 <= page
      requires DirLink(St(), DirIndex(address)).Some? ==> Main(DirLink(St(), DirIndex(address)).value.frame)
      requires forall f :: 0 < f <= PG_PAGES && memMap[f] == 0 ==> Main(f)
      modifies memMap, dir, phys
      ensures ok <==> old(Accepted(St(), page) && (DirLink(St(), DirIndex(address)).Some? || !NoFreeFrame(memMap[..])))
      ensures ok ==> old(Accepted(St(), page))
      ensures !ok ==> St() == old(St()) && (old(Accepted(St(), page)) ==> NoFreeFrame(memMap[..]))
      ensures ok && old(DirLink(St(), DirIndex(address))).Some? ==>
        St() == old(SetWord(St(), DirIndex(address), TableIndex(address), Full(page)))
      ensures ok && old(DirLink(St(), DirIndex(address))).None? ==>
        && table == NextFree(old(memMap[..]), PG_PAGES + 1) && Main(table) && old(memMap[table]) == 0
        && var s1 := WithTable(old(St()), DirIndex(address), table);
           DirLink(s1, DirIndex(address)) == Some(Link(table, true))
           && St() == SetWord(s1, DirIndex(address), TableIndex(address), Full(page))
    {
      var d, t := DirIndex(address), TableIndex(address);
      if page < LOW_MEM || page > PG_PAGES || memMap[page] != 1 { return false, 0; }
      if Present(dir[d]) {
        table := 0;
        phys[Frame(dir[d])] := phys[Frame(dir[d])][t := Full(page)];
      } else {
        table := GetFreePage();
        if table == 0 {
          assert St() == old(St());
          return false, 0;
        }
        NextFreeIs(old(memMap[..]), PG_PAGES + 1, table);
        FullFacts(table);
        dir[d] := Full(table);
        phys[table] := phys[table][t := Full(page)];
      }
      ok := true;
    }

    /** get_empty_page.  The program gets a new page at an address that had none.  It goes wrong in two
        ways, both of which the caller can see beforehand: at an address that had a page, that page's
        count is never brought down; and if a page table is needed, the frame that it will lie in, the
        second highest free one, must not hold anything that looks like a present entry, but for the
        word that is overwritten. */
    method GetEmptyPage(address: int) returns (ok: bool, page: int)
      requires Valid() && 0 <= address && IsUser(DirIndex(address))
      modifies memMap, dir, phys
      ensures ok <==> old(EmptyPageFits(St(), DirIndex(address)))
      ensures !ok ==> NoFreeFrame(memMap[..])
      ensures ok ==> page == NextFree(old(memMap[..]), PG_PAGES + 1) && Main(page) && old(memMap[page]) == 0
      ensures ok ==>
        (Valid() <==> old(EmptyPageSafe(St(), DirIndex(address), TableIndex(address), NextFree(memMap[..], page))))
      ensures ok && Valid() ==>
        View(St()) == MappedEagerly(old(View(St())), DirIndex(address), TableIndex(address), old(phys[page]))
      ensures ok <==>
        exists f :: 0 < f <= PG_PAGES && old(memMap[f]) == 0 &&
          (old(DirLink(St(), DirIndex(address))).Some? || exists g :: 0 < g < f && old(memMap[g]) == 0)
      ensures ok && Valid() && address < 0x1_0000_0000 ==> forall b :: 0 <= b < 0x1_0000_0000 ==>
        Seen(View(St()), b) == if b / 4096 == address / 4096 then Some(old(phys[page])) else old(Seen(View(St()), b))
    {
      hide View, Users, PageAt, EmptyPageSafe, NextFree, MappedEagerly;
      ghost var s := St();
      var d, t := DirIndex(address), TableIndex(address);
      FitsAre(s, d);
      page := GetFreePage();
      NextFreeIs(s.count, PG_PAGES + 1, page);
      if page == 0 { return false, 0; }
      FreshIsMain(s, page);
      CountsAreNoLinks(s, St());
      NextFreeAfter(s.count, PG_PAGES + 1, memMap[..]);
      NoneFreeIs(memMap[..]);
      if Present(dir[d]) { TableIsMain(s, d); }
      ghost var m := St();
      var table;
      ok, table := PutPage(page, address);
      if ok {
        EmptyPageEnd(s, m, St(), d, t, page, table);
        NewPageSeen(s, address, s.phys[page]);
      }
    }

    /** free_page: one user fewer; a panic if there was none. */
    method FreePage(f: int) returns (ok: bool)
      requires memMap.Length == PG_PAGES + 1 && 0 <= f
      modifies memMap
      ensures ok <==> f < PG_PAGES && old(memMap[f]) != 0
      ensures memMap[..] == if ok then old(memMap[..])[f := old(memMap[f]) - 1] else old(memMap[..])
    {
      if f >= PG_PAGES { return false; }
      if memMap[f] != 0 {
        memMap[f] := memMap[f] - 1;
        return true;
      }
      memMap[f] := 0;
      ok := false;
    }

    /** free_page_tables.  The directory entries of the range are gone, every page they mapped
        has one user fewer, and no other slot has changed: no page is seen at an address of the range,
        and nothing new at one that is not within 4 MB of it. */
    method FreePageTables(from: int, size: int) returns (ok: bool)
      requires Valid() && 0 <= from && 0 <= size
      requires Aligned(from) && from != 0 ==>
        IsUser(from / TABLE_SIZE) && from / TABLE_SIZE + Tables(size) <= ENTRIES
      modifies memMap, dir, phys
      ensures ok <==> Aligned(from) && from != 0
      ensures !ok ==> St() == old(St())
      ensures ok ==> Valid() && DirsFreed(old(St()), St(), from / TABLE_SIZE, Tables(size))
      ensures ok ==> forall a :: from <= a < from + size ==> Seen(View(St()), a).None?
      ensures ok ==> forall a :: 0 <= a < 0x1_0000_0000 ==>
        Seen(View(St()), a) == if Touches(from, size, a) then None else old(Seen(View(St()), a))
    {
      hide View, Users, PageAt, LinkOf, DirsFreed, Seen, Touches;
      if !Aligned(from) || from == 0 { return false; }
      var d, n := from / TABLE_SIZE, Tables(size);
      ghost var s0 := St();
      NoDirsFreed(s0, d);
      var i := 0;
      while i < n
        invariant 0 <= i <= n && Valid() && DirsFreed(s0, St(), d, i)
      {
        ghost var s := St();
        if Present(dir[d + i]) {
          ClearTable(d + i);
          ghost var s1 := St();
          OneDirFreed(s0, s, s1, d, i);
          var done := FreePage(Frame(dir[d + i]));
          dir[d + i] := 0;
          assert St() == WithoutTable(s1, d + i);
        } else {
          OneDirAbsent(s0, s, d, i);
        }
        i := i + 1;
      }
      FreedSeen(s0, St(), from, size);
      ok := true;
    }

    /** The inner loop of free_page_tables. */
    method ClearTable(d: int)
      requires Valid() && DirLink(St(), d).Some?
      modifies memMap, phys
      ensures Valid() && dir[..] == old(dir[..]) && TableCleared(old(St()), St(), d, ENTRIES)
    {
      hide View, Users, PageAt, LinkOf, TableCleared;
      ghost var s0 := St();
      TableIsMain(s0, d);
      NothingCleared(s0, d);
      var t := 0;
      while t < ENTRIES
        invariant 0 <= t <= ENTRIES && Valid() && dir[..] == old(dir[..]) && TableCleared(s0, St(), d, t)
      {
        ghost var s := St();
        EntryCleared(s0, s, d, t);
        ClearEntry(d, t);
        t := t + 1;
      }
    }

    method ClearEntry(d: int, t: int)
      requires memMap != dir && Shape(St()) && DirLink(St(), d).Some? && 0 <= t < ENTRIES
      requires Main(DirLink(St(), d).value.frame)
      requires var l := LinkOf(St(), Pte(d, t)); l.Some? ==> Main(l.value.frame) && St().count[l.value.frame] > 0
      modifies memMap, phys
      ensures dir[..] == old(dir[..]) && St() == old(Unmapped(St(), d, t))
    {
      var table := Frame(dir[d]);
      var w := phys[table][t];
      if Present(w) { var done := FreePage(Frame(w)); }
      phys[table] := phys[table][t := 0];
    }

    /** copy_page_tables.  The state it leaves is sound exactly if the copy is safe, and then the
        directory entries at `to` see the pages that those at `from` see; to every program it is as if
        each page had been copied.  It panics exactly on a wrong alignment, where eager copying would
        overwrite a table, and when memory runs out. */
    method CopyPageTables(from: int, to: int, size: int) returns (ok: bool)
      requires Valid() && 0 <= from && 0 <= to && 0 <= size
      requires Aligned(from) && Aligned(to) ==> Ranges(from / TABLE_SIZE, to / TABLE_SIZE, Tables(size))
      modifies memMap, dir, phys
      ensures !ok ==>
        || !Aligned(from) || !Aligned(to) || NoFreeFrame(memMap[..])
        || exists a :: to <= a < to + size && old(DirLink(St(), DirIndex(a)).Some?)
      ensures ok ==> Aligned(from) && Aligned(to)
      ensures Aligned(from) && Aligned(to) && old(CopySafe(St(), from / TABLE_SIZE, to / TABLE_SIZE, Tables(size))) ==>
        (ok <==> old(CopyFits(St(), from / TABLE_SIZE, to / TABLE_SIZE, Tables(size))))
      ensures ok ==> (Valid() <==> old(CopySafe(St(), from / TABLE_SIZE, to / TABLE_SIZE, Tables(size))))
      ensures ok && Valid() ==> DirsCopied(old(St()), St(), from / TABLE_SIZE, to / TABLE_SIZE, Tables(size))
      ensures ok && Valid() ==>
        forall a :: from <= a < from + size ==> Seen(View(St()), to + (a - from)) == old(Seen(View(St()), a))
      ensures ok && Valid() ==> forall a :: 0 <= a < 0x1_0000_0000 && Touches(from, size, a) ==>
        Seen(View(St()), to + (a - from)) == old(Seen(View(St()), a))
      ensures ok && Valid() ==> forall b :: 0 <= b < 0x1_0000_0000 && !Touches(to, size, b) ==>
        Seen(View(St()), b) == old(Seen(View(St()), b))
    {
      hide Seen, Touches;
      hide View, Users, PageAt, LinkOf, DirsCopied, CopySafe, CopyFits, EagerCopy, Progress, DirDone, TableCopy;
      hide NextFree, Exclusive, MapsMain;
      if !Aligned(from) || !Aligned(to) { return false; }
      var fd, td, n := from / TABLE_SIZE, to / TABLE_SIZE, Tables(size);
      ghost var s0 := St();
      var i := 0;
      NoProgress(s0, fd, td, n);
      while i < n
        invariant 0 <= i <= n && Progress(s0, St(), fd, td, n, i)
      {
        ghost var s := St();
        BodyNeeds(s0, s, fd, td, n, i);
        if Present(dir[td + i]) {
          TableInTheWay(s0, to, size, i);
          BodyFull(s0, s, fd, td, n, i);
          return false;
        }
        if Present(dir[fd + i]) {
          var table := GetFreePage();
          NextFreeIs(s.count, PG_PAGES + 1, table);
          if table == 0 {
            BodyRunsOut(s0, s, fd, td, n, i);
            return false;
          }
          BodyTable(s0, s, fd, td, n, i, table);
          dir[td + i] := Full(table);
          var nr := if from == 0 then 0xA0 else ENTRIES;
          assert St() == WithTable(s, td + i, table);
          CopyTable(fd + i, td + i, nr);
          BodyCopies(s0, s, St(), fd, td, n, i, table);
        } else {
          BodySkips(s0, s, fd, td, n, i);
        }
        i := i + 1;
      }
      SoundIfSafe(s0, St(), fd, td, n);
      if CopySafe(s0, fd, td, n) { EndFits(s0, St(), fd, td, n); }
      if Inv(St()) { CopiedSeen(s0, St(), from, to, size); }
      ok := true;
    }

    /** The inner loop of copy_page_tables. */
    method CopyTable(fd: int, td: int, nr: nat)
      requires memMap != dir && TablesApart(St(), fd, td) && nr <= ENTRIES && MapsMain(TablePage(St(), fd))
      modifies memMap, phys
      ensures dir[..] == old(dir[..]) && St() == TableCopy(old(St()), fd, td, nr)
    {
      hide TableCopy, LinkOf, TablePage, Protect;
      ghost var s := St();
      var t := 0;
      NoEntriesCopied(s, fd, td);
      while t < nr
        invariant 0 <= t <= nr && dir[..] == old(dir[..]) && St() == TableCopy(s, fd, td, t)
      {
        OneEntryMore(s, fd, td, t);
        var w := phys[Frame(dir[fd])][t];
        if Present(w) {
          ProtectFacts(w);
          AboveLowMem(w);
          ShareEntry(fd, td, t);
        }
        t := t + 1;
      }
    }

    /** Lines 147-153, for a present entry. */
    method ShareEntry(fd: int, td: int, t: int)
      requires memMap != dir && TablesApart(St(), fd, td) && 0 <= t < ENTRIES
      requires var w := WordAt(St(), fd, t);
        Frame(Protect(w)) == Frame(w) && Main(Frame(w)) && Protect(w) > LOW_MEM * 4096
      modifies memMap, phys
      ensures dir[..] == old(dir[..])
      ensures var s, w := old(St()), old(WordAt(St(), fd, t));
        St() == SetWord(SetWord(s, fd, t, Protect(w)), td, t, Protect(w))
                  .(count := s.count[Frame(w) := (s.count[Frame(w)] + 1) % 256])
    {
      hide Protect;
      var fromTable, toTable := Frame(dir[fd]), Frame(dir[td]);
      var w := Protect(phys[fromTable][t]);
      phys[toTable] := phys[toTable][t := w];
      if w > LOW_MEM * 4096 {
        phys[fromTable] := phys[fromTable][t := w];
        memMap[Frame(w)] := (memMap[Frame(w)] + 1) % 256;
      }
    }
  }

  datatype StoreResult = Stored | NotMapped | NoMemory

  function DirIndex(address: int): int { address / TABLE_SIZE % ENTRIES }

  function TableIndex(address: int): int { address / 4096 % ENTRIES }

  /** (size + 0x3fffff) >> 22 */
  function Tables(size: int): int { (size + 0x3fffff) / TABLE_SIZE }

  predicate Aligned(a: int) { a % TABLE_SIZE == 0 }

  /** The word within the page. */
  function Offset(address: int): int { address % 4096 / 4 }

  /** The parts of a 32-bit address: directory entry, table entry, word and byte. */
  lemma AddressParts(address: int)
    requires 0 <= address < 0x1_0000_0000
    ensures 0 <= DirIndex(address) < 0x400 && 0 <= TableIndex(address) < 0x400 && 0 <= Offset(address) < 0x400
    ensures address ==
      DirIndex(address) * 0x40_0000 + TableIndex(address) * 0x1000 + Offset(address) * 4 + address % 4
  {}

  lemma AddressInRange(address: int)
    requires 0 <= address
    ensures 0 <= TableIndex(address) < ENTRIES && 0 <= Offset(address) < ENTRIES
  {}

  /** Addresses of one page, and of one word, have the same parts; those of others do not. */
  lemma SameParts(a: int, b: int)
    requires 0 <= a < 0x1_0000_0000 && 0 <= b < 0x1_0000_0000
    ensures DirIndex(a) == DirIndex(b) <==> a / 0x40_0000 == b / 0x40_0000
    ensures DirIndex(a) == DirIndex(b) && TableIndex(a) == TableIndex(b) <==> a / 0x1000 == b / 0x1000
    ensures DirIndex(a) == DirIndex(b) && TableIndex(a) == TableIndex(b) && Offset(a) == Offset(b) <==> a / 4 == b / 4
  {
    AddressParts(a);
    AddressParts(b);
  }

  /** The page that a program sees at an address, and the word of it. */
  function Seen(v: Space, address: int): Option<Page> {
    GetPage(v, DirIndex(address), TableIndex(address))
  }

  function WordSeen(v: Space, address: int): Option<int> {
    var p := Seen(v, address);
    if p.Some? && 0 <= Offset(address) < |p.value| then Some(p.value[Offset(address)]) else None
  }

  predicate HasPage(v: Space, address: int) {
    Seen(v, address).Some? && |Seen(v, address).value| == ENTRIES
  }

  /** Some address of [from, from + size) is in the same 4 MB as a. */
  ghost predicate Touches(from: int, size: int, a: int) {
    exists b :: from <= b < from + size && b / 0x40_0000 == a / 0x40_0000
  }

  /** The tables that a call works on are those of the addresses in its range. */
  lemma TablesTouched(from: int, size: int, a: int)
    requires 0 <= from && 0 <= size && 0 <= a && Aligned(from)
    ensures from / TABLE_SIZE <= a / TABLE_SIZE < from / TABLE_SIZE + Tables(size) <==> Touches(from, size, a)
  {
    var d, e, n := from / TABLE_SIZE, a / TABLE_SIZE, Tables(size);
    assert from == d * TABLE_SIZE;
    if d <= e < d + n {
      var b := e * TABLE_SIZE;
      assert from <= b < from + size;
      assert b / 0x40_0000 == e;
    }
  }

  /** An address and its copy differ in the directory entry only. */
  lemma ShiftParts(a: int, from: int, to: int)
    requires 0 <= a < 0x1_0000_0000 && 0 <= to + (a - from) < 0x1_0000_0000 && Aligned(from) && Aligned(to)
    ensures DirIndex(to + (a - from)) == DirIndex(a) + (to / TABLE_SIZE - from / TABLE_SIZE)
    ensures TableIndex(to + (a - from)) == TableIndex(a)
  {
    var k := to / TABLE_SIZE - from / TABLE_SIZE;
    var b := to + (a - from);
    assert b == a + k * TABLE_SIZE;
    AddressParts(a);
    AddressParts(b);
    assert b / TABLE_SIZE == a / TABLE_SIZE + k;
  }

  /** Copying entry by entry, seen at once. */
  lemma {:induction false} EagerCopyAt(v: Space, r: Space, fd: int, td: int, n: int)
    requires Ranges(fd, td, n) && |v| == ENTRIES && EagerCopy(v, fd, td, n) == Some(r)
    ensures |r| == |v| && forall e :: td <= e < td + n ==> r[e] == v[e - td + fd]
    ensures forall e :: 0 <= e < |v| && !(td <= e < td + n) ==> r[e] == v[e]
    decreases n
  {
    if n > 0 {
      var before := EagerCopy(v, fd, td, n - 1).value;
      EagerCopyAt(v, before, fd, td, n - 1);
      assert r == before[td + n - 1 := before[fd + n - 1]];
    }
  }

  /** After copying, the addresses at `to` show what those at `from` show, and no other address within
      whole tables shows anything new. */
  lemma CopySeen(v: Space, r: Space, from: int, to: int, size: int)
    requires 0 <= from && 0 <= to && 0 <= size && Aligned(from) && Aligned(to) && |v| == ENTRIES
    requires Ranges(from / TABLE_SIZE, to / TABLE_SIZE, Tables(size))
    requires EagerCopy(v, from / TABLE_SIZE, to / TABLE_SIZE, Tables(size)) == Some(r)
    ensures forall a :: from <= a < from + size ==> Seen(r, to + (a - from)) == Seen(v, a)
    ensures forall a :: 0 <= a < 0x1_0000_0000 && Touches(from, size, a) ==> Seen(r, to + (a - from)) == Seen(v, a)
    ensures forall b :: 0 <= b < 0x1_0000_0000 && !Touches(to, size, b) ==> Seen(r, b) == Seen(v, b)
  {
    hide EagerCopy, Touches, Tables, Seen;
    var fd, td, n := from / TABLE_SIZE, to / TABLE_SIZE, Tables(size);
    EagerCopyAt(v, r, fd, td, n);
    forall a | 0 <= a < 0x1_0000_0000 && Touches(from, size, a) ensures Seen(r, to + (a - from)) == Seen(v, a) {
      TablesTouched(from, size, a);
      SeenThrough(v, r, from, to, n, a);
    }
    forall a | from <= a < from + size ensures Seen(r, to + (a - from)) == Seen(v, a) {
      InTouches(from, size, a);
    }
    forall b | 0 <= b < 0x1_0000_0000 && !Touches(to, size, b) ensures Seen(r, b) == Seen(v, b) {
      TablesTouched(to, size, b);
      SeenBeside(v, r, td, n, b);
    }
  }

  lemma SeenBeside(v: Space, r: Space, td: int, n: int, b: int)
    requires 0 <= b < 0x1_0000_0000 && |v| == |r| == ENTRIES && !(td <= b / TABLE_SIZE < td + n)
    requires forall e :: 0 <= e < |v| && !(td <= e < td + n) ==> r[e] == v[e]
    ensures Seen(r, b) == Seen(v, b)
  {
    AddressParts(b);
    var d := DirIndex(b);
    assert r[d] == v[d];
  }

  lemma SeenThrough(v: Space, r: Space, from: int, to: int, n: int, a: int)
    requires 0 <= from && 0 <= to && 0 <= a < 0x1_0000_0000 && Aligned(from) && Aligned(to) && |v| == |r| == ENTRIES
    requires from / TABLE_SIZE <= a / TABLE_SIZE < from / TABLE_SIZE + n && to / TABLE_SIZE + n <= ENTRIES
    requires var fd, td := from / TABLE_SIZE, to / TABLE_SIZE;
      forall e :: td <= e < td + n ==> 0 <= e - td + fd < ENTRIES && r[e] == v[e - td + fd]
    ensures Seen(r, to + (a - from)) == Seen(v, a)
  {
    ShiftInside(a, from, to, n);
    ShiftParts(a, from, to);
    AddressParts(a);
    var fd, td, d := from / TABLE_SIZE, to / TABLE_SIZE, DirIndex(a);
    assert r[d - fd + td] == v[d];
  }

  lemma InTouches(from: int, size: int, a: int)
    requires 0 <= from <= a < from + size && Aligned(from) && from / TABLE_SIZE + Tables(size) <= ENTRIES
    ensures 0 <= a < 0x1_0000_0000 && Touches(from, size, a)
  {
    assert a / 0x40_0000 == a / 0x40_0000;
  }

  lemma ShiftInside(a: int, from: int, to: int, n: int)
    requires 0 <= from && 0 <= to && Aligned(from) && Aligned(to) && 0 <= a
    requires from / TABLE_SIZE <= a / TABLE_SIZE < from / TABLE_SIZE + n && to / TABLE_SIZE + n <= ENTRIES
    ensures 0 <= to + (a - from) < 0x1_0000_0000
  {}

  function Cleared(v: Space, d: int, n: int): Space {
    seq(|v|, e requires 0 <= e < |v| => if d <= e < d + n then None else v[e])
  }

  /** After freeing, no page is seen in the range, and no other address within whole tables shows
      anything new. */
  lemma ClearSeen(v: Space, from: int, size: int)
    requires 0 <= from && 0 <= size && Aligned(from) && |v| == ENTRIES
    requires from / TABLE_SIZE + Tables(size) <= ENTRIES
    ensures var r := Cleared(v, from / TABLE_SIZE, Tables(size));
      && (forall a :: from <= a < from + size ==> Seen(r, a).None?)
      && (forall a :: 0 <= a < 0x1_0000_0000 && Touches(from, size, a) ==> Seen(r, a).None?)
      && (forall a :: 0 <= a < 0x1_0000_0000 && !Touches(from, size, a) ==> Seen(r, a) == Seen(v, a))
  {
    var r := Cleared(v, from / TABLE_SIZE, Tables(size));
    forall a | 0 <= a < 0x1_0000_0000
      ensures Seen(r, a) == if Touches(from, size, a) then None else Seen(v, a)
    {
      TablesTouched(from, size, a);
      AddressParts(a);
    }
    forall a | from <= a < from + size ensures 0 <= a < 0x1_0000_0000 && Touches(from, size, a) {
      InTouches(from, size, a);
    }
  }

  /** After a store the one word is new. */
  lemma StoreSeen(v: Space, address: int, w: int)
    requires 0 <= address < 0x1_0000_0000 && HasPage(v, address)
    ensures var r := Eagerly(v, Store(DirIndex(address), TableIndex(address), Offset(address), w));
      forall b :: 0 <= b < 0x1_0000_0000 ==>
        WordSeen(r, b) == if b / 4 == address / 4 then Some(w) else WordSeen(v, b)
  {
    var r := Eagerly(v, Store(DirIndex(address), TableIndex(address), Offset(address), w));
    AddressParts(address);
    hide DirIndex, TableIndex, Offset;
    forall b | 0 <= b < 0x1_0000_0000
      ensures WordSeen(r, b) == if b / 4 == address / 4 then Some(w) else WordSeen(v, b)
    {
      AddressParts(b);
      SameParts(address, b);
    }
  }

  /** After mapping a page, it is seen at every address of its 4096 bytes. */
  lemma MapSeen(v: Space, address: int, page: Page)
    requires 0 <= address < 0x1_0000_0000 && |v| == ENTRIES
    requires forall d :: 0 <= d < |v| && v[d].Some? ==> |v[d].value| == ENTRIES
    ensures var r := MappedEagerly(v, DirIndex(address), TableIndex(address), page);
      forall b :: 0 <= b < 0x1_0000_0000 ==> Seen(r, b) == if b / 4096 == address / 4096 then Some(page) else Seen(v, b)
  {
    var r := MappedEagerly(v, DirIndex(address), TableIndex(address), page);
    AddressParts(address);
    hide DirIndex, TableIndex, Offset;
    forall b | 0 <= b < 0x1_0000_0000
      ensures Seen(r, b) == if b / 4096 == address / 4096 then Some(page) else Seen(v, b)
    {
      AddressParts(b);
      SameParts(address, b);
    }
  }

  lemma ViewShape(s: Mem)
    requires Shape(s)
    ensures |View(s)| == ENTRIES && forall d :: 0 <= d < ENTRIES && View(s)[d].Some? ==> |View(s)[d].value| == ENTRIES
  {}

  /** What is seen at an address is the page that its directory and table entries map. */
  lemma SeenIs(s: Mem, address: int)
    requires Shape(s) && 0 <= address < 0x1_0000_0000
    ensures Seen(View(s), address) == PageAt(s, DirIndex(address), TableIndex(address))
    ensures Seen(View(s), address).Some? ==> |Seen(View(s), address).value| == ENTRIES
  {
    AddressParts(address);
    hide DirIndex, TableIndex;
  }

  lemma FreedSeen(s0: Mem, s: Mem, from: int, size: int)
    requires Shape(s0) && Shape(s) && 0 <= from && 0 <= size && Aligned(from)
    requires from / TABLE_SIZE + Tables(size) <= ENTRIES
    requires DirsFreed(s0, s, from / TABLE_SIZE, Tables(size))
    ensures forall a :: from <= a < from + size ==> Seen(View(s), a).None?
    ensures forall a :: 0 <= a < 0x1_0000_0000 ==>
      Seen(View(s), a) == if Touches(from, size, a) then None else Seen(View(s0), a)
  {
    hide View, PageAt, LinkOf, Tables, Seen, Touches;
    assert View(s) == Cleared(View(s0), from / TABLE_SIZE, Tables(size));
    ClearSeen(View(s0), from, size);
  }

  lemma CopiedSeen(s0: Mem, s: Mem, from: int, to: int, size: int)
    requires Shape(s0) && Shape(s) && 0 <= from && 0 <= to && 0 <= size && Aligned(from) && Aligned(to)
    requires Ranges(from / TABLE_SIZE, to / TABLE_SIZE, Tables(size))
    requires DirsCopied(s0, s, from / TABLE_SIZE, to / TABLE_SIZE, Tables(size))
    ensures forall a :: from <= a < from + size ==> Seen(View(s), to + (a - from)) == Seen(View(s0), a)
    ensures forall a :: 0 <= a < 0x1_0000_0000 && Touches(from, size, a) ==>
      Seen(View(s), to + (a - from)) == Seen(View(s0), a)
    ensures forall b :: 0 <= b < 0x1_0000_0000 && !Touches(to, size, b) ==> Seen(View(s), b) == Seen(View(s0), b)
  {
    hide View, PageAt, LinkOf, Tables, Seen, Touches, SlotsCopied, CountsKept, EagerCopy;
    ViewLength(s0);
    CopySeen(View(s0), View(s), from, to, size);
  }

  /** A table in the way is that of an address in the range. */
  lemma TableInTheWay(s: Mem, to: int, size: int, i: int)
    requires Shape(s) && 0 <= to && 0 <= size && Aligned(to) && 0 <= i < Tables(size)
    requires to / TABLE_SIZE + Tables(size) <= ENTRIES && DirLink(s, to / TABLE_SIZE + i).Some?
    ensures exists a :: to <= a < to + size && DirLink(s, DirIndex(a)).Some?
  {
    hide DirLink;
    var a := to + i * TABLE_SIZE;
    assert to <= a < to + size && DirIndex(a) == to / TABLE_SIZE + i;
  }

  lemma StoredSeen(s: Mem, address: int, v: int)
    requires Inv(s) && 0 <= address
    ensures address < 0x1_0000_0000 ==>
      (Seen(View(s), address).None? <==> LinkOf(s, Pte(DirIndex(address), TableIndex(address))).None?)
    ensures address < 0x1_0000_0000 && Seen(View(s), address).Some? ==>
      forall b :: 0 <= b < 0x1_0000_0000 ==>
        WordSeen(Eagerly(View(s), Store(DirIndex(address), TableIndex(address), Offset(address), v)), b)
        == if b / 4 == address / 4 then Some(v) else WordSeen(View(s), b)
  {
    if address < 0x1_0000_0000 {
      SeenIs(s, address);
      hide View, DirIndex, TableIndex, Offset, Seen, WordSeen, Eagerly, Users;
      if Seen(View(s), address).Some? { StoreSeen(View(s), address, v); }
    }
  }

  lemma NewPageSeen(s: Mem, address: int, page: Page)
    requires Shape(s) && 0 <= address
    ensures address < 0x1_0000_0000 ==> forall b :: 0 <= b < 0x1_0000_0000 ==>
      Seen(MappedEagerly(View(s), DirIndex(address), TableIndex(address), page), b)
      == if b / 4096 == address / 4096 then Some(page) else Seen(View(s), b)
  {
    ViewShape(s);
    hide View, Seen, MappedEagerly, DirIndex, TableIndex;
    if address < 0x1_0000_0000 { MapSeen(View(s), address, page); }
  }

  /** Two free frames are needed where there is no table yet, and else one. */
  lemma FitsAre(s: Mem, d: int)
    requires Shape(s)
    ensures EmptyPageFits(s, d) <==>
      exists f :: 0 < f <= PG_PAGES && s.count[f] == 0 &&
        (DirLink(s, d).Some? || exists g :: 0 < g < f && s.count[g] == 0)
  {}

  lemma EmptySpace(s: Mem)
    requires Shape(s) && (forall f :: 0 < f < START_MEM ==> s.count[f] != 0)
    requires forall f :: Main(f) ==> s.count[f] == 0
    requires forall d :: IsUser(d) ==> s.dir[d] == 6
    ensures Inv(s) <==> s.count[PG_PAGES] != 0
    ensures View(s) == seq(ENTRIES, _ => None)
  {}

  /** The page of the entry has another user. */
  ghost predicate NeedsFrame(s: Mem, y: Slot)
    requires Shape(s)
  {
    !(0 <= FrameOf(s, y) < |s.count| && s.count[FrameOf(s, y)] == 1)
  }

  /** How a store ends, from what the tables and the counts say before it. */
  ghost function StoreEnd(s: Mem, y: Slot): StoreResult
    requires Shape(s)
  {
    if LinkOf(s, y).None? then NotMapped
    else if !LinkOf(s, y).value.writable && NeedsFrame(s, y) && NoFreeFrame(s.count) then NoMemory
    else Stored
  }

  ghost predicate NoFreeFrame(count: seq<int>) {
    |count| == PG_PAGES + 1 && forall f :: 0 < f <= PG_PAGES ==> count[f] != 0
  }

  // ----- mapping a new page -----

  function MappedEagerly(v: Space, d: int, t: int, page: Page): Space {
    if HasDir(v, d) then Eagerly(v, Map(d, t, 0, page))
    else Eagerly(Eagerly(v, NewTable(d, 0)), Map(d, t, 0, page))
  }

  lemma NoneFreeIs(count: seq<int>)
    requires |count| == PG_PAGES + 1
    ensures NextFree(count, PG_PAGES + 1) == 0 <==> NoFreeFrame(count)
  {}

  /** The tests of put_page. */
  predicate Accepted(s: Mem, page: int) {
    LOW_MEM <= page < |s.count| && s.count[page] == 1
  }

  /** There is a frame for the page, and one for the page table if that is needed. */
  ghost predicate EmptyPageFits(s: Mem, d: int)
    requires Shape(s)
  {
    var g := NextFree(s.count, PG_PAGES + 1);
    g > 0 && (DirLink(s, d).Some? || NextFree(s.count, g) > 0)
  }

  ghost predicate EmptyPageSafe(s: Mem, d: int, t: int, table: int)
    requires Shape(s)
  {
    if DirLink(s, d).Some? then LinkOf(s, Pte(d, t)).None? else CleanBut(PageOf(s, table), t)
  }

  lemma EmptyPageOutcome(s: Mem, s': Mem, d: int, t: int, g: int, table: int)
    requires Inv(s) && IsUser(d) && 0 <= t < ENTRIES && Main(g) && s.count[g] == 0
    requires DirLink(s, d).Some? ==> Main(DirLink(s, d).value.frame) && s' == Mapped(s, d, t, g)
    requires DirLink(s, d).None? ==>
      && Main(table) && table != g && s.count[table] == 0
      && var s1 := WithTable(s, d, table);
         DirLink(s1, d) == Some(Link(table, true)) && s' == Mapped(s1, d, t, g)
    ensures Inv(s') <==> EmptyPageSafe(s, d, t, table)
    ensures Inv(s') ==> View(s') == MappedEagerly(View(s), d, t, s.phys[g])
  {
    hide Users, PageAt, View;
    ViewLength(s);
    DirsHave1024(s, d);
    if DirLink(s, d).None? {
      if CleanBut(s.phys[table], t) {
        NewTableThenMap(s, d, t, g, table);
      } else {
        var u :| 0 <= u < ENTRIES && u != t && Present(s.phys[table][u]);
        StrayBeside(s, s', d, t, g, table, u);
      }
    } else if LinkOf(s, Pte(d, t)).None? {
      MapRefines(s, d, t, g);
    } else {
      OverwriteLeaks(s, d, t, g);
    }
  }

  /** The same after get_free_page, which led to state m, and put_page. */
  lemma EmptyPageEnd(s: Mem, m: Mem, s': Mem, d: int, t: int, g: int, table: int)
    requires Inv(s) && IsUser(d) && 0 <= t < ENTRIES && Main(g)
    requires g == NextFree(s.count, PG_PAGES + 1) && m == s.(count := s.count[g := 1])
    requires DirLink(s, d).Some? ==>
      DirLink(m, d) == DirLink(s, d) && Main(DirLink(s, d).value.frame) && s' == SetWord(m, d, t, Full(g))
    requires DirLink(s, d).None? ==>
      && table == NextFree(m.count, PG_PAGES + 1) && Main(table) && m.count[table] == 0
      && var s1 := WithTable(m, d, table);
         DirLink(s1, d) == Some(Link(table, true)) && s' == SetWord(s1, d, t, Full(g))
    ensures Inv(s') <==> EmptyPageSafe(s, d, t, NextFree(s.count, g))
    ensures Inv(s') ==> View(s') == MappedEagerly(View(s), d, t, s.phys[g])
  {
    hide View, Users, PageAt, Inv, MappedEagerly;
    InvShape(s);
    NextFreeAfter(s.count, PG_PAGES + 1, m.count);
    EmptyPageOutcome(s, s', d, t, g, table);
  }

  lemma InvShape(s: Mem)
    requires Inv(s)
    ensures Shape(s)
  {}

  /** The word that is overwritten does not matter: the table might as well have been clean. */
  lemma NewTableThenMap(s: Mem, d: int, t: int, g: int, table: int)
    requires Inv(s) && IsUser(d) && 0 <= t < ENTRIES && Main(g) && s.count[g] == 0 && DirLink(s, d).None?
    requires Main(table) && table != g && s.count[table] == 0 && CleanBut(s.phys[table], t)
    requires DirLink(WithTable(s, d, table), d) == Some(Link(table, true))
    ensures var s' := Mapped(WithTable(s, d, table), d, t, g);
      Inv(s') && View(s') == Eagerly(Eagerly(View(s), NewTable(d, 0)), Map(d, t, 0, s.phys[g]))
  {
    hide Users, PageAt, View;
    var p := s.phys[table][t := 0];
    SetFreePage(s, table, p);
    var clean := s.(phys := s.phys[table := p]);
    DirRefers(clean, d);
    DirRefers(s, d);
    StepRefines(clean, NewTable(d, table));
    var s1 := WithTable(clean, d, table);
    NewTableStep(clean, d, table);
    MapRefines(s1, d, t, g);
    SameAfterStore(s.phys, table, t, 0, Full(g));
    assert Mapped(s1, d, t, g).phys == Mapped(WithTable(s, d, table), d, t, g).phys;
  }

  lemma SameAfterStore(phys: seq<Page>, f: int, t: int, v: int, w: int)
    requires 0 <= f < |phys| && 0 <= t < |phys[f]|
    ensures phys[f := phys[f][t := v]][f := phys[f][t := v][t := w]] == phys[f := phys[f][t := w]]
  {
    assert phys[f][t := v][t := w] == phys[f][t := w];
  }

  /** Another word of the table maps a page that nobody counted. */
  lemma StrayBeside(s: Mem, s': Mem, d: int, t: int, g: int, table: int, u: int)
    requires Inv(s) && IsUser(d) && 0 <= t < ENTRIES && Main(g) && s.count[g] == 0 && DirLink(s, d).None?
    requires Main(table) && table != g && s.count[table] == 0
    requires DirLink(WithTable(s, d, table), d) == Some(Link(table, true))
    requires s' == Mapped(WithTable(s, d, table), d, t, g)
    requires 0 <= u < ENTRIES && u != t && Present(s.phys[table][u])
    ensures !Inv(s')
  {
    hide Users;
    FullFacts(g);
    FreeFrameIsUnused(s, table);
    var x, f := Pte(d, u), Frame(s.phys[table][u]);
    assert Shape(s') && Refers(s', x, f);
    assert LinkOf(s', Pte(d, t)) == Some(Link(g, true));
    assert LinkOf(s', Dir(d)) == Some(Link(table, true));
    if Inv(s') {
      assert f != g && f != table;
      assert Main(f);
      forall y | y in Users(s, f) ensures y in Users(s', f) {
        assert Refers(s, y, f);
        AbsentDirMapsNothing(s, d);
        if y.Pte? { assert !Refers(s, Dir(y.d), table); }
      }
      AbsentDirMapsNothing(s, d);
      assert FrameOf(s, x) == -1 && x !in Users(s, f);
      ProperSubset(Users(s, f), Users(s', f), x);
    }
  }

  lemma DirsHave1024(s: Mem, d: int)
    requires Shape(s) && IsUser(d)
    ensures HasDir(View(s), d) <==> DirLink(s, d).Some?
  {}

  lemma MapRefines(s: Mem, d: int, t: int, g: int)
    requires Inv(s) && DirLink(s, d).Some? && 0 <= t < ENTRIES && LinkOf(s, Pte(d, t)).None?
    requires Main(g) && s.count[g] == 0 && Main(DirLink(s, d).value.frame)
    ensures Inv(Mapped(s, d, t, g)) && View(Mapped(s, d, t, g)) == Eagerly(View(s), Map(d, t, 0, s.phys[g]))
  {
    DirRefers(s, d);
    StepRefines(s, Map(d, t, g, s.phys[g]));
  }

  /** Mapping over a present entry forgets the page that was there: its count stays up. */
  lemma OverwriteLeaks(s: Mem, d: int, t: int, g: int)
    requires Inv(s) && DirLink(s, d).Some? && 0 <= t < ENTRIES && LinkOf(s, Pte(d, t)).Some?
    requires Main(g) && s.count[g] == 0 && Main(DirLink(s, d).value.frame)
    ensures !Inv(Mapped(s, d, t, g))
  {
    var s', f := Mapped(s, d, t, g), LinkOf(s, Pte(d, t)).value.frame;
    FreeFrameIsUnused(s, g);
    FullFacts(g);
    SetWordLinks(s, d, t, Full(g));
    CountsAreNoLinks(SetWord(s, d, t, Full(g)), s');
    hide LinkOf, Users;
    assert !Refers(s, Pte(d, t), g);
    assert Pte(d, t) in Users(s, f);
    assert Users(s', f) == Users(s, f) - {Pte(d, t)};
  }

  // ----- what goes wrong outside the guards -----

  /** A free frame with present-looking words makes a page table that maps pages nobody
      counted: the invariant survives exactly if the frame is clean. */
  lemma NewTableNeedsCleanFrame(s: Mem, d: int, g: int)
    requires Inv(s) && IsUser(d) && DirLink(s, d).None? && Main(g) && s.count[g] == 0
    ensures Inv(WithTable(s, d, g)) <==> Clean(s.phys[g])
  {
    var s' := WithTable(s, d, g);
    if Clean(s.phys[g]) {
      NewTableStep(s, d, g);
    } else {
      var t :| 0 <= t < ENTRIES && Present(s.phys[g][t]);
      FullFacts(g);
      var x := Pte(d, t);
      assert LinkOf(s', x).Some?;
      var f := LinkOf(s', x).value.frame;
      FreeFrameIsUnused(s, g);
      StrayLink(s, s', d, x, f, g);
    }
  }

  lemma StrayLink(s: Mem, s': Mem, d: int, x: Slot, f: int, g: int)
    requires Inv(s) && Main(g) && s.count[g] == 0 && IsUser(d) && DirLink(s, d).None?
    requires s' == WithTable(s, d, g) && DirLink(s', d) == Some(Link(g, true)) && x.Pte? && x.d == d && Refers(s', x, f)
    ensures !Inv(s')
  {
    AbsentDirMapsNothing(s, d);
    if f == g {
      DirRefers(s', d);
      assert !Exclusive(s');
    } else if Main(f) {
      forall y | y in Users(s, f) ensures y in Users(s', f) { StrayKeeps(s, s', d, y, g); }
      assert FrameOf(s, x) == -1;
      ProperSubset(Users(s, f), Users(s', f), x);
    }
  }

  lemma StrayKeeps(s: Mem, s': Mem, d: int, y: Slot, g: int)
    requires Shape(s) && IsUser(d) && 0 <= g < PG_PAGES && s' == WithTable(s, d, g) && DirLink(s, d).None?
    requires LinkOf(s, y).Some?
    ensures LinkOf(s', y) == LinkOf(s, y)
  {}

  /** The 256th user of a page brings its unsigned char count to zero: the invariant survives
      a sharing exactly if the count was below 255. */
  lemma SharingNeedsRoom(s: Mem, from: int, to: int, t: int)
    requires Inv(s) && DirLink(s, from).Some? && DirLink(s, to).Some? && from != to && 0 <= t < ENTRIES
    requires LinkOf(s, Pte(from, t)).Some? && LinkOf(s, Pte(to, t)).None?
    requires forall f :: Main(f) ==> s.count[f] <= 255
    ensures Main(DirLink(s, from).value.frame) && Main(DirLink(s, to).value.frame) && Main(Frame(WordAt(s, from, t)))
    ensures var f := Frame(WordAt(s, from, t));
      var s1 := Shared(s, from, to, t);
      Inv(s1.(count := s.count[f := (s.count[f] + 1) % 256])) <==> s.count[f] < 255
  {
    ShareCounts(s, from, to, t);
    hide LinkOf, Users, PageAt, SetWord, Inv, Shared;
    WrapOrNot(Shared(s, from, to, t), s.count, Frame(WordAt(s, from, t)));
  }

  lemma WrapOrNot(s1: Mem, before: seq<int>, f: int)
    requires Inv(s1) && Main(f) && |before| == |s1.count| && 0 <= before[f] <= 255
    requires s1.count == before[f := before[f] + 1]
    ensures Inv(s1.(count := before[f := (before[f] + 1) % 256])) <==> before[f] < 255
  {
    hide LinkOf, Users;
    if before[f] < 255 {
      assert s1.(count := before[f := (before[f] + 1) % 256]) == s1;
    } else {
      WrapBreaks(s1, s1.(count := before[f := 0]), f);
    }
  }

  lemma ShareCounts(s: Mem, from: int, to: int, t: int)
    requires Inv(s) && DirLink(s, from).Some? && DirLink(s, to).Some? && from != to && 0 <= t < ENTRIES
    requires LinkOf(s, Pte(from, t)).Some? && LinkOf(s, Pte(to, t)).None?
    ensures Main(DirLink(s, from).value.frame) && Main(DirLink(s, to).value.frame) && Main(Frame(WordAt(s, from, t)))
    ensures var f := Frame(WordAt(s, from, t));
      var s1 := Shared(s, from, to, t);
      Inv(s1) && s.count[f] >= 0 && s1.count == s.count[f := s.count[f] + 1]
  {
    ShareStep(s, from, to, t);
    ProtectFacts(WordAt(s, from, t));
  }

  lemma WrapBreaks(s1: Mem, s2: Mem, f: int)
    requires Inv(s1) && Main(f) && s1.count[f] == 256
    requires s2.dir == s1.dir && s2.phys == s1.phys && |s2.count| == |s1.count| && s2.count[f] == 0
    ensures !Inv(s2)
  {
    CountsAreNoLinks(s1, s2);
    hide LinkOf, Users;
    SameUsers(s1, s2);
  }

  // ----- freeing directory entries -----

  ghost predicate TableCleared(s0: Mem, s: Mem, d: int, n: int)
    requires Shape(s0)
  {
    && Shape(s) && s.dir == s0.dir && SameOutside(s0, s, d)
    && (forall y :: !Copied(y, d, n) ==> LinkOf(s, y) == LinkOf(s0, y))
    && (forall t :: 0 <= t < n ==> LinkOf(s, Pte(d, t)).None?)
    && DirLink(s0, d).Some?
    && (forall f :: 0 <= f < PG_PAGES && f != DirLink(s0, d).value.frame ==> s.phys[f] == s0.phys[f])
    && (0 <= DirLink(s0, d).value.frame < PG_PAGES ==>
          forall t :: 0 <= t < n && t < ENTRIES ==> s.phys[DirLink(s0, d).value.frame][t] == 0)
  }

  lemma NothingCleared(s: Mem, d: int)
    requires Shape(s) && DirLink(s, d).Some?
    ensures TableCleared(s, s, d, 0)
  {}

  lemma EntryCleared(s0: Mem, s: Mem, d: int, t: int)
    requires Inv(s) && Shape(s0) && TableCleared(s0, s, d, t) && 0 <= t < ENTRIES
    ensures DirLink(s, d).Some? && Main(DirLink(s, d).value.frame)
    ensures var l := LinkOf(s, Pte(d, t)); l.Some? ==> Main(l.value.frame) && s.count[l.value.frame] > 0
    ensures Inv(Unmapped(s, d, t)) && TableCleared(s0, Unmapped(s, d, t), d, t + 1)
  {
    hide PageAt, LinkOf, Users;
    UnmapStep(s, d, t);
  }

  /** Every directory entry of the range is empty, and no other slot's link has changed. */
  ghost predicate DirsFreed(s0: Mem, s: Mem, d: int, n: int)
    requires Shape(s0)
  {
    && Shape(s)
    && |View(s)| == |View(s0)| == ENTRIES
    && (forall e :: 0 <= e < ENTRIES ==> View(s)[e] == if d <= e < d + n then None else View(s0)[e])
    && (forall y :: LinkOf(s, y) == if InDirs(y, d, n) then None else LinkOf(s0, y))
    && (forall f :: 0 <= f < PG_PAGES ==> s.phys[f] == s0.phys[f] || Clean(s.phys[f]))
  }

  lemma NoDirsFreed(s: Mem, d: int)
    requires Shape(s)
    ensures DirsFreed(s, s, d, 0)
  {}

  lemma OneDirAbsent(s0: Mem, s: Mem, d: int, i: int)
    requires Shape(s0) && Shape(s) && DirsFreed(s0, s, d, i) && 0 <= i && IsUser(d + i) && DirLink(s, d + i).None?
    ensures DirsFreed(s0, s, d, i + 1)
  {}

  lemma OneDirFreed(s0: Mem, s: Mem, s1: Mem, d: int, i: int)
    requires Shape(s0) && Inv(s) && Inv(s1) && DirsFreed(s0, s, d, i) && 0 <= i && IsUser(d + i)
    requires DirLink(s, d + i).Some? && TableCleared(s, s1, d + i, ENTRIES)
    ensures DirLink(s1, d + i).Some? && Main(DirLink(s1, d + i).value.frame)
    ensures s1.count[DirLink(s1, d + i).value.frame] > 0
    ensures Inv(WithoutTable(s1, d + i)) && DirsFreed(s0, WithoutTable(s1, d + i), d, i + 1)
  {
    hide PageAt, LinkOf, Users, View;
    var e := d + i;
    ClearedIsEmpty(s, s1, e);
    DropTableStep(s1, e);
    var s2 := WithoutTable(s1, e);
    forall y ensures LinkOf(s2, y) == if InDirs(y, d, i + 1) then None else LinkOf(s0, y) {
      if y.d == e { EmptiedDir(s2, e, y); }
      else { assert LinkOf(s1, y) == LinkOf(s, y); }
    }
    FreedView(s, s1, s2, e);
    ClearedIsClean(s, s1, e);
  }

  lemma ClearedIsEmpty(s: Mem, s1: Mem, e: int)
    requires Inv(s) && Inv(s1) && DirLink(s, e).Some? && TableCleared(s, s1, e, ENTRIES)
    ensures DirLink(s1, e).Some? && MapsNothing(s1, e) && DirLink(s1, e) == DirLink(s, e)
  {}

  lemma EmptiedDir(s2: Mem, e: int, y: Slot)
    requires Shape(s2) && DirLink(s2, e).None? && y.d == e
    ensures LinkOf(s2, y).None?
  {}

  lemma ClearedIsClean(s: Mem, s1: Mem, e: int)
    requires Inv(s) && Shape(s1) && DirLink(s, e).Some? && TableCleared(s, s1, e, ENTRIES)
    ensures forall f :: 0 <= f < PG_PAGES ==> s1.phys[f] == s.phys[f] || Clean(s1.phys[f])
  {}

  lemma FreedView(s: Mem, s1: Mem, s2: Mem, e: int)
    requires Inv(s) && Inv(s1) && IsUser(e) && DirLink(s, e).Some? && TableCleared(s, s1, e, ENTRIES)
    requires Shape(s2) && DirLink(s2, e).None? && (forall d, u :: PageAt(s2, d, u) == PageAt(s1, d, u))
    requires forall y :: y != Dir(e) ==> LinkOf(s2, y) == LinkOf(s1, y)
    ensures View(s2) == View(s)[e := None]
  {
    hide PageAt, LinkOf, Users;
    forall d ensures d != e ==> (DirLink(s2, d).Some? <==> DirLink(s, d).Some?) {
      DirRefers(s2, d);
      DirRefers(s1, d);
    }
    ViewSetsDir(s, s2, e);
  }

  /** Copying and then freeing the copy puts every main-memory count back and leaves every
      slot referring to the frame it referred to before. */
  lemma CopyThenFree(s0: Mem, s1: Mem, s2: Mem, fd: int, td: int, n: int)
    requires Inv(s0) && Inv(s1) && Inv(s2) && 0 <= n
    requires forall y :: InDirs(y, td, n) ==> LinkOf(s0, y).None?
    requires DirsCopied(s0, s1, fd, td, n) && DirsFreed(s1, s2, td, n)
    ensures forall y :: FrameOf(s2, y) == FrameOf(s0, y)
    ensures forall f :: Main(f) ==> s2.count[f] == s0.count[f]
  {
    hide PageAt, View, LinkOf, Users, EagerCopy;
    forall y ensures FrameOf(s2, y) == FrameOf(s0, y) {
      assert !InDirs(y, td, n) ==> FrameOf(s1, y) == FrameOf(s0, y);
    }
    forall y, f ensures Refers(s2, y, f) <==> Refers(s0, y, f) {
      assert FrameOf(s2, y) == FrameOf(s0, y);
      NoLinkToMinusOne(s0, y);
      NoLinkToMinusOne(s2, y);
    }
    SameUsers(s0, s2);
  }

  lemma NoLinkToMinusOne(s: Mem, y: Slot)
    requires Inv(s)
    ensures LinkOf(s, y).Some? <==> FrameOf(s, y) != -1
  {}
}
