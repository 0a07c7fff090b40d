/** The page tables of mm/mm.c as one value: reference counts, directory, physical memory.

    A slot is a place that can refer to a frame: a directory entry, or an entry of the page
    table that a directory entry refers to.  Page tables live in frames like any other page. */
module Pages {
  datatype Option<+T> = None | Some(value: T)

  const PG_PAGES := 8192
  /** LOW_MEM and start_mem, in pages. */
  const LOW_MEM := 0x100
  const START_MEM := 0x800
  /** The first eight directory entries map all of memory for the kernel (setup_page). */
  const FIRST_USER := 8
  const ENTRIES := 1024

  // ----- entry words -----

  predicate Present(w: int) { w % 2 == 1 }

  predicate Writable(w: int) { w % 4 >= 2 }

  function Frame(w: int): int { w / 4096 }

  /** w & ~2 */
  function Protect(w: int): int { if Writable(w) then w - 2 else w }

  /** w | 2 */
  function Unprotect(w: int): int { if Writable(w) then w else w + 2 }

  /** The word for a page: its address | 7. */
  function Full(f: int): int { f * 4096 + 7 }

  lemma FrameIs(w: int, f: int, r: int)
    requires w == 4096 * f + r && 0 <= r < 4096
    ensures w / 4096 == f
  {}

  lemma LowBits(w: int, f: int, r: int)
    requires w == 4096 * f + r
    ensures w % 4 == r % 4
  {
    var k := w / 4 - 1024 * f - r / 4;
    assert 4 * k == r % 4 - w % 4;
  }

  lemma LowBit(w: int, f: int, r: int)
    requires w == 4096 * f + r
    ensures w % 2 == r % 2
  {
    var k := w / 2 - 2048 * f - r / 2;
    assert 2 * k == r % 2 - w % 2;
  }

  /** The flags lie below the frame number. */
  lemma FlagBits(w: int, f: int, r: int)
    requires w == 4096 * f + r && 0 <= r < 4096
    ensures w / 4096 == f && w % 4 == r % 4 && w % 2 == r % 2
  {
    FrameIs(w, f, r);
    LowBits(w, f, r);
    LowBit(w, f, r);
  }

  lemma BitOne(r: int)
    requires 0 <= r < 4096
    ensures r % 4 >= 2 ==> r >= 2 && (r - 2) % 4 < 2 && (r - 2) % 2 == r % 2
    ensures r % 4 < 2 ==> r < 4094 && (r + 2) % 4 >= 2 && (r + 2) % 2 == r % 2
  {}

  lemma ProtectFacts(w: int)
    ensures Frame(Protect(w)) == Frame(w) && Present(Protect(w)) == Present(w) && !Writable(Protect(w))
    ensures Frame(Unprotect(w)) == Frame(w) && Present(Unprotect(w)) == Present(w) && Writable(Unprotect(w))
  {
    var f, r := w / 4096, w % 4096;
    FlagBits(w, f, r);
    BitOne(r);
    if r % 4 >= 2 { FlagBits(w - 2, f, r - 2); } else { FlagBits(w + 2, f, r + 2); }
  }

  lemma FullFacts(f: int)
    ensures Frame(Full(f)) == f && Present(Full(f)) && Writable(Full(f))
  {
    FlagBits(Full(f), f, 7);
  }

  /** The test this_page > LOW_MEM, made on a word that still holds its flags. */
  lemma AboveLowMem(w: int)
    requires Present(w)
    ensures Protect(w) > LOW_MEM * 4096 <==> Frame(w) >= LOW_MEM
  {}

  // ----- the state and its links -----

  type Page = seq<int>

  datatype Mem = Mem(count: seq<int>, dir: seq<int>, phys: seq<Page>)

  datatype Slot = Dir(d: int) | Pte(d: int, t: int)

  /** A directory entry's link counts as writable: like a writable page, a page table must
      not be shared. */
  datatype Link = Link(frame: int, writable: bool)

  predicate IsUser(d: int) { FIRST_USER <= d < ENTRIES }

  predicate Main(f: int) { START_MEM <= f < PG_PAGES }

  ghost predicate Shape(s: Mem) {
    && |s.count| == PG_PAGES + 1 && |s.dir| == ENTRIES && |s.phys| == PG_PAGES
    && forall f :: 0 <= f < PG_PAGES ==> |s.phys[f]| == ENTRIES
  }

  function Decode(w: int): Option<Link> {
    if Present(w) then Some(Link(Frame(w), Writable(w))) else None
  }

  ghost function DirLink(s: Mem, d: int): Option<Link>
    requires Shape(s)
  {
    if IsUser(d) && Present(s.dir[d]) then Some(Link(Frame(s.dir[d]), true)) else None
  }

  ghost function LinkOf(s: Mem, x: Slot): Option<Link>
    requires Shape(s)
  {
    match x
    case Dir(d) => DirLink(s, d)
    case Pte(d, t) =>
      var table := DirLink(s, d);
      if table.Some? && 0 <= table.value.frame < PG_PAGES && 0 <= t < ENTRIES
      then Decode(s.phys[table.value.frame][t]) else None
  }

  ghost predicate Refers(s: Mem, x: Slot, f: int)
    requires Shape(s)
  {
    LinkOf(s, x).Some? && LinkOf(s, x).value.frame == f
  }

  ghost function AllSlots(): set<Slot> {
    (set d {:trigger Dir(d)} | FIRST_USER <= d < ENTRIES :: Dir(d))
    + (set d, t {:trigger Pte(d, t)} | FIRST_USER <= d < ENTRIES && 0 <= t < ENTRIES :: Pte(d, t))
  }

  /** The slots that refer to frame f. */
  ghost function Users(s: Mem, f: int): (u: set<Slot>)
    requires Shape(s)
    ensures forall x :: x in u <==> Refers(s, x, f)
  {
    set x | x in AllSlots() && Refers(s, x, f)
  }

  /** Whoever refers to a frame with a writable link is the only one that refers to it. */
  ghost predicate Exclusive(s: Mem)
    requires Shape(s)
  {
    forall x, y :: x != y && LinkOf(s, x).Some? && LinkOf(s, y).Some? && LinkOf(s, x).value.writable
      ==> LinkOf(s, x).value.frame != LinkOf(s, y).value.frame
  }

  /** What every operation keeps.  The last clause is reference counting: a main-memory
      frame's count is the number of slots that refer to it. */
  ghost predicate Inv(s: Mem) {
    && Shape(s)
    && s.count[PG_PAGES] != 0 && (forall f :: 0 < f < START_MEM ==> s.count[f] != 0)
    && (forall x :: LinkOf(s, x).Some? ==> Main(LinkOf(s, x).value.frame))
    && Exclusive(s)
    && (forall f :: Main(f) ==> s.count[f] == |Users(s, f)|)
  }

  // ----- what changing one word or one page does to the links -----

  ghost function SetWord(s: Mem, d: int, t: int, w: int): Mem
    requires Shape(s) && DirLink(s, d).Some? && 0 <= DirLink(s, d).value.frame < PG_PAGES && 0 <= t < ENTRIES
  {
    var table := DirLink(s, d).value.frame;
    s.(phys := s.phys[table := s.phys[table][t := w]])
  }

  lemma SetWordLinks(s: Mem, d: int, t: int, w: int)
    requires Inv(s) && DirLink(s, d).Some? && 0 <= t < ENTRIES
    ensures Main(DirLink(s, d).value.frame)
    ensures var s' := SetWord(s, d, t, w);
      && Shape(s') && LinkOf(s', Pte(d, t)) == Decode(w)
      && (forall y :: y != Pte(d, t) ==> LinkOf(s', y) == LinkOf(s, y))
      && (forall f :: f != DirLink(s, d).value.frame && 0 <= f < PG_PAGES ==> s'.phys[f] == s.phys[f])
  {
    hide Decode, Users;
    assert LinkOf(s, Dir(d)).Some?;
    var s' := SetWord(s, d, t, w);
    forall y | y != Pte(d, t) ensures LinkOf(s', y) == LinkOf(s, y) {
      if y.Pte? && y.d != d && DirLink(s, y.d).Some? {
        assert LinkOf(s, Dir(y.d)).Some? && Dir(y.d) != Dir(d);
      }
    }
  }

  /** Replacing a page that is no page table. */
  lemma SetPageLinks(s: Mem, g: int, p: Page)
    requires Shape(s) && 0 <= g < PG_PAGES && |p| == ENTRIES
    requires forall d :: !Refers(s, Dir(d), g)
    ensures var s' := s.(phys := s.phys[g := p]);
      Shape(s') && forall y :: LinkOf(s', y) == LinkOf(s, y)
  {
    hide Decode, Users;
    var s' := s.(phys := s.phys[g := p]);
    forall y ensures LinkOf(s', y) == LinkOf(s, y) {
      if y.Pte? { assert !Refers(s, Dir(y.d), g); }
    }
  }

  // ----- how the invariant survives single changes of links -----

  /** Slot x begins to refer to f; some other links may lose write permission. */
  lemma AddLink(s: Mem, s': Mem, x: Slot, f: int)
    requires Inv(s) && Shape(s') && Main(f) && LinkOf(s, x).None? && Refers(s', x, f)
    requires forall y :: y != x ==>
      || LinkOf(s', y) == LinkOf(s, y)
      || (LinkOf(s, y).Some? && LinkOf(s', y) == Some(Link(LinkOf(s, y).value.frame, false)))
    requires forall y :: y != x && Refers(s', y, f) ==> !LinkOf(s', y).value.writable && !LinkOf(s', x).value.writable
    requires s'.count == s.count[f := s.count[f] + 1]
    ensures Inv(s')
  {
    hide Users, LinkOf;
    forall g | Main(g) ensures s'.count[g] == |Users(s', g)| {
      if g == f { assert Users(s', f) == Users(s, f) + {x}; }
      else { assert Users(s', g) == Users(s, g); }
    }
  }

  lemma RemoveLink(s: Mem, s': Mem, x: Slot, f: int)
    requires Inv(s) && Shape(s') && Refers(s, x, f) && LinkOf(s', x).None?
    requires forall y :: y != x ==> LinkOf(s', y) == LinkOf(s, y)
    requires s'.count == s.count[f := s.count[f] - 1]
    ensures Inv(s')
  {
    hide Users, LinkOf;
    forall g | Main(g) ensures s'.count[g] == |Users(s', g)| {
      if g == f { assert Users(s', f) == Users(s, f) - {x}; }
      else { assert Users(s', g) == Users(s, g); }
    }
  }

  // ----- what a program sees -----

  /** The page that entry t of directory entry d maps. */
  ghost function PageAt(s: Mem, d: int, t: int): Option<Page>
    requires Shape(s)
  {
    var l := LinkOf(s, Pte(d, t));
    if l.Some? && 0 <= l.value.frame < PG_PAGES then Some(s.phys[l.value.frame]) else None
  }

  ghost predicate SameDirs(s: Mem, s': Mem)
    requires Shape(s) && Shape(s')
  {
    forall d :: DirLink(s', d).Some? <==> DirLink(s, d).Some?
  }

  /** No page but perhaps (d, t)'s has changed. */
  ghost predicate SameBut(s: Mem, s': Mem, d: int, t: int)
    requires Shape(s) && Shape(s')
  {
    forall e, u :: (e != d || u != t) ==> PageAt(s', e, u) == PageAt(s, e, u)
  }

  /** No page of any directory entry but d has changed. */
  ghost predicate SameOutside(s: Mem, s': Mem, d: int)
    requires Shape(s) && Shape(s')
  {
    forall e, u :: e != d ==> PageAt(s', e, u) == PageAt(s, e, u)
  }

  /** Writing a page-table word changes no mapped page. */
  lemma SetWordPages(s: Mem, d: int, t: int, w: int)
    requires Inv(s) && DirLink(s, d).Some? && 0 <= t < ENTRIES
    ensures Main(DirLink(s, d).value.frame)
    ensures var s' := SetWord(s, d, t, w);
      && Shape(s') && SameBut(s, s', d, t) && SameDirs(s, s')
      && (!Present(w) ==> PageAt(s', d, t) == None)
      && (Present(w) && 0 <= Frame(w) < PG_PAGES && Frame(w) != DirLink(s, d).value.frame ==>
            PageAt(s', d, t) == Some(s.phys[Frame(w)]))
  {
    SetWordLinks(s, d, t, w);
    hide Users, Decode;
    var s' := SetWord(s, d, t, w);
    assert LinkOf(s, Dir(d)) == DirLink(s, d);
  }

  lemma SameUsers(s: Mem, s': Mem)
    requires Shape(s) && Shape(s')
    requires forall y, f :: Refers(s', y, f) <==> Refers(s, y, f)
    ensures forall f :: Users(s', f) == Users(s, f)
  {}

  /** The word of entry t of the page table of directory entry d. */
  ghost function WordAt(s: Mem, d: int, t: int): int
    requires Shape(s) && DirLink(s, d).Some? && 0 <= DirLink(s, d).value.frame < PG_PAGES && 0 <= t < ENTRIES
  {
    s.phys[DirLink(s, d).value.frame][t]
  }

  lemma TableIsMain(s: Mem, d: int)
    requires Inv(s) && DirLink(s, d).Some?
    ensures Main(DirLink(s, d).value.frame)
  {
    assert LinkOf(s, Dir(d)).Some?;
  }

  /** A mapped page is no page table. */
  lemma MappedIsNoTable(s: Mem, d: int, t: int, e: int)
    requires Inv(s) && LinkOf(s, Pte(d, t)).Some? && DirLink(s, e).Some?
    ensures LinkOf(s, Pte(d, t)).value.frame != DirLink(s, e).value.frame
  {
    assert LinkOf(s, Dir(e)) == DirLink(s, e) && Dir(e) != Pte(d, t);
  }

  /** Taking write permission from an entry. */
  lemma ProtectStep(s: Mem, d: int, t: int)
    requires Inv(s) && DirLink(s, d).Some? && 0 <= t < ENTRIES && LinkOf(s, Pte(d, t)).Some?
    ensures Main(DirLink(s, d).value.frame)
    ensures var s' := SetWord(s, d, t, Protect(WordAt(s, d, t)));
      && Inv(s') && SameDirs(s, s') && (forall e, u :: PageAt(s', e, u) == PageAt(s, e, u))
      && (forall y :: y != Pte(d, t) ==> LinkOf(s', y) == LinkOf(s, y))
      && LinkOf(s', Pte(d, t)) == Some(Link(LinkOf(s, Pte(d, t)).value.frame, false))
      && s'.count == s.count
  {
    TableIsMain(s, d);
    MappedIsNoTable(s, d, t, d);
    var w := WordAt(s, d, t);
    ProtectFacts(w);
    SetWordLinks(s, d, t, Protect(w));
    SetWordPages(s, d, t, Protect(w));
    RelabelStep(s, SetWord(s, d, t, Protect(w)), Pte(d, t));
  }

  /** One link keeps its frame but not its permission; nothing else changes. */
  lemma RelabelStep(s: Mem, s': Mem, x: Slot)
    requires Inv(s) && Shape(s') && s'.count == s.count
    requires LinkOf(s, x).Some? && LinkOf(s', x).Some? && LinkOf(s', x).value.frame == LinkOf(s, x).value.frame
    requires forall y :: y != x ==> LinkOf(s', y) == LinkOf(s, y)
    requires LinkOf(s', x).value.writable ==> Users(s, LinkOf(s, x).value.frame) == {x}
    ensures Inv(s')
  {
    hide LinkOf, Users;
    SameUsers(s, s');
    forall y, z | y != z && LinkOf(s', y).Some? && LinkOf(s', z).Some? && LinkOf(s', y).value.writable
      ensures LinkOf(s', y).value.frame != LinkOf(s', z).value.frame
    {
      if y == x { assert z !in Users(s, LinkOf(s, x).value.frame); }
    }
  }

  ghost function Bump(s: Mem, f: int, step: int): Mem
    requires Shape(s) && 0 <= f < PG_PAGES
  {
    s.(count := s.count[f := s.count[f] + step])
  }

  lemma CountsAreNoLinks(s: Mem, s': Mem)
    requires Shape(s) && |s'.count| == |s.count| && s'.dir == s.dir && s'.phys == s.phys
    ensures Shape(s') && (forall y :: LinkOf(s', y) == LinkOf(s, y))
    ensures forall d, t :: PageAt(s', d, t) == PageAt(s, d, t)
  {}

  /** Sharing one page: the word, without write permission, goes into both tables and the
      frame's count goes up. */
  ghost function Shared(s: Mem, from: int, to: int, t: int): Mem
    requires Shape(s) && DirLink(s, from).Some? && DirLink(s, to).Some? && 0 <= t < ENTRIES
    requires Main(DirLink(s, from).value.frame) && Main(DirLink(s, to).value.frame)
    requires 0 <= Frame(WordAt(s, from, t)) < PG_PAGES
  {
    var w := Protect(WordAt(s, from, t));
    Bump(SetWord(SetWord(s, from, t, w), to, t, w), Frame(w), 1)
  }

  lemma ShareStep(s: Mem, from: int, to: int, t: int)
    requires Inv(s) && DirLink(s, from).Some? && DirLink(s, to).Some? && from != to && 0 <= t < ENTRIES
    requires LinkOf(s, Pte(from, t)).Some? && LinkOf(s, Pte(to, t)).None?
    ensures Main(DirLink(s, from).value.frame) && Main(DirLink(s, to).value.frame)
    ensures var f := Frame(WordAt(s, from, t));
      && LinkOf(s, Pte(from, t)).value.frame == f && Main(f)
      && var s' := Shared(s, from, to, t);
      && Inv(s') && SameDirs(s, s') && SameBut(s, s', to, t)
      && PageAt(s', to, t) == PageAt(s, from, t)
      && (forall y :: y != Pte(from, t) && y != Pte(to, t) ==> LinkOf(s', y) == LinkOf(s, y))
      && LinkOf(s', Pte(from, t)) == LinkOf(s', Pte(to, t)) == Some(Link(f, false))
  {
    TableIsMain(s, from);
    TableIsMain(s, to);
    var w := Protect(WordAt(s, from, t));
    var f := LinkOf(s, Pte(from, t)).value.frame;
    ProtectFacts(WordAt(s, from, t));
    ProtectStep(s, from, t);
    var s1 := SetWord(s, from, t, w);
    MappedIsNoTable(s1, from, t, to);
    SetWordLinks(s1, to, t, w);
    SetWordPages(s1, to, t, w);
    var s2 := SetWord(s1, to, t, w);
    var s3 := Bump(s2, f, 1);
    CountsAreNoLinks(s2, s3);
    SharedUsersCannotWrite(s1, from, t);
    AddLink(s1, s3, Pte(to, t), f);
  }

  /** Once one link to a frame is read-only, all of them are. */
  lemma SharedUsersCannotWrite(s: Mem, d: int, t: int)
    requires Inv(s) && LinkOf(s, Pte(d, t)).Some? && !LinkOf(s, Pte(d, t)).value.writable
    ensures forall y :: Refers(s, y, LinkOf(s, Pte(d, t)).value.frame) ==> !LinkOf(s, y).value.writable
  {}

  /** No word of the page could be taken for a present entry. */
  ghost predicate Clean(p: Page) {
    forall i :: 0 <= i < |p| ==> !Present(p[i])
  }

  /** A free frame becomes the page table of an empty directory entry. */
  ghost function WithTable(s: Mem, d: int, g: int): Mem
    requires Shape(s) && IsUser(d) && 0 <= g < PG_PAGES
  {
    Mem(s.count[g := 1], s.dir[d := Full(g)], s.phys)
  }

  lemma FreeFrameIsUnused(s: Mem, g: int)
    requires Inv(s) && Main(g) && s.count[g] == 0
    ensures forall y :: !Refers(s, y, g)
  {}

  lemma NewTableStep(s: Mem, d: int, g: int)
    requires Inv(s) && IsUser(d) && DirLink(s, d).None? && Main(g) && s.count[g] == 0 && Clean(s.phys[g])
    ensures var s' := WithTable(s, d, g);
      && Inv(s') && DirLink(s', d) == Some(Link(g, true))
      && (forall t :: LinkOf(s', Pte(d, t)).None? && LinkOf(s, Pte(d, t)).None?)
      && (forall y :: y != Dir(d) ==> LinkOf(s', y) == LinkOf(s, y))
      && (forall e, u :: PageAt(s', e, u) == PageAt(s, e, u))
  {
    FreeFrameIsUnused(s, g);
    FullFacts(g);
    var s' := WithTable(s, d, g);
    NewTableLinks(s, d, g);
    forall y | y != Dir(d) ensures !Refers(s', y, g) { assert !Refers(s, y, g); }
    AddLink(s, s', Dir(d), g);
  }

  lemma NewTableLinks(s: Mem, d: int, g: int)
    requires Inv(s) && IsUser(d) && DirLink(s, d).None? && Main(g) && Clean(s.phys[g])
    ensures var s' := WithTable(s, d, g);
      && Shape(s') && DirLink(s', d) == Some(Link(g, true))
      && (forall t :: LinkOf(s', Pte(d, t)).None? && LinkOf(s, Pte(d, t)).None?)
      && (forall y :: y != Dir(d) ==> LinkOf(s', y) == LinkOf(s, y))
  {
    FullFacts(g);
    hide Full, Users;
    var s' := WithTable(s, d, g);
    forall y | y != Dir(d) ensures LinkOf(s', y) == LinkOf(s, y) {
      if y.Pte? && y.d != d { assert DirLink(s', y.d) == DirLink(s, y.d); }
    }
  }

  /** un_wp_page, first case: the only user of a frame may write it. */
  lemma UpgradeStep(s: Mem, d: int, t: int)
    requires Inv(s) && DirLink(s, d).Some? && 0 <= t < ENTRIES && LinkOf(s, Pte(d, t)).Some?
    requires s.count[LinkOf(s, Pte(d, t)).value.frame] == 1
    ensures Main(DirLink(s, d).value.frame)
    ensures var s' := SetWord(s, d, t, Unprotect(WordAt(s, d, t)));
      && Inv(s') && SameDirs(s, s') && (forall e, u :: PageAt(s', e, u) == PageAt(s, e, u))
      && (forall y :: y != Pte(d, t) ==> LinkOf(s', y) == LinkOf(s, y))
      && LinkOf(s', Pte(d, t)) == Some(Link(LinkOf(s, Pte(d, t)).value.frame, true))
  {
    TableIsMain(s, d);
    MappedIsNoTable(s, d, t, d);
    var w, f := WordAt(s, d, t), LinkOf(s, Pte(d, t)).value.frame;
    ProtectFacts(w);
    SetWordLinks(s, d, t, Unprotect(w));
    SetWordPages(s, d, t, Unprotect(w));
    SoleUser(Users(s, f), Pte(d, t));
    RelabelStep(s, SetWord(s, d, t, Unprotect(w)), Pte(d, t));
  }

  lemma SoleUser(u: set<Slot>, x: Slot)
    requires |u| == 1 && x in u
    ensures u == {x}
  {
    assert |u - {x}| == 0;
    assert u == (u - {x}) + {x};
  }

  /** un_wp_page, second case: the entry moves to a free frame g, which receives a copy. */
  ghost function Moved(s: Mem, d: int, t: int, g: int): Mem
    requires Shape(s) && DirLink(s, d).Some? && 0 <= DirLink(s, d).value.frame < PG_PAGES && 0 <= t < ENTRIES
    requires LinkOf(s, Pte(d, t)).Some? && 0 <= LinkOf(s, Pte(d, t)).value.frame < PG_PAGES && 0 <= g < PG_PAGES
  {
    var was := LinkOf(s, Pte(d, t)).value.frame;
    var s1 := SetWord(s, d, t, Full(g));
    Mem(s.count[g := 1][was := s.count[was] - 1], s1.dir, s1.phys[g := s1.phys[was]])
  }

  lemma MoveStep(s: Mem, d: int, t: int, g: int)
    requires Inv(s) && DirLink(s, d).Some? && 0 <= t < ENTRIES && LinkOf(s, Pte(d, t)).Some?
    requires Main(g) && s.count[g] == 0
    ensures Main(LinkOf(s, Pte(d, t)).value.frame) && Main(DirLink(s, d).value.frame)
    ensures g != DirLink(s, d).value.frame && g != LinkOf(s, Pte(d, t)).value.frame
    ensures var s' := Moved(s, d, t, g);
      && Inv(s') && SameDirs(s, s') && (forall e, u :: PageAt(s', e, u) == PageAt(s, e, u))
      && (forall y :: y != Pte(d, t) ==> LinkOf(s', y) == LinkOf(s, y))
      && LinkOf(s', Pte(d, t)) == Some(Link(g, true))
  {
    TableIsMain(s, d);
    FreeFrameIsUnused(s, g);
    assert !Refers(s, Dir(d), g) && !Refers(s, Pte(d, t), g);
    MoveLinks(s, d, t, g);
    var was := LinkOf(s, Pte(d, t)).value.frame;
    var s' := Moved(s, d, t, g);
    MoveCounts(s, s', Pte(d, t), was, g);
    forall e, u ensures PageAt(s', e, u) == PageAt(s, e, u) {
      assert !Refers(s, Pte(e, u), g);
      if DirLink(s, e).Some? && LinkOf(s, Pte(e, u)).Some? { MappedIsNoTable(s, e, u, d); }
    }
  }

  lemma MoveLinks(s: Mem, d: int, t: int, g: int)
    requires Inv(s) && DirLink(s, d).Some? && 0 <= t < ENTRIES && LinkOf(s, Pte(d, t)).Some?
    requires Main(g) && (forall y :: !Refers(s, y, g)) && Main(DirLink(s, d).value.frame)
    requires g != DirLink(s, d).value.frame && Main(LinkOf(s, Pte(d, t)).value.frame)
    ensures var s' := Moved(s, d, t, g);
      && Shape(s') && SameDirs(s, s')
      && (forall y :: y != Pte(d, t) ==> LinkOf(s', y) == LinkOf(s, y))
      && LinkOf(s', Pte(d, t)) == Some(Link(g, true))
      && s'.phys[g] == s.phys[LinkOf(s, Pte(d, t)).value.frame]
      && (forall f :: 0 <= f < PG_PAGES && f != g && f != DirLink(s, d).value.frame ==> s'.phys[f] == s.phys[f])
  {
    FullFacts(g);
    MappedIsNoTable(s, d, t, d);
    SetWordLinks(s, d, t, Full(g));
    var s1 := SetWord(s, d, t, Full(g));
    forall e ensures !Refers(s1, Dir(e), g) { assert !Refers(s, Dir(e), g) && LinkOf(s1, Dir(e)) == LinkOf(s, Dir(e)); }
    var was := LinkOf(s, Pte(d, t)).value.frame;
    SetPageLinks(s1, g, s1.phys[was]);
    var s2 := s1.(phys := s1.phys[g := s1.phys[was]]);
    CountsAreNoLinks(s2, Moved(s, d, t, g));
  }

  lemma MoveCounts(s: Mem, s': Mem, x: Slot, was: int, g: int)
    requires Inv(s) && Shape(s') && Refers(s, x, was) && Main(was) && Main(g) && was != g
    requires (forall y :: !Refers(s, y, g)) && LinkOf(s', x) == Some(Link(g, true))
    requires forall y :: y != x ==> LinkOf(s', y) == LinkOf(s, y)
    requires s.count[g] == 0 && s'.count == s.count[g := 1][was := s.count[was] - 1]
    ensures Inv(s')
  {
    hide LinkOf, Users;
    forall f | Main(f) ensures s'.count[f] == |Users(s', f)| {
      if f == was { assert Users(s', f) == Users(s, f) - {x}; }
      else if f == g { assert Users(s', f) == {x}; }
      else { assert Users(s', f) == Users(s, f); }
    }
    forall y, z | y != z && LinkOf(s', y).Some? && LinkOf(s', z).Some? && LinkOf(s', y).value.writable
      ensures LinkOf(s', y).value.frame != LinkOf(s', z).value.frame
    {
      assert y != x ==> !Refers(s, y, g);
      assert z != x ==> !Refers(s, z, g);
    }
  }

  /** put_page into an empty entry of an existing table. */
  ghost function Mapped(s: Mem, d: int, t: int, g: int): Mem
    requires Shape(s) && DirLink(s, d).Some? && 0 <= DirLink(s, d).value.frame < PG_PAGES && 0 <= t < ENTRIES
    requires 0 <= g < PG_PAGES
  {
    SetWord(s, d, t, Full(g)).(count := s.count[g := 1])
  }

  lemma MapStep(s: Mem, d: int, t: int, g: int)
    requires Inv(s) && DirLink(s, d).Some? && 0 <= t < ENTRIES && LinkOf(s, Pte(d, t)).None?
    requires Main(g) && s.count[g] == 0
    ensures Main(DirLink(s, d).value.frame)
    ensures var s' := Mapped(s, d, t, g);
      && Inv(s') && SameDirs(s, s') && SameBut(s, s', d, t) && PageAt(s', d, t) == Some(s.phys[g])
      && (forall y :: y != Pte(d, t) ==> LinkOf(s', y) == LinkOf(s, y))
  {
    TableIsMain(s, d);
    FreeFrameIsUnused(s, g);
    FullFacts(g);
    assert !Refers(s, Dir(d), g);
    SetWordLinks(s, d, t, Full(g));
    SetWordPages(s, d, t, Full(g));
    var s1, s' := SetWord(s, d, t, Full(g)), Mapped(s, d, t, g);
    CountsAreNoLinks(s1, s');
    forall y | y != Pte(d, t) ensures !Refers(s', y, g) { assert !Refers(s, y, g); }
    AddLink(s, s', Pte(d, t), g);
  }

  /** free_page_tables, one entry: the word becomes zero and the page loses a user. */
  ghost function Unmapped(s: Mem, d: int, t: int): Mem
    requires Shape(s) && DirLink(s, d).Some? && 0 <= DirLink(s, d).value.frame < PG_PAGES && 0 <= t < ENTRIES
  {
    var l := LinkOf(s, Pte(d, t));
    var s1 := SetWord(s, d, t, 0);
    if l.Some? && 0 <= l.value.frame < PG_PAGES then Bump(s1, l.value.frame, -1) else s1
  }

  lemma UnmapStep(s: Mem, d: int, t: int)
    requires Inv(s) && DirLink(s, d).Some? && 0 <= t < ENTRIES
    ensures Main(DirLink(s, d).value.frame)
    ensures LinkOf(s, Pte(d, t)).Some? ==>
      Main(LinkOf(s, Pte(d, t)).value.frame) && s.count[LinkOf(s, Pte(d, t)).value.frame] > 0
    ensures var s' := Unmapped(s, d, t);
      && Inv(s') && SameDirs(s, s') && SameBut(s, s', d, t) && PageAt(s', d, t) == None
      && (forall y :: y != Pte(d, t) ==> LinkOf(s', y) == LinkOf(s, y)) && LinkOf(s', Pte(d, t)) == None
  {
    TableIsMain(s, d);
    SetWordLinks(s, d, t, 0);
    SetWordPages(s, d, t, 0);
    var s1, s' := SetWord(s, d, t, 0), Unmapped(s, d, t);
    CountsAreNoLinks(s1, s');
    var l := LinkOf(s, Pte(d, t));
    if l.Some? {
      assert Pte(d, t) in Users(s, l.value.frame);
      RemoveLink(s, s', Pte(d, t), l.value.frame);
    } else {
      SameLinksKeepInv(s, s');
    }
  }

  lemma SameLinksKeepInv(s: Mem, s': Mem)
    requires Inv(s) && Shape(s') && s'.count == s.count && forall y :: LinkOf(s', y) == LinkOf(s, y)
    ensures Inv(s')
  {
    hide LinkOf, Users;
    SameUsers(s, s');
  }

  /** free_page_tables, the emptied table itself. */
  ghost function WithoutTable(s: Mem, d: int): Mem
    requires Shape(s) && DirLink(s, d).Some? && 0 <= DirLink(s, d).value.frame < PG_PAGES
  {
    Bump(s, DirLink(s, d).value.frame, -1).(dir := s.dir[d := 0])
  }

  lemma DropTableStep(s: Mem, d: int)
    requires Inv(s) && DirLink(s, d).Some? && forall t :: LinkOf(s, Pte(d, t)).None?
    ensures Main(DirLink(s, d).value.frame) && s.count[DirLink(s, d).value.frame] > 0
    ensures var s' := WithoutTable(s, d);
      && Inv(s') && DirLink(s', d).None? && (forall e, u :: PageAt(s', e, u) == PageAt(s, e, u))
      && (forall y :: y != Dir(d) ==> LinkOf(s', y) == LinkOf(s, y))
  {
    TableIsMain(s, d);
    var f, s' := DirLink(s, d).value.frame, WithoutTable(s, d);
    assert Refers(s, Dir(d), f);
    assert Dir(d) in Users(s, f);
    forall y | y != Dir(d) ensures LinkOf(s', y) == LinkOf(s, y) {
      if y.Pte? && y.d != d { assert DirLink(s', y.d) == DirLink(s, y.d); }
      if y == Pte(d, 0) { assert LinkOf(s, Pte(d, 0)).None?; }
    }
    RemoveLink(s, s', Dir(d), f);
  }

  /** A store through a writable entry. */
  ghost function Stored(s: Mem, d: int, t: int, off: int, v: int): Mem
    requires Shape(s) && 0 <= off < ENTRIES
    requires LinkOf(s, Pte(d, t)).Some? && 0 <= LinkOf(s, Pte(d, t)).value.frame < PG_PAGES
  {
    var f := LinkOf(s, Pte(d, t)).value.frame;
    s.(phys := s.phys[f := s.phys[f][off := v]])
  }

  /** It changes the storing program's own page and no other. */
  lemma StoreStep(s: Mem, d: int, t: int, off: int, v: int)
    requires Inv(s) && 0 <= off < ENTRIES
    requires LinkOf(s, Pte(d, t)).Some? && LinkOf(s, Pte(d, t)).value.writable
    ensures Main(LinkOf(s, Pte(d, t)).value.frame) && PageAt(s, d, t).Some?
    ensures var s' := Stored(s, d, t, off, v);
      && Inv(s') && SameDirs(s, s') && SameBut(s, s', d, t)
      && PageAt(s', d, t) == Some(PageAt(s, d, t).value[off := v])
      && (forall y :: LinkOf(s', y) == LinkOf(s, y))
  {
    var f := LinkOf(s, Pte(d, t)).value.frame;
    forall e ensures !Refers(s, Dir(e), f) { assert Dir(e) != Pte(d, t); }
    SetPageLinks(s, f, s.phys[f][off := v]);
    var s' := Stored(s, d, t, off, v);
    SameLinksKeepInv(s, s');
  }
}
