/** What programs see of memory, and the memory manager that would copy every page at once.

    A view gives, per directory entry, its 1024 pages' contents; it knows nothing of frames,
    reference counts or write protection. */
module EagerCopying {
  import opened Pages

  type Space = seq<Option<seq<Option<Page>>>>

  ghost function ViewDir(s: Mem, d: int): Option<seq<Option<Page>>>
    requires Shape(s)
  {
    if DirLink(s, d).Some? then Some(seq(ENTRIES, t => PageAt(s, d, t))) else None
  }

  ghost function View(s: Mem): Space
    requires Shape(s)
  {
    seq(ENTRIES, d => ViewDir(s, d))
  }

  function NoPages(): seq<Option<Page>> {
    seq(ENTRIES, _ => None)
  }

  predicate HasDir(v: Space, d: int) {
    0 <= d < |v| && v[d].Some? && |v[d].value| == ENTRIES
  }

  function SetPage(v: Space, d: int, t: int, p: Option<Page>): Space {
    if HasDir(v, d) && 0 <= t < ENTRIES then v[d := Some(v[d].value[t := p])] else v
  }

  function GetPage(v: Space, d: int, t: int): Option<Page> {
    if HasDir(v, d) && 0 <= t < ENTRIES then v[d].value[t] else None
  }

  // ----- views of changed states -----

  lemma ViewDirSame(s: Mem, s': Mem, d: int)
    requires Shape(s) && Shape(s') && (DirLink(s', d).Some? <==> DirLink(s, d).Some?)
    requires forall u :: PageAt(s', d, u) == PageAt(s, d, u)
    ensures ViewDir(s', d) == ViewDir(s, d)
  {
    hide PageAt, DirLink;
    if DirLink(s, d).Some? { assert ViewDir(s', d).value == ViewDir(s, d).value; }
  }

  lemma ViewSetsDir(s: Mem, s': Mem, d: int)
    requires Shape(s) && Shape(s') && IsUser(d)
    requires forall e :: e != d ==> (DirLink(s', e).Some? <==> DirLink(s, e).Some?)
    requires forall e, u :: e != d ==> PageAt(s', e, u) == PageAt(s, e, u)
    ensures View(s') == View(s)[d := ViewDir(s', d)]
  {
    hide PageAt, DirLink, ViewDir;
    forall e | 0 <= e < ENTRIES ensures View(s')[e] == View(s)[d := ViewDir(s', d)][e] {
      if e != d { ViewDirSame(s, s', e); }
    }
  }

  lemma ViewSame(s: Mem, s': Mem)
    requires Shape(s) && Shape(s') && SameDirs(s, s')
    requires forall e, u :: PageAt(s', e, u) == PageAt(s, e, u)
    ensures View(s') == View(s)
  {
    hide PageAt, DirLink, ViewDir;
    forall e | 0 <= e < ENTRIES ensures View(s')[e] == View(s)[e] { ViewDirSame(s, s', e); }
  }

  lemma ViewSetsPage(s: Mem, s': Mem, d: int, t: int)
    requires Shape(s) && Shape(s') && SameDirs(s, s') && SameBut(s, s', d, t)
    requires IsUser(d) && 0 <= t < ENTRIES && DirLink(s, d).Some?
    ensures View(s') == SetPage(View(s), d, t, PageAt(s', d, t))
  {
    hide PageAt, DirLink;
    ViewSetsDir(s, s', d);
    assert ViewDir(s', d).value == ViewDir(s, d).value[t := PageAt(s', d, t)];
  }

  lemma ViewGets(s: Mem, d: int, t: int)
    requires Shape(s) && DirLink(s, d).Some? && 0 <= t < ENTRIES
    ensures GetPage(View(s), d, t) == PageAt(s, d, t)
  {}

  // ----- every run of elementary steps -----

  /** The steps that the operations of mm/mm.c are made of. */
  datatype Step =
    | NewTable(d: int, g: int)
    | Share(from: int, to: int, t: int)
    | Upgrade(d: int, t: int)
    | Move(d: int, t: int, g: int)
    | Map(d: int, t: int, g: int, page: Page)
    | Unmap(d: int, t: int)
    | DropTable(d: int)
    | Store(d: int, t: int, off: int, v: int)

  predicate Index(t: int) { 0 <= t < ENTRIES }

  ghost predicate MapsNothing(s: Mem, d: int)
    requires Shape(s)
  {
    forall t :: LinkOf(s, Pte(d, t)).None?
  }

  /** When the code takes the step, and the counter, if it goes up, does not wrap. */
  ghost predicate Enabled(s: Mem, a: Step)
    requires Inv(s)
  {
    match a
    case NewTable(d, g) => IsUser(d) && LinkOf(s, Dir(d)).None? && Main(g) && s.count[g] == 0 && Clean(s.phys[g])
    case Share(from, to, t) =>
      && LinkOf(s, Dir(from)).Some? && LinkOf(s, Dir(to)).Some? && from != to && Index(t)
      && LinkOf(s, Pte(from, t)).Some? && LinkOf(s, Pte(to, t)).None?
    case Upgrade(d, t) =>
      && LinkOf(s, Dir(d)).Some? && Index(t) && LinkOf(s, Pte(d, t)).Some?
      && s.count[LinkOf(s, Pte(d, t)).value.frame] == 1
    case Move(d, t, g) =>
      LinkOf(s, Dir(d)).Some? && Index(t) && LinkOf(s, Pte(d, t)).Some? && Main(g) && s.count[g] == 0
    case Map(d, t, g, page) =>
      && LinkOf(s, Dir(d)).Some? && Index(t) && LinkOf(s, Pte(d, t)).None? && Main(g) && s.count[g] == 0
      && s.phys[g] == page
    case Unmap(d, t) => LinkOf(s, Dir(d)).Some? && Index(t)
    case DropTable(d) => LinkOf(s, Dir(d)).Some? && MapsNothing(s, d)
    case Store(d, t, off, v) =>
      0 <= off < ENTRIES && LinkOf(s, Pte(d, t)).Some? && LinkOf(s, Pte(d, t)).value.writable
  }

  ghost function Apply(s: Mem, a: Step): Mem
    requires Inv(s) && Enabled(s, a)
  {
    match a
    case NewTable(d, g) => WithTable(s, d, g)
    case Share(from, to, t) => Shared(s, from, to, t)
    case Upgrade(d, t) => SetWord(s, d, t, Unprotect(WordAt(s, d, t)))
    case Move(d, t, g) => Moved(s, d, t, g)
    case Map(d, t, g, page) => Mapped(s, d, t, g)
    case Unmap(d, t) => Unmapped(s, d, t)
    case DropTable(d) => WithoutTable(s, d)
    case Store(d, t, off, v) => Stored(s, d, t, off, v)
  }

  /** The same step for a manager that never shares a page: sharing is copying, and taking
      back write protection or moving to another frame is nothing at all. */
  function Eagerly(v: Space, a: Step): Space {
    match a
    case NewTable(d, g) => if 0 <= d < |v| then v[d := Some(NoPages())] else v
    case Share(from, to, t) => SetPage(v, to, t, GetPage(v, from, t))
    case Upgrade(_, _) => v
    case Move(_, _, _) => v
    case Map(d, t, g, page) => SetPage(v, d, t, Some(page))
    case Unmap(d, t) => SetPage(v, d, t, None)
    case DropTable(d) => if 0 <= d < |v| then v[d := None] else v
    case Store(d, t, off, w) =>
      var p := GetPage(v, d, t);
      if p.Some? && 0 <= off < |p.value| then SetPage(v, d, t, Some(p.value[off := w])) else v
  }

  /** One step keeps the invariant and looks eager. */
  lemma StepRefines(s: Mem, a: Step)
    requires Inv(s) && Enabled(s, a)
    ensures Inv(Apply(s, a)) && View(Apply(s, a)) == Eagerly(View(s), a)
  {
    hide PageAt, View, Users;
    var s' := Apply(s, a);
    match a {
      case NewTable(d, g) =>
        NewTableStep(s, d, g);
        NewTableView(s, d, g);
      case Share(from, to, t) =>
        ShareStep(s, from, to, t);
        ViewSetsPage(s, s', to, t);
        ViewGets(s, from, t);
      case Upgrade(d, t) =>
        UpgradeStep(s, d, t);
        ViewSame(s, s');
      case Move(d, t, g) =>
        MoveStep(s, d, t, g);
        ViewSame(s, s');
      case Map(d, t, g, page) =>
        MapStep(s, d, t, g);
        ViewSetsPage(s, s', d, t);
      case Unmap(d, t) =>
        UnmapStep(s, d, t);
        ViewSetsPage(s, s', d, t);
      case DropTable(d) =>
        DropTableStep(s, d);
        DropTableView(s, d);
      case Store(d, t, off, v) =>
        StoreStep(s, d, t, off, v);
        StoreView(s, d, t, off, v);
    }
  }

  lemma NewTableView(s: Mem, d: int, g: int)
    requires Inv(s) && Enabled(s, NewTable(d, g))
    ensures View(WithTable(s, d, g)) == Eagerly(View(s), NewTable(d, g))
  {
    NewTableStep(s, d, g);
    var s' := WithTable(s, d, g);
    ViewSetsDir(s, s', d);
    assert ViewDir(s', d).value == NoPages();
  }

  lemma DropTableView(s: Mem, d: int)
    requires Inv(s) && Enabled(s, DropTable(d))
    ensures Main(DirLink(s, d).value.frame) && View(WithoutTable(s, d)) == Eagerly(View(s), DropTable(d))
  {
    DropTableStep(s, d);
    ViewSetsDir(s, WithoutTable(s, d), d);
  }

  lemma StoreView(s: Mem, d: int, t: int, off: int, v: int)
    requires Inv(s) && Enabled(s, Store(d, t, off, v))
    ensures Main(LinkOf(s, Pte(d, t)).value.frame)
    ensures View(Stored(s, d, t, off, v)) == Eagerly(View(s), Store(d, t, off, v))
  {
    StoreStep(s, d, t, off, v);
    ViewSetsPage(s, Stored(s, d, t, off, v), d, t);
    ViewGets(s, d, t);
  }

  /** A run: states and the steps between them. */
  ghost predicate IsRun(states: seq<Mem>, steps: seq<Step>) {
    && |states| == |steps| + 1
    && forall k :: 0 <= k < |steps| ==>
         Inv(states[k]) ==> Enabled(states[k], steps[k]) && states[k + 1] == Apply(states[k], steps[k])
  }

  function AllEagerly(v: Space, steps: seq<Step>): Space
    decreases |steps|
  {
    if steps == [] then v else Eagerly(AllEagerly(v, steps[..|steps| - 1]), steps[|steps| - 1])
  }

  /** Copy-on-write is indistinguishable from copying: in every state of every run the
      programs see what they would see had each sharing been a copy.  And the reference
      counts, and the exclusiveness of writable pages, hold in every state. */
  lemma {:induction false} LazyLooksEager(states: seq<Mem>, steps: seq<Step>, k: nat)
    requires IsRun(states, steps) && Inv(states[0]) && k <= |steps|
    ensures Inv(states[k]) && View(states[k]) == AllEagerly(View(states[0]), steps[..k])
  {
    if k > 0 {
      LazyLooksEager(states, steps, k - 1);
      StepRefines(states[k - 1], steps[k - 1]);
      assert steps[..k][..k - 1] == steps[..k - 1];
    }
  }
}
