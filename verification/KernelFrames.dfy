/** The frames that hold the page directory and the kernel's eight page tables.

    setup_page puts the directory at PG_DIR, the first byte of the memory that mem_init has just
    marked free, and the tables behind it.  No count says that they are in use, and no user slot
    refers to them: they are safe exactly as long as get_free_page finds another frame. */
module KernelFrames {
  import opened Pages
  import opened EagerCopying

  /** PG_DIR, in pages, and the last frame of pg_table. */
  const DIRECTORY := START_MEM
  const LAST_TABLE := START_MEM + FIRST_USER

  predicate IsKernelFrame(f: int) { DIRECTORY <= f <= LAST_TABLE }

  /** Directory entry i, below the first user entry, refers to its frame. */
  ghost predicate KernelMapped(s: Mem) {
    |s.dir| == ENTRIES && forall i :: 0 <= i < FIRST_USER ==> Present(s.dir[i]) && Frame(s.dir[i]) == DIRECTORY + 1 + i
  }

  /** Nobody else has these frames, and their counts do not say that they are in use. */
  ghost predicate KernelAlone(s: Mem) {
    |s.count| > LAST_TABLE && forall f :: IsKernelFrame(f) ==> s.count[f] == 0
  }

  /** The kernel's entries, and the words of its frames, are those of s0. */
  ghost predicate KernelKept(s0: Mem, s: Mem) {
    && |s.dir| == |s0.dir| == ENTRIES && |s.phys| == |s0.phys| == PG_PAGES
    && (forall i :: 0 <= i < FIRST_USER ==> s.dir[i] == s0.dir[i])
    && (forall f :: IsKernelFrame(f) ==> s.phys[f] == s0.phys[f])
  }

  /** A step that get_free_page served with one of these frames. */
  predicate TakesKernelFrame(a: Step) {
    (a.NewTable? || a.Move? || a.Map?) && IsKernelFrame(a.g)
  }

  lemma AloneIsUnused(s: Mem)
    requires Inv(s) && KernelAlone(s)
    ensures forall y, f :: IsKernelFrame(f) ==> !Refers(s, y, f)
  {
    forall y, f | IsKernelFrame(f) ensures !Refers(s, y, f) {
      FreeFrameIsUnused(s, f);
    }
  }

  /** From s to s' the kernel's frames are as they were, or one of them has been taken. */
  ghost predicate Spared(s: Mem, s': Mem, taken: bool) {
    (KernelAlone(s') <==> !taken) && (!taken ==> KernelKept(s, s'))
  }

  lemma ShareSpares(s: Mem, from: int, to: int, t: int)
    requires Inv(s) && Enabled(s, Share(from, to, t)) && KernelAlone(s)
    ensures var s' := Apply(s, Share(from, to, t)); Shape(s') && Spared(s, s', false)
  {
    ShareStep(s, from, to, t);
    AloneIsUnused(s);
    ProtectFacts(WordAt(s, from, t));
    hide PageAt, Users, Exclusive, Protect, Present;
    assert Refers(s, Pte(from, t), LinkOf(s, Pte(from, t)).value.frame);
    assert Refers(s, Dir(from), DirLink(s, from).value.frame) && Refers(s, Dir(to), DirLink(s, to).value.frame);
  }

  lemma MoveSpares(s: Mem, d: int, t: int, g: int)
    requires Inv(s) && Enabled(s, Move(d, t, g)) && KernelAlone(s)
    ensures var s' := Apply(s, Move(d, t, g)); Shape(s') && Spared(s, s', IsKernelFrame(g))
  {
    MoveStep(s, d, t, g);
    AloneIsUnused(s);
    hide PageAt, Users;
    var was := LinkOf(s, Pte(d, t)).value.frame;
    assert Refers(s, Pte(d, t), was) && Refers(s, Dir(d), DirLink(s, d).value.frame);
    var s' := Moved(s, d, t, g);
    assert s'.count[g] == 1;
  }

  lemma MapSpares(s: Mem, d: int, t: int, g: int, page: Page)
    requires Inv(s) && Enabled(s, Map(d, t, g, page)) && KernelAlone(s)
    ensures var s' := Apply(s, Map(d, t, g, page)); Shape(s') && Spared(s, s', IsKernelFrame(g))
  {
    MapStep(s, d, t, g);
    AloneIsUnused(s);
    hide PageAt, Users;
    assert Refers(s, Dir(d), DirLink(s, d).value.frame);
    assert Mapped(s, d, t, g).count[g] == 1;
  }

  lemma OwnWordSpares(s: Mem, a: Step)
    requires Inv(s) && Enabled(s, a) && KernelAlone(s) && (a.Upgrade? || a.Unmap? || a.Store?)
    ensures Shape(Apply(s, a)) && Spared(s, Apply(s, a), false)
  {
    StepRefines(s, a);
    AloneIsUnused(s);
    hide PageAt, Users, View;
    match a
    case Upgrade(d, t) => assert Refers(s, Dir(d), DirLink(s, d).value.frame);
    case Unmap(d, t) => assert Refers(s, Dir(d), DirLink(s, d).value.frame);
    case Store(d, t, _, _) => assert Refers(s, Pte(d, t), LinkOf(s, Pte(d, t)).value.frame);
  }

  lemma TableSpares(s: Mem, a: Step)
    requires Inv(s) && Enabled(s, a) && KernelAlone(s) && (a.NewTable? || a.DropTable?)
    ensures Shape(Apply(s, a)) && Spared(s, Apply(s, a), TakesKernelFrame(a))
  {
    StepRefines(s, a);
    AloneIsUnused(s);
    hide PageAt, Users, View;
    match a
    case NewTable(d, g) => assert WithTable(s, d, g).count[g] == 1;
    case DropTable(d) => assert Refers(s, Dir(d), DirLink(s, d).value.frame);
  }

  /** A step leaves the kernel's frames alone, and as they were, exactly if it takes none of them. */
  lemma KernelStep(s: Mem, a: Step)
    requires Inv(s) && Enabled(s, a) && KernelAlone(s)
    ensures Inv(Apply(s, a)) && (KernelAlone(Apply(s, a)) <==> !TakesKernelFrame(a))
    ensures !TakesKernelFrame(a) ==> KernelKept(s, Apply(s, a))
  {
    StepRefines(s, a);
    hide KernelAlone, KernelKept, Inv, Enabled, Apply;
    match a
    case Share(from, to, t) => ShareSpares(s, from, to, t);
    case Move(d, t, g) => MoveSpares(s, d, t, g);
    case Map(d, t, g, page) => MapSpares(s, d, t, g, page);
    case NewTable(_, _) => TableSpares(s, a);
    case DropTable(_) => TableSpares(s, a);
    case _ => OwnWordSpares(s, a);
  }

  /** While no step takes one of the kernel's frames, the directory and the kernel's tables are as they
      were, and the programs see what eager copying would show them; and such a step, wherever it comes
      first, puts a frame of the kernel into a program's hands. */
  lemma {:induction false} RunSparesKernel(states: seq<Mem>, steps: seq<Step>, k: nat)
    requires IsRun(states, steps) && Inv(states[0]) && KernelAlone(states[0]) && k <= |steps|
    ensures (forall j :: 0 <= j <= k ==> Inv(states[j])) && Inv(states[k])
    ensures (forall j :: 0 <= j <= k ==> KernelAlone(states[j])) <==>
      (forall j :: 0 <= j < k ==> !TakesKernelFrame(steps[j]))
    ensures (forall j :: 0 <= j < k ==> !TakesKernelFrame(steps[j])) ==>
      KernelKept(states[0], states[k]) && View(states[k]) == AllEagerly(View(states[0]), steps[..k])
  {
    hide KernelAlone, KernelKept, View, Inv, Enabled, Apply, TakesKernelFrame;
    LazyLooksEager(states, steps, k);
    if k > 0 {
      RunSparesKernel(states, steps, k - 1);
      assert Enabled(states[k - 1], steps[k - 1]);
      if KernelAlone(states[k - 1]) {
        KernelStep(states[k - 1], steps[k - 1]);
        if forall j :: 0 <= j < k ==> !TakesKernelFrame(steps[j]) {
          KeptTwice(states[0], states[k - 1], states[k]);
        }
      }
    } else {
      KeptSame(states[0]);
    }
  }

  lemma KeptSame(s: Mem)
    requires Inv(s)
    ensures Shape(s) && KernelKept(s, s)
  {}

  lemma KeptTwice(s0: Mem, s: Mem, s': Mem)
    requires Inv(s0) && Inv(s) && Inv(s') && KernelKept(s0, s) && KernelKept(s, s')
    ensures KernelKept(s0, s')
  {}

  /** A program that got the directory's frame can store any word of the directory. */
  lemma DirectoryExposed(s: Mem, d: int, t: int, page: Page, off: int, v: int)
    requires Inv(s) && KernelAlone(s) && Enabled(s, Map(d, t, DIRECTORY, page)) && 0 <= off < ENTRIES
    ensures var s1 := Apply(s, Map(d, t, DIRECTORY, page));
      && Inv(s1) && Enabled(s1, Store(d, t, off, v))
      && Inv(Apply(s1, Store(d, t, off, v))) && Apply(s1, Store(d, t, off, v)).phys[DIRECTORY][off] == v
  {
    hide PageAt, Users, View;
    StepRefines(s, Map(d, t, DIRECTORY, page));
    MapStep(s, d, t, DIRECTORY);
    FullFacts(DIRECTORY);
    var s1 := Mapped(s, d, t, DIRECTORY);
    SetWordLinks(s, d, t, Full(DIRECTORY));
    CountsAreNoLinks(SetWord(s, d, t, Full(DIRECTORY)), s1);
    assert LinkOf(s1, Pte(d, t)) == Some(Link(DIRECTORY, true));
    StepRefines(s1, Store(d, t, off, v));
  }
}
