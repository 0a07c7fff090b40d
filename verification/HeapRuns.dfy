/** Whole runs of the allocator object: a program asks for memory, stores into what it got and
    gives it back, in any order.  The headers, next_start and the program's pointers then go
    through the runs of partitions that HeapBlocks reasons about. */
module HeapRuns {
  import opened HeapBlocks
  import opened HeapPool
  import opened HeapAllocator

  /** What a program asks for; it names a block it holds by its place in the list of pointers. */
  datatype Request = Allocate(size: int) | Release(n: nat) | Write(n: nat, offset: nat, value: int)

  /** The partition, next_start and the pointers that malloc gave out and free did not get back. */
  datatype Heap = Heap(bs: seq<Block>, roving: int, held: seq<int>)

  const Fresh := Heap(Initial, MEMORY, [])

  /** The block whose payload starts at p. */
  function BlockOf(bs: seq<Block>, p: int): (i: nat)
    ensures i <= |bs|
  {
    From(bs, p - HDR)
  }

  predicate InPayload(bs: seq<Block>, p: int, offset: nat) {
    var i := BlockOf(bs, p);
    i < |bs| && p + offset < End(bs, i)
  }

  /** The requests that go well, as far as the partition and next_start tell. */
  predicate Good(h: Heap, r: Request) {
    match r
    case Allocate(size) =>
      var j := Choice(h.bs, h.roving, SizeNeeded(size));
      && h.roving != 0 && 0 <= size <= INT_MAX - 15
      && (j < |h.bs| ==> !Overlaps(h.bs, j, SizeNeeded(size)))
    case Release(n) =>
      && n < |h.held| && |h.bs| > 1
      && var i := BlockOf(h.bs, h.held[n]);
         i < |h.bs| && !h.bs[i].free && !Strands(h.bs, i, h.roving)
    case Write(n, offset, _) => n < |h.held| && InPayload(h.bs, h.held[n], offset)
  }

  /** All of it: a request for memory that nothing fits is answered by null only if the block
      under next_start, whatever its header says, is too small as well. */
  ghost predicate Proper(m: seq<int>, h: Heap, r: Request) {
    && Good(h, r)
    && (r.Allocate? ==> MallocSafe(m, h.bs, h.roving, r.size))
  }

  /** The partition step that a request amounts to, if any. */
  function CallOf(h: Heap, r: Request): (calls: seq<Call>)
    ensures |calls| <= 1
  {
    match r
    case Allocate(size) =>
      var j := Choice(h.bs, h.roving, SizeNeeded(size));
      if j < |h.bs| then [Take(j, SizeNeeded(size))] else []
    case Release(n) =>
      if n < |h.held| then [HeapBlocks.Release(BlockOf(h.bs, h.held[n]))] else []
    case Write(_, _, _) => []
  }

  function Lower(s: int, c: int): int {
    if c < s then c else s
  }

  function Step(h: Heap, r: Request): Heap
    requires Good(h, r)
  {
    match r
    case Allocate(size) =>
      var need := SizeNeeded(size);
      var j := Choice(h.bs, h.roving, need);
      if j == |h.bs| then h
      else
        var after := Taken(h.bs, j, need);
        Heap(after, if j + 1 < |after| then after[j + 1].start else 0, h.held + [h.bs[j].start + HDR])
    case Release(n) =>
      var i := BlockOf(h.bs, h.held[n]);
      Heap(Freed(h.bs, i), Lower(h.roving, Compared(h.bs, i)), h.held[..n] + h.held[n + 1..])
    case Write(_, _, _) => h
  }

  /** Every request of the run goes well where it comes. */
  predicate AllGood(reqs: seq<Request>)
    decreases |reqs|, 0
  {
    reqs == [] ||
    var front := reqs[..|reqs| - 1];
    AllGood(front) && Good(Run(front), reqs[|reqs| - 1])
  }

  function Run(reqs: seq<Request>): Heap
    requires AllGood(reqs)
    decreases |reqs|, 1
  {
    if reqs == [] then Fresh else Step(Run(reqs[..|reqs| - 1]), reqs[|reqs| - 1])
  }

  // ----- what the program holds -----

  /** A block in use starts at a. */
  ghost predicate LiveAt(bs: seq<Block>, a: int) {
    exists i :: 0 <= i < |bs| && !bs[i].free && bs[i].start == a
  }

  /** The pointers held are those of the blocks in use, each held once. */
  ghost predicate Holds(h: Heap) {
    && Sound(h.bs)
    && (forall a :: LiveAt(h.bs, a) <==> a + HDR in h.held)
    && (forall i, j :: 0 <= i < j < |h.held| ==> h.held[i] != h.held[j])
  }

  lemma LiveAtIsLive(bs: seq<Block>, a: int)
    ensures LiveAt(bs, a) <==> exists e: Extent :: IsLive(bs, e) && e.from == a
  {
    if LiveAt(bs, a) {
      var i :| 0 <= i < |bs| && !bs[i].free && bs[i].start == a;
      assert IsLive(bs, Ext(bs, i));
    }
  }

  lemma BlockOfLive(bs: seq<Block>, i: nat)
    requires Tiled(bs) && i < |bs|
    ensures BlockOf(bs, bs[i].start + HDR) == i
  {}

  lemma HeldBlock(h: Heap, n: nat)
    requires Holds(h) && n < |h.held|
    ensures var i := BlockOf(h.bs, h.held[n]);
      i < |h.bs| && !h.bs[i].free && h.held[n] == h.bs[i].start + HDR
  {
    assert (h.held[n] - HDR) + HDR in h.held;
    assert LiveAt(h.bs, h.held[n] - HDR);
    var i :| 0 <= i < |h.bs| && !h.bs[i].free && h.bs[i].start == h.held[n] - HDR;
    BlockOfLive(h.bs, i);
  }

  lemma TiledIfHeld(h: Heap)
    requires Holds(h)
    ensures Tiled(h.bs)
  {}

  /** Giving back goes well if that is not the whole pool and does not join both neighbours while
      next_start is past the first. */
  lemma ReleaseGood(h: Heap, n: nat)
    requires Holds(h)
    ensures Good(h, Request.Release(n)) <==>
      && n < |h.held| && |h.bs| > 1
      && forall i :: 0 < i < |h.bs| - 1 && h.bs[i].start + 12 == h.held[n] ==>
           !(h.bs[i - 1].free && h.bs[i + 1].free && h.roving > h.bs[i - 1].start)
  {
    if n < |h.held| {
      HeldBlock(h, n);
      TiledIfHeld(h);
      hide Holds, From;
      var i := BlockOf(h.bs, h.held[n]);
      StartsIncrease2(h.bs, i);
      OnlyBlockAround(h.bs, i, h.bs[i].start);
    }
  }

  /** Writing goes well before the end of the block. */
  lemma WriteGood(h: Heap, n: nat, offset: nat, value: int)
    requires Holds(h)
    ensures Good(h, Write(n, offset, value)) <==>
      && n < |h.held|
      && exists i :: 0 <= i < |h.bs| && h.bs[i].start + 12 == h.held[n]
                     && 12 + offset < (if i + 1 < |h.bs| then h.bs[i + 1].start else MEM_END) - h.bs[i].start
  {
    if n < |h.held| {
      HeldBlock(h, n);
      TiledIfHeld(h);
      hide Holds, From;
      var i := BlockOf(h.bs, h.held[n]);
      StartsIncrease2(h.bs, i);
      OnlyBlockAround(h.bs, i, h.bs[i].start);
    }
  }

  /** Asking goes well unless four bytes would be left over. */
  lemma AllocateGood(h: Heap, size: int)
    requires Tiled(h.bs)
    ensures var need := (size + 15) / 4 * 4;
      Good(h, Allocate(size)) <==>
      && h.roving != 0 && 0 <= size <= INT_MAX - 15
      && forall k: nat :: FirstAt(h.bs, h.roving, need, k) ==> Size(h.bs, k) - need != 4
  {
    if 0 <= size <= INT_MAX - 15 {
      NeedIs(size);
      hide SizeNeeded, From, FirstFit, FirstAt;
      var need := SizeNeeded(size);
      var j := Choice(h.bs, h.roving, need);
      ChosenIsFirst(h.bs, h.roving, need);
      if j < |h.bs| { assert FirstAt(h.bs, h.roving, need, j); }
    }
  }

  /** The block that is given back is coalesced, and next_start goes down to it, or to the free block
      before it if it is the last. */
  lemma ReleaseMeans(h: Heap, n: nat)
    requires Holds(h) && Good(h, Request.Release(n))
    ensures var h' := Step(h, Request.Release(n));
      && h'.held == h.held[..n] + h.held[n + 1..]
      && exists i :: 0 <= i < |h.bs| && h.bs[i].start + 12 == h.held[n] && h'.bs == Freed(h.bs, i)
           && var c := if i > 0 && h.bs[i - 1].free && i + 1 == |h.bs| then h.bs[i - 1].start else h.bs[i].start;
              h'.roving == if c < h.roving then c else h.roving
  {
    HeldBlock(h, n);
    hide Holds, Freed, From;
    var i, h' := BlockOf(h.bs, h.held[n]), Step(h, Request.Release(n));
    var c := if i > 0 && h.bs[i - 1].free && i + 1 == |h.bs| then h.bs[i - 1].start else h.bs[i].start;
    assert h'.roving == if c < h.roving then c else h.roving;
    assert h.bs[i].start + 12 == h.held[n] && h'.bs == Freed(h.bs, i);
    assert h'.held == h.held[..n] + h.held[n + 1..];
  }

  /** The first block from next_start on that is large enough is taken, or nothing changes because there
      is none. */
  lemma AllocateMeans(h: Heap, size: int)
    requires Holds(h) && Good(h, Allocate(size))
    ensures var h' := Step(h, Allocate(size));
      var need := (size + 15) / 4 * 4;
      || (h' == h && forall k: nat :: !FirstAt(h.bs, h.roving, need, k))
      || exists k: nat :: FirstAt(h.bs, h.roving, need, k) && TakenFrom(h.bs, h'.bs, k, need, h'.roving)
                     && h'.held == h.held + [h.bs[k].start + 12]
  {
    NeedIs(size);
    hide SizeNeeded, From, FirstFit, FirstAt, TakenFrom, Taken;
    var need, h' := SizeNeeded(size), Step(h, Allocate(size));
    var j := Choice(h.bs, h.roving, need);
    ChosenIsFirst(h.bs, h.roving, need);
    if j < |h.bs| {
      StartsIncrease2(h.bs, j);
      AnswerTakes(h.bs, h.roving, h'.bs, h'.roving, size, h.bs[j].start + 12);
      assert FirstAt(h.bs, h.roving, need, j);
    }
  }

  lemma AllocateHolds(h: Heap, size: int)
    requires Holds(h) && Good(h, Allocate(size))
    ensures Holds(Step(h, Allocate(size)))
  {
    hide Taken, FirstFit, Fits;
    var need := SizeNeeded(size);
    var j := Choice(h.bs, h.roving, need);
    if j < |h.bs| {
      SizeNeededBounds(size);
      TakenKeepsSound(h.bs, j, need);
      var r := Taken(h.bs, j, need);
      var start := h.bs[j].start;
      assert h.bs[j].free by { assert Fits(h.bs, j, need); FitsFree(h.bs, j, need); }
      TakenLives(h.bs, j, need);
      var h' := Step(h, Allocate(size));
      assert h'.held == h.held + [start + HDR];
      forall a ensures LiveAt(r, a) <==> a + HDR in h'.held {}
      assert !LiveAt(h.bs, start);
    }
  }

  lemma FitsFree(bs: seq<Block>, j: nat, need: int)
    requires j < |bs| && Fits(bs, j, need)
    ensures bs[j].free
  {}

  lemma TakenLives(bs: seq<Block>, j: nat, need: int)
    requires Sound(bs) && j < |bs| && Fits(bs, j, need) && need >= HDR
    ensures forall a :: LiveAt(Taken(bs, j, need), a) <==> LiveAt(bs, a) || a == bs[j].start
    ensures !LiveAt(bs, bs[j].start)
  {
    var r := Taken(bs, j, need);
    forall a ensures LiveAt(r, a) <==> LiveAt(bs, a) || a == bs[j].start {
      forall e ensures IsLive(r, e) <==> IsLive(bs, e) || e == Ext(r, j) {
        TakenAddsOneExtent(bs, j, need, e);
      }
      LiveAtIsLive(bs, a);
      LiveAtIsLive(r, a);
      assert IsLive(r, Ext(r, j));
    }
    FitsFree(bs, j, need);
  }

  lemma FreedLives(bs: seq<Block>, i: nat)
    requires Sound(bs) && i < |bs| && !bs[i].free
    ensures forall a :: LiveAt(Freed(bs, i), a) <==> LiveAt(bs, a) && a != bs[i].start
  {
    var r := Freed(bs, i);
    forall a ensures LiveAt(r, a) <==> LiveAt(bs, a) && a != bs[i].start {
      forall e ensures IsLive(r, e) <==> IsLive(bs, e) && e != Ext(bs, i) {
        FreedRemovesOneExtent(bs, i, e);
      }
      LiveAtIsLive(bs, a);
      LiveAtIsLive(r, a);
      OneExtentPerStart(bs, i);
    }
  }

  lemma OneExtentPerStart(bs: seq<Block>, i: nat)
    requires Tiled(bs) && i < |bs|
    ensures forall e: Extent :: IsLive(bs, e) && e.from == bs[i].start ==> e == Ext(bs, i)
  {}

  lemma ReleaseHolds(h: Heap, n: nat)
    requires Holds(h) && Good(h, Request.Release(n))
    ensures Holds(Step(h, Request.Release(n)))
  {
    hide Freed, Sound;
    var i := BlockOf(h.bs, h.held[n]);
    HeldBlock(h, n);
    FreedKeepsSound(h.bs, i);
    FreedLives(h.bs, i);
    var h' := Step(h, Request.Release(n));
    forall p ensures p in h'.held <==> p in h.held && p != h.held[n] {
      DropOne(h.held, n, p);
    }
    forall a ensures LiveAt(h'.bs, a) <==> a + HDR in h'.held {}
  }

  lemma DropOne(held: seq<int>, n: nat, p: int)
    requires n < |held| && forall i, j :: 0 <= i < j < |held| ==> held[i] != held[j]
    ensures p in held[..n] + held[n + 1..] <==> p in held && p != held[n]
  {
    var r := held[..n] + held[n + 1..];
    if p in held && p != held[n] {
      var k :| 0 <= k < |held| && held[k] == p;
      assert r[if k < n then k else k - 1] == p;
    }
  }

  lemma StepHolds(h: Heap, r: Request)
    requires Holds(h) && Good(h, r)
    ensures Holds(Step(h, r))
  {
    match r
    case Allocate(size) => AllocateHolds(h, size);
    case Release(n) => ReleaseHolds(h, n);
    case Write(_, _, _) =>
  }

  /** A malloc that went well can be taken back at once, unless it took the whole pool: free is
      safe then, and the partition and the pointers held are those of before. */
  lemma ReleaseUndoesAllocate(h: Heap, size: int)
    requires Holds(h) && Good(h, Allocate(size))
    requires Choice(h.bs, h.roving, SizeNeeded(size)) < |h.bs|
    ensures var h1 := Step(h, Allocate(size));
      var back := Request.Release(|h.held|);
      && (Good(h1, back) <==> |h1.bs| > 1)
      && (|h1.bs| > 1 ==> Step(h1, back).bs == h.bs && Step(h1, back).held == h.held)
  {
    var need := SizeNeeded(size);
    var j := Choice(h.bs, h.roving, need);
    var h1 := Step(h, Allocate(size));
    AllocateHolds(h, size);
    TakenIsInUse(h.bs, j, need);
    BlockOfLive(h1.bs, j);
    FreedUndoesTaken(h.bs, j, need);
    assert h1.held[..|h.held|] + h1.held[|h.held| + 1..] == h.held;
  }

  /** The block in front of the one just taken is in use. */
  lemma TakenIsInUse(bs: seq<Block>, j: nat, need: int)
    requires NoAdjacentFree(bs) && j < |bs| && bs[j].free
    ensures var r := Taken(bs, j, need);
      j < |r| && r[j] == Block(bs[j].start, false) && !FreeBefore(r, j)
  {
    assert j > 0 ==> !BothFree(bs, j - 1);
  }

  // ----- runs of requests are runs of partitions -----

  function Calls(reqs: seq<Request>): seq<Call>
    requires AllGood(reqs)
    decreases |reqs|
  {
    if reqs == [] then []
    else
      var front := reqs[..|reqs| - 1];
      Calls(front) + CallOf(Run(front), reqs[|reqs| - 1])
  }

  /** The partition before the first of these calls and the one after each. */
  function States(reqs: seq<Request>): (states: seq<seq<Block>>)
    requires AllGood(reqs)
    ensures |states| == |Calls(reqs)| + 1
    decreases |reqs|
  {
    if reqs == [] then [Initial]
    else
      var front := reqs[..|reqs| - 1];
      var last := reqs[|reqs| - 1];
      States(front) + (if CallOf(Run(front), last) == [] then [] else [Run(reqs).bs])
  }

  lemma StepIsCall(h: Heap, r: Request)
    requires Holds(h) && Good(h, r)
    ensures CallOf(h, r) == [] ==> Step(h, r).bs == h.bs
    ensures CallOf(h, r) != [] ==>
      Allowed(h.bs, CallOf(h, r)[0]) && Step(h, r).bs == After(h.bs, CallOf(h, r)[0])
  {
    match r
    case Allocate(size) => SizeNeededBounds(size);
    case Release(n) => HeldBlock(h, n);
    case Write(_, _, _) =>
  }

  lemma RunGrows(calls: seq<Call>, states: seq<seq<Block>>, c: Call, bs: seq<Block>)
    requires IsRun(calls, states) && Allowed(states[|calls|], c) && bs == After(states[|calls|], c)
    ensures IsRun(calls + [c], states + [bs])
  {
    var calls', states' := calls + [c], states + [bs];
    forall k | 0 <= k < |calls'|
      ensures Allowed(states'[k], calls'[k]) && states'[k + 1] == After(states'[k], calls'[k])
    {
      if k < |calls| { assert Allowed(states[k], calls[k]); }
    }
  }

  /** A run of requests that go well takes the heap through a run of partitions, ends with the
      program holding exactly the blocks in use, and, if the program then holds nothing, with
      the one free block that malloc_init made. */
  lemma {:induction false} RunIsSound(reqs: seq<Request>)
    requires AllGood(reqs)
    ensures IsRun(Calls(reqs), States(reqs))
    ensures Run(reqs).bs == States(reqs)[|Calls(reqs)|]
    ensures Holds(Run(reqs))
    ensures Run(reqs).held == [] ==> Run(reqs).bs == Initial
    decreases |reqs|
  {
    hide IsRun, Holds, Step, Good, CallOf, Allowed, After;
    if reqs == [] {
      StartIsSound();
    } else {
      var front, last := reqs[..|reqs| - 1], reqs[|reqs| - 1];
      RunIsSound(front);
      StepIsCall(Run(front), last);
      StepHolds(Run(front), last);
      var call := CallOf(Run(front), last);
      if call != [] {
        assert call == [call[0]];
        RunGrows(Calls(front), States(front), call[0], Run(reqs).bs);
      } else {
        assert Calls(reqs) == Calls(front) && States(reqs) == States(front);
      }
    }
    if Run(reqs).held == [] { NothingHeld(reqs); }
  }

  lemma StartIsSound()
    ensures Holds(Fresh) && IsRun([], [Initial])
  {
    InitialIsSound();
  }

  lemma NothingHeld(reqs: seq<Request>)
    requires AllGood(reqs) && Holds(Run(reqs)) && Run(reqs).held == []
    requires IsRun(Calls(reqs), States(reqs)) && Run(reqs).bs == States(reqs)[|Calls(reqs)|]
    ensures Run(reqs).bs == Initial
  {
    var bs := Run(reqs).bs;
    forall e ensures !IsLive(bs, e) {
      LiveAtIsLive(bs, e.from);
      assert !(e.from + HDR in Run(reqs).held);
    }
    AllFreedIsInitial(Calls(reqs), States(reqs));
  }

  // ----- the code -----

  /** What malloc settles on fits exactly if the search found it. */
  lemma GoodFits(m: seq<int>, bs: seq<Block>, s: int, need: int, good: int)
    requires Layout(m, bs) && RovingOk(m, bs, s) && s != 0
    requires var j := Choice(bs, s, need); good == if j < |bs| then bs[j].start else s
    ensures MEMORY <= good && good + HDR <= MEM_END
    ensures var j := Choice(bs, s, need);
      && (At(m, good + 8) != 0 && At(m, good + 4) >= need <==> j < |bs|)
      && (j < |bs| ==> At(m, good + 4) == Size(bs, j))
  {
    var j := Choice(bs, s, need);
    GoodIsAHeader(m, bs, s, need);
    if j < |bs| {
      HeaderFacts(m, bs, j);
      FitsFree(bs, j, need);
    } else {
      WalkStarts(m, bs, s);
      WalkSteps(m, bs, s, From(bs, s), need);
    }
  }

  /** Is this call of malloc safe?  Decided by walking the heap as malloc does. */
  method CheckMalloc(a: Allocator, size: int) returns (ok: bool)
    requires a.Valid() && 0 <= size <= INT_MAX
    ensures ok <==> MallocSafe(a.mem[..], a.bs, a.nextStart, size)
  {
    hide HeaderOk, Tiled, RovingOk, NoAdjacentFree, SizeNeeded, FirstFit, From, Fits;
    if a.nextStart == 0 || size > INT_MAX - 15 { return false; }
    var need := SizeNeeded(size);
    var good := a.Search(need);
    GoodFits(a.mem[..], a.bs, a.nextStart, need, good);
    if a.Word(good + 8) != 0 && a.Word(good + 4) >= need {
      ok := a.Word(good + 4) - need != 4;
    } else {
      ok := a.Word(a.nextStart + 4) < need;
    }
  }

  /** Is this call of free safe?  Decided from the headers around the block. */
  method CheckFree(a: Allocator, p: int, ghost i: nat) returns (ok: bool)
    requires a.Valid() && i < |a.bs| && p == a.bs[i].start + HDR
    ensures ok <==> |a.bs| > 1 && !Strands(a.bs, i, a.nextStart)
  {
    var mm := p - HDR;
    HeaderFacts(a.mem[..], a.bs, i);
    var prev, next := a.Word(mm), a.GetNext(mm);
    if i > 0 { FlagFacts(a.mem[..], a.bs, i - 1); }
    if i + 1 < |a.bs| { FlagFacts(a.mem[..], a.bs, i + 1); }
    if prev == 0 || next == 0 { return prev != 0 || next != 0; }
    ok := a.Word(prev + 8) == 0 || a.Word(next + 8) == 0 || a.nextStart <= prev;
  }

  ghost function Now(a: Allocator, held: seq<int>): Heap
    reads a
  {
    Heap(a.bs, a.nextStart, held)
  }

  /** One request.  It is carried out exactly if it is proper, and then does what Step says;
      otherwise nothing happens. */
  method Serve(a: Allocator, held: seq<int>, r: Request) returns (held': seq<int>, ok: bool)
    requires a.Valid() && Holds(Now(a, held))
    modifies a, a.mem
    ensures a.Valid()
    ensures ok <==> Proper(old(a.mem[..]), old(Now(a, held)), r)
    ensures ok ==> Now(a, held') == Step(old(Now(a, held)), r)
    ensures !ok ==> Now(a, held') == old(Now(a, held)) && a.mem[..] == old(a.mem[..])
  {
    held', ok := held, false;
    match r {
      case Allocate(size) =>
        if 0 <= size <= INT_MAX { held', ok := ServeAllocate(a, held, size); }
      case Release(n) =>
        if n < |held| { held', ok := ServeRelease(a, held, n); }
      case Write(n, offset, value) =>
        if n < |held| { ok := ServeWrite(a, held, n, offset, value); }
    }
  }

  method ServeAllocate(a: Allocator, held: seq<int>, size: int) returns (held': seq<int>, ok: bool)
    requires a.Valid() && Holds(Now(a, held)) && 0 <= size <= INT_MAX
    modifies a, a.mem
    ensures a.Valid()
    ensures ok <==> Proper(old(a.mem[..]), old(Now(a, held)), Allocate(size))
    ensures ok ==> Now(a, held') == Step(old(Now(a, held)), Allocate(size))
    ensures !ok ==> Now(a, held') == old(Now(a, held)) && a.mem[..] == old(a.mem[..])
  {
    hide Layout, Taken, RovingOk, NoAdjacentFree, SizeNeeded, FirstFit, From, Sound;
    held' := held;
    ok := CheckMalloc(a, size);
    SafeIsGood(a.mem[..], Now(a, held), size);
    if !ok { return; }
    ghost var j := Choice(a.bs, a.nextStart, SizeNeeded(size));
    if j < |a.bs| { HeaderFacts(a.mem[..], a.bs, j); }
    var p, fault := a.Malloc(size);
    if p != 0 { held' := held + [p]; }
  }

  lemma SafeIsGood(m: seq<int>, h: Heap, size: int)
    requires 0 <= size
    ensures MallocSafe(m, h.bs, h.roving, size) <==> Proper(m, h, Allocate(size))
  {}

  method ServeRelease(a: Allocator, held: seq<int>, n: nat) returns (held': seq<int>, ok: bool)
    requires a.Valid() && Holds(Now(a, held)) && n < |held|
    modifies a, a.mem
    ensures a.Valid()
    ensures ok <==> Proper(old(a.mem[..]), old(Now(a, held)), Request.Release(n))
    ensures ok ==> Now(a, held') == Step(old(Now(a, held)), Request.Release(n))
    ensures !ok ==> Now(a, held') == old(Now(a, held)) && a.mem[..] == old(a.mem[..])
  {
    hide Layout, Freed, RovingOk, NoAdjacentFree, From, Sound;
    held' := held;
    ghost var i := BlockOf(a.bs, held[n]);
    HeldBlock(Now(a, held), n);
    ok := CheckFree(a, held[n], i);
    if !ok { return; }
    var fault := a.Free(held[n], i);
    held' := held[..n] + held[n + 1..];
  }

  method ServeWrite(a: Allocator, held: seq<int>, n: nat, offset: nat, value: int) returns (ok: bool)
    requires a.Valid() && Holds(Now(a, held)) && n < |held|
    modifies a.mem
    ensures a.Valid() && Now(a, held) == old(Now(a, held))
    ensures ok <==> InPayload(a.bs, held[n], offset)
    ensures !ok ==> a.mem[..] == old(a.mem[..])
  {
    hide RovingOk, NoAdjacentFree, From, Sound;
    ghost var i := BlockOf(a.bs, held[n]);
    HeldBlock(Now(a, held), n);
    HeaderFacts(a.mem[..], a.bs, i);
    ok := offset < a.Word(held[n] - HDR + 4) - HDR;
    if ok { a.Store(held[n] + offset, value, i); }
  }

  /** A program's requests, from malloc_init on, up to the first that is not proper: a call
      of malloc that is not safe, a free that strands next_start or gives back the whole
      pool, or a pointer or word that the program does not own. */
  method Execute(reqs: seq<Request>) returns (a: Allocator, held: seq<int>, served: nat)
    ensures fresh(a) && fresh(a.mem) && a.Valid()
    ensures served <= |reqs| && AllGood(reqs[..served])
    ensures Now(a, held) == Run(reqs[..served])
    ensures served < |reqs| ==> !Proper(a.mem[..], Now(a, held), reqs[served])
    ensures IsRun(Calls(reqs[..served]), States(reqs[..served]))
    ensures a.bs == States(reqs[..served])[|Calls(reqs[..served])|]
    ensures forall p :: p in held <==> LiveAt(a.bs, p - HDR)
    ensures held == [] ==> a.bs == Initial
  {
    hide Good, Step, Calls, States, IsRun, LiveAt, Sound;
    a := new Allocator();
    held, served := [], 0;
    var ok := true;
    assert reqs[..0] == [];
    while ok && served < |reqs|
      invariant fresh(a) && fresh(a.mem) && a.Valid()
      invariant served <= |reqs| && AllGood(reqs[..served])
      invariant Now(a, held) == Run(reqs[..served])
      invariant !ok ==> served < |reqs| && !Proper(a.mem[..], Now(a, held), reqs[served])
      decreases |reqs| - served, ok
    {
      RunIsSound(reqs[..served]);
      held, ok := Serve(a, held, reqs[served]);
      if ok {
        RunSteps(reqs, served);
        served := served + 1;
      }
    }
    RunIsSound(reqs[..served]);
    HeldAreLive(Now(a, held));
  }

  lemma RunSteps(reqs: seq<Request>, n: nat)
    requires n < |reqs| && AllGood(reqs[..n]) && Good(Run(reqs[..n]), reqs[n])
    ensures AllGood(reqs[..n + 1])
    ensures Run(reqs[..n + 1]) == Step(Run(reqs[..n]), reqs[n])
  {
    var r := reqs[..n + 1];
    assert r[..|r| - 1] == reqs[..n] && r[|r| - 1] == reqs[n];
  }

  lemma HeldAreLive(h: Heap)
    requires Holds(h)
    ensures forall p :: p in h.held <==> LiveAt(h.bs, p - HDR)
  {
    forall p ensures p in h.held <==> LiveAt(h.bs, p - HDR) {
      assert LiveAt(h.bs, p - HDR) <==> (p - HDR) + HDR in h.held;
    }
  }
}
