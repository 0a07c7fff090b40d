/** The allocator object of mm/malloc.c: the pool's words, next_start, and the code. */
module HeapAllocator {
  import opened HeapBlocks
  import opened HeapPool

  class Allocator {
    /** Cell a - MEMORY holds the 32-bit word at address a.  The array runs one header past
        the pool, because malloc can write there. */
    const mem: array<int>
    var nextStart: int
    ghost var bs: seq<Block>

    /** The headers spell the partition bs. */
    ghost predicate Spells()
      reads this, mem
    {
      mem.Length == MEM_SIZE + HDR && Layout(mem[..], bs)
    }

    ghost predicate Valid()
      reads this, mem
    {
      Spells() && NoAdjacentFree(bs) && RovingOk(mem[..], bs, nextStart)
    }

    /** malloc_init */
    constructor ()
      ensures Valid() && fresh(mem)
      ensures bs == Initial && nextStart == MEMORY
    {
      mem := new int[MEM_SIZE + HDR](i => if i == 4 then MEM_SIZE else if i == 8 then 1 else 0);
      nextStart := MEMORY;
      bs := Initial;
      new;
      InitialIsSound();
      assert HeaderOk(mem[..], bs, 0);
      assert IsHead(bs, MEMORY) by { assert bs[0].start == MEMORY; }
    }

    method Put(a: int, v: int)
      requires MEMORY <= a < MEMORY + mem.Length
      modifies mem
      ensures mem[..] == Set(old(mem[..]), a, v)
    {
      mem[a - MEMORY] := v;
    }

    function Word(a: int): int
      reads mem
    {
      if MEMORY <= a < MEMORY + mem.Length then mem[a - MEMORY] else 0
    }

    /** get_next; the comparison is unsigned, so a negative sum counts as past the end. */
    function GetNext(mm: int): int
      reads mem
    {
      var next := mm + Word(mm + 4);
      if next < 0 || next >= MEM_END then 0 else next
    }

    // ----- the merges of free -----

    /** merge_front: mm is swallowed by the block before it. */
    method MergeFront(mm: int, prev: int, ghost i: nat) returns (head: int)
      requires Spells() && 0 < i < |bs| && bs[i].start == mm && bs[i - 1].start == prev
      requires bs[i - 1].free
      modifies this`bs, mem
      ensures Spells() && head == prev
      ensures IsMerge(old(bs), bs, i - 1, i + 1)
      ensures SameBelow(old(mem[..]), mem[..], prev)
      ensures InnerKept(old(mem[..]), mem[..], old(bs), i, i + 1)
    {
      hide HeaderOk, MergeWords, IsMerge, InnerKept, SameBelow;
      ghost var m := mem[..];
      TwoSizes(m, bs, i - 1);
      var next := GetNext(mm);
      Put(prev + 4, Word(prev + 4) + Word(mm + 4));
      if next != 0 { Put(next, prev); }
      TwoMerged(m, mem[..], bs, i - 1);
      MergeIsLaidOut(m, mem[..], bs, i - 1, i + 1);
      bs := bs[..i - 1] + [Block(prev, true)] + bs[i + 1..];
      head := prev;
    }

    /** merge_back: mm, now free, swallows the block behind it. */
    method MergeBack(mm: int, next0: int, ghost i: nat) returns (head: int)
      requires Spells() && i + 1 < |bs| && bs[i].start == mm && bs[i + 1].start == next0
      modifies this`bs, mem
      ensures Spells() && head == mm
      ensures IsMerge(old(bs), bs, i, i + 2)
      ensures SameBelow(old(mem[..]), mem[..], mm)
    {
      hide HeaderOk, MergeWords, IsMerge, InnerKept, SameBelow;
      ghost var m := mem[..];
      TwoSizes(m, bs, i);
      var next := next0;
      Put(mm + 8, 1);
      Put(mm + 4, Word(mm + 4) + Word(next + 4));
      next := GetNext(next);
      if next != 0 { Put(next, mm); }
      TwoMerged(m, mem[..], bs, i);
      MergeIsLaidOut(m, mem[..], bs, i, i + 2);
      bs := bs[..i] + [Block(mm, true)] + bs[i + 2..];
      head := mm;
    }

    /** merge_both: the block before mm swallows mm and the block behind it. */
    method MergeBoth(mm: int, prev: int, next0: int, ghost i: nat) returns (head: int)
      requires Spells() && 0 < i && i + 1 < |bs|
      requires bs[i].start == mm && bs[i - 1].start == prev && bs[i + 1].start == next0
      requires bs[i - 1].free
      modifies this`bs, mem
      ensures Spells() && head == prev
      ensures IsMerge(old(bs), bs, i - 1, i + 2)
      ensures SameBelow(old(mem[..]), mem[..], prev)
      ensures InnerKept(old(mem[..]), mem[..], old(bs), i, i + 2)
    {
      hide HeaderOk, MergeWords, IsMerge, InnerKept, SameBelow;
      ghost var m := mem[..];
      ThreeSizes(m, bs, i);
      var next := next0;
      Put(prev + 4, Word(prev + 4) + Word(mm + 4) + Word(next + 4));
      next := GetNext(next);
      if next != 0 { Put(next, prev); }
      ThreeMerged(m, mem[..], bs, i);
      MergeIsLaidOut(m, mem[..], bs, i - 1, i + 2);
      bs := bs[..i - 1] + [Block(prev, true)] + bs[i + 2..];
      head := prev;
    }

    /** try_merge_front, for the last block of the pool. */
    method TryMergeFront(mm: int, ghost i: nat) returns (head: int)
      requires Spells() && 0 < i && i + 1 == |bs| && bs[i].start == mm && !bs[i].free
      modifies this`bs, mem
      ensures Spells() && bs == Freed(old(bs), i)
      ensures head == (if FreeBefore(old(bs), i) then old(bs)[i - 1].start else mm)
      ensures IsMerge(old(bs), bs, if FreeBefore(old(bs), i) then i - 1 else i, i + 1)
      ensures SameBelow(old(mem[..]), mem[..], head)
    {
      HeaderFacts(mem[..], bs, i);
      MarkFree(mm, i);
      head := mm;
      FlagFacts(mem[..], bs, i - 1);
      assert Word(mm) == bs[i - 1].start by { HeaderFacts(mem[..], bs, i); }
      if Word(Word(mm) + 8) != 0 { head := MergeFront(mm, Word(mm), i); }
    }

    /** try_merge_back, for the first block of the pool.  When that block is the whole pool,
        the code reads the free flag of a null next block. */
    method TryMergeBack(mm: int) returns (head: int, fault: bool)
      requires Spells() && bs[0].start == mm && !bs[0].free
      modifies this`bs, mem
      ensures fault <==> |bs| == 1 && |old(bs)| == 1
      ensures Spells() && head == mm && bs == Freed(old(bs), 0)
      ensures IsMerge(old(bs), bs, 0, if FreeAfter(old(bs), 0) then 2 else 1)
      ensures SameBelow(old(mem[..]), mem[..], mm)
    {
      HeaderFacts(mem[..], bs, 0);
      var next := GetNext(mm);
      MarkFree(mm, 0);
      head, fault := mm, next == 0;
      if fault { return; }
      FlagFacts(mem[..], bs, 1);
      if Word(next + 8) != 0 { head := MergeBack(mm, next, 0); }
    }

    // ----- free -----

    /** Freeing the payload of a block coalesces it with its free neighbours; freeing a block
        that is free already changes nothing.  The one fault is freeing an allocation that
        fills the whole pool.  next_start stays usable exactly when the call does not
        strand it. */
    method Free(ptr: int, ghost i: nat) returns (fault: bool)
      requires Valid() && i < |bs| && ptr == bs[i].start + HDR
      modifies this, mem
      ensures fault <==> |old(bs)| == 1 && !old(bs)[i].free
      ensures Spells() && NoAdjacentFree(bs)
      ensures bs == if old(bs)[i].free then old(bs) else Freed(old(bs), i)
      ensures var b := old(bs);
        var c := if i > 0 && b[i - 1].free && i + 1 == |b| then b[i - 1].start else b[i].start;
        nextStart == if |b| > 1 && !b[i].free && c < old(nextStart) then c else old(nextStart)
      ensures Valid() <==> old(bs)[i].free || !Strands(old(bs), i, old(nextStart))
    {
      fault := false;
      HeaderFacts(mem[..], bs, i);
      var mm := ptr - HDR;
      if Word(mm + 8) == 1 { return; }
      mm, fault := MergeAround(mm, Word(mm), GetNext(mm), i);
      FreeOutcome(old(mem[..]), mem[..], old(bs), bs, i, nextStart);
      if !fault && mm < nextStart { nextStart := mm; }
    }

    /** The case analysis of free: which neighbours exist and which are free. */
    method MergeAround(mm: int, prev: int, next: int, ghost i: nat) returns (compared: int, fault: bool)
      requires Spells() && i < |bs| && !bs[i].free && mm == bs[i].start
      requires prev == PrevOf(bs, i) && next == (if i + 1 < |bs| then bs[i + 1].start else 0)
      modifies this`bs, mem
      ensures fault <==> |old(bs)| == 1
      ensures Spells() && bs == Freed(old(bs), i) && compared == Compared(old(bs), i)
      ensures IsMerge(old(bs), bs, LoOf(old(bs), i), HiOf(old(bs), i))
      ensures SameBelow(old(mem[..]), mem[..], old(bs)[LoOf(old(bs), i)].start)
      ensures FreeBefore(old(bs), i) && i + 1 < |old(bs)| ==>
        InnerKept(old(mem[..]), mem[..], old(bs), i, HiOf(old(bs), i))
    {
      fault, compared := false, mm;
      ghost var b, m := bs, mem[..];
      if i > 0 { FlagFacts(m, bs, i - 1); }
      if i + 1 < |bs| { FlagFacts(m, bs, i + 1); }
      FlagFacts(m, bs, i);
      var head;
      if prev == 0 {
        compared, fault := TryMergeBack(mm);
      } else if next == 0 {
        compared := TryMergeFront(mm, i);
      } else if Word(prev + 8) != 0 && Word(next + 8) == 0 {
        head := MergeFront(mm, prev, i);
      } else if Word(prev + 8) == 0 && Word(next + 8) != 0 {
        head := MergeBack(mm, next, i);
      } else if Word(prev + 8) != 0 && Word(next + 8) != 0 {
        head := MergeBoth(mm, prev, next, i);
      } else {
        MarkFree(mm, i);
      }
      MergeIsFreed(b, bs, i);
    }

    method MarkFree(mm: int, ghost i: nat)
      requires Spells() && i < |bs| && mm == bs[i].start
      modifies this`bs, mem
      ensures Spells() && bs == old(bs)[i := Block(mm, true)]
      ensures SameBelow(old(mem[..]), mem[..], mm)
    {
      HeaderFacts(mem[..], bs, i);
      Put(mm + 8, 1);
      FlagWords(old(mem[..]), mem[..], bs, i, true);
      bs := bs[i := Block(mm, true)];
    }

    // ----- malloc -----

    /** The search loop of malloc.  Old headers met on the way say "not free", so the walk
        finds the first fitting block at or after next_start; if there is none, it settles
        for the block under next_start. */
    method Search(need: int) returns (good: int)
      requires Valid()
      ensures var j := Choice(bs, nextStart, need);
        good == if nextStart != 0 && j < |bs| then bs[j].start else nextStart
      ensures nextStart != 0 ==>
        forall k :: 0 <= k < |bs| && bs[k].start >= nextStart && bs[k].free && Size(bs, k) >= need ==>
          good <= bs[k].start
      ensures good != nextStart ==>
        && good > nextStart != 0
        && exists j :: 0 <= j < |bs| && bs[j].start == good && bs[j].free && Size(bs, j) >= need
    {
      hide Layout, NoAdjacentFree, RovingOk, Fits, WalkAt, Size;
      LayoutTiles(mem[..], bs);
      var next := nextStart;
      good := next;

      ghost var k: nat := From(bs, nextStart);
      if nextStart != 0 { WalkStarts(mem[..], bs, nextStart); }
      while next != 0
        invariant good == nextStart && k <= |bs|
        invariant if nextStart == 0 then next == 0 else WalkAt(mem[..], bs, next, k)
        invariant Choice(bs, nextStart, need) == FirstFit(bs, k, need)
        decreases if next == 0 then 0 else MEM_END - next
      {
        WalkSteps(mem[..], bs, next, k, need);
        if Word(next + 8) != 0 && Word(next + 4) >= need {
          good := next;
          break;
        }
        k := if k < |bs| && bs[k].start == next then k + 1 else k;
        next := GetNext(next);
      }
      if nextStart != 0 && next == 0 { WalkEnds(mem[..], bs, k); }
      ChoiceIs(bs, nextStart, need);
    }

    /** What the owner of block i may do: write a word of its payload.  The heap does not
        notice. */
    method Store(a: int, v: int, ghost i: nat)
      requires Valid() && i < |bs| && !bs[i].free
      requires bs[i].start + HDR <= a < End(bs, i)
      modifies mem
      ensures Valid() && mem[..] == Set(old(mem[..]), a, v)
    {
      StartsIncrease2(bs, i);
      Put(a, v);
      PayloadIsNoHeader(old(mem[..]), mem[..], bs, i, a, v, nextStart);
    }

    /** malloc once the search has settled: mark, shorten, cut off the remainder. */
    method Carve(good: int, need: int) returns (p: int)
      requires mem.Length == MEM_SIZE + HDR
      requires HDR <= need || need < -MEM_END
      requires MEMORY <= good && good + HDR <= MEM_END
      requires need <= Word(good + 4) && HDR <= Word(good + 4) && good + Word(good + 4) <= MEM_END
      modifies this`nextStart, mem
      ensures mem[..] == Carved(old(mem[..]), good, need)
      ensures p == good + HDR
      ensures HDR <= need ==>
        var total := old(Word(good + 4));
        var next := good + (if total - need > HDR then need else total);
        nextStart == if next >= MEM_END then 0 else next
    {
      hide Layout;
      p := good + HDR;
      if Word(good + 4) == need {
        Put(good + 8, 0);
        nextStart := GetNext(good);
        return;
      }
      CarveSome(good, need);
    }

    /** Lines 136-165: the block is larger than needed. */
    method CarveSome(good: int, need: int)
      requires mem.Length == MEM_SIZE + HDR
      requires HDR <= need || need < -MEM_END
      requires MEMORY <= good && good + HDR <= MEM_END
      requires need < Word(good + 4) && HDR <= Word(good + 4) && good + Word(good + 4) <= MEM_END
      modifies this`nextStart, mem
      ensures mem[..] == Carved(old(mem[..]), good, need)
      ensures HDR <= need ==>
        var total := old(Word(good + 4));
        var next := good + (if total - need > HDR then need else total);
        nextStart == if next >= MEM_END then 0 else next
    {
      hide Layout;
      var size := Word(good + 4);
      Put(good + 8, 0);
      Put(good + 4, need);
      var next := GetNext(good);
      if next != 0 {
        Put(next + 4, size - need);
        if Word(next + 4) <= HDR {
          Put(good + 4, size);
          nextStart := GetNext(good);
          return;
        }
        LinkRemainder(good, next);
      } else {
        nextStart := MEMORY;
      }
    }

    /** The remainder becomes a free block behind `good`. */
    method LinkRemainder(good: int, remainder: int)
      requires mem.Length == MEM_SIZE + HDR && MEMORY <= remainder
      requires HDR < Word(remainder + 4) && remainder + Word(remainder + 4) <= MEM_END
      modifies this`nextStart, mem
      ensures nextStart == remainder
      ensures var m3 := Set(Set(old(mem[..]), remainder, good), remainder + 8, 1);
        var behind := remainder + old(Word(remainder + 4));
        mem[..] == if behind < MEM_END then Set(m3, behind, remainder) else m3
    {
      var next := remainder;
      Put(next, good);
      Put(next + 8, 1);
      nextStart := next;
      var prev := next;
      next := GetNext(next);
      if next != 0 { Put(next, prev); }
    }


    /** malloc.  It faults exactly when next_start is null.  A safe call returns the first
        fitting free block at or after next_start, or null if there is none.  Every other
        call goes wrong: what it returns was not free, or the headers it leaves spell no
        partition in which that block has been taken, or it writes behind the pool. */
    method Malloc(size: int) returns (p: int, fault: bool)
      requires Valid() && 0 <= size <= INT_MAX
      modifies this, mem
      ensures fault <==> old(nextStart) == 0
      ensures fault ==> bs == old(bs) && mem[..] == old(mem[..]) && nextStart == 0
      ensures !fault ==>
        Outcome(old(mem[..]), mem[..], old(bs), bs, old(nextStart), nextStart, size, p)
      ensures !fault && size <= INT_MAX - 15 ==>
        var b := old(bs);
        forall k :: 0 <= k < |b| && b[k].start >= old(nextStart) && b[k].free && Size(b, k) >= size + 12 ==>
          p != 0 && p - 12 <= b[k].start
      ensures !fault && size <= INT_MAX - 15 && p != 0 && p - 12 != old(nextStart) ==>
        var b := old(bs);
        && p - 12 > old(nextStart)
        && exists j :: 0 <= j < |b| && b[j].start == p - 12 && b[j].free && Size(b, j) >= size + 12
      ensures !fault && MallocSafe(old(mem[..]), old(bs), old(nextStart), size) && p != 0 ==>
        var b := old(bs);
        && p - 12 >= old(nextStart)
        && exists j :: 0 <= j < |b| && b[j].start == p - 12 && TakenFrom(b, bs, j, (size + 15) / 4 * 4, nextStart)
    {
      ghost var s := nextStart;
      var need := SizeNeeded(size);
      var good := Search(need);
      fault, p := good == 0, 0;
      if nextStart != 0 { GoodIsAHeader(mem[..], bs, nextStart, need); }
      if fault || Word(good + 4) < need {
        if !fault { MallocMeans(mem[..], mem[..], bs, bs, s, s, size, p); }
        return;
      }
      p := Settle(good, size);
      MallocMeans(old(mem[..]), mem[..], old(bs), bs, s, nextStart, size, p);
    }

    /** malloc from line 126 on: the block under `good` is large enough. */
    method Settle(good: int, size: int) returns (p: int)
      requires Valid() && nextStart != 0 && 0 <= size <= INT_MAX
      requires var j := Choice(bs, nextStart, SizeNeeded(size));
        good == if j < |bs| then bs[j].start else nextStart
      requires Word(good + 4) >= SizeNeeded(size)
      modifies this, mem
      ensures Outcome(old(mem[..]), mem[..], old(bs), bs, old(nextStart), nextStart, size, p)
    {
      hide HeaderOk, Tiled, RovingOk, NoAdjacentFree, Outcome, SizeNeeded, FirstFit, From, Carved;
      var need := SizeNeeded(size);
      GoodIsAHeader(mem[..], bs, nextStart, need);
      SizeNeededBounds(size);
      p := Carve(good, need);
      bs := CarveOutcome(old(mem[..]), mem[..], bs, old(nextStart), nextStart, size, p);
    }
  }

  /** Everything a call of malloc that returns may do.  m, before and s are the words, the
      partition and next_start beforehand; m', after and s' those afterwards. */
  ghost predicate Outcome(m: seq<int>, m': seq<int>, before: seq<Block>, after: seq<Block>,
                          s: int, s': int, size: int, p: int)
  {
    if MallocSafe(m, before, s, size) then
      && Layout(m', after) && NoAdjacentFree(after) && RovingOk(m', after, s')
      && At(m', MEM_END) == At(m, MEM_END)
      && Answer(before, s, after, s', SizeNeeded(size), p)
    else
      var j := Choice(before, s, SizeNeeded(size));
      && p == (if j < |before| then before[j].start else s) + HDR
      && Botched(m, m', before, SizeNeeded(size), p)
  }

  lemma CarveOutcome(m: seq<int>, m': seq<int>, bs: seq<Block>, s: int, s': int, size: int, p: int)
    returns (after: seq<Block>)
    requires Layout(m, bs) && NoAdjacentFree(bs) && RovingOk(m, bs, s) && s != 0 && 0 <= size <= INT_MAX
    requires var j := Choice(bs, s, SizeNeeded(size));
      p == (if j < |bs| then bs[j].start else s) + HDR
    requires At(m, p - HDR + 4) >= SizeNeeded(size) && p > HDR
    requires m' == Carved(m, p - HDR, SizeNeeded(size))
    requires HDR <= SizeNeeded(size) ==>
      var need, good := SizeNeeded(size), p - HDR;
      var next := good + (if At(m, good + 4) - need > HDR then need else At(m, good + 4));
      s' == if next >= MEM_END then 0 else next
    ensures Outcome(m, m', bs, after, s, s', size, p)
  {
    hide Carved, Layout, Taken, RovingOk, NoAdjacentFree, SizeNeeded, FirstFit, From, Botched;
    if MallocSafe(m, bs, s, size) {
      var j := Choice(bs, s, SizeNeeded(size));
      HeaderFacts(m, bs, j);
      SizeNeededBounds(size);
      SafeMalloc(m, bs, s, size);
      after := Taken(bs, j, SizeNeeded(size));
    } else {
      UnsafeCarve(m, bs, s, size, p);
      after := bs;
    }
  }

  /** What a safe malloc does to the partition and to next_start. */
  ghost predicate Answer(before: seq<Block>, roving: int, after: seq<Block>, roving': int, need: int, p: int) {
    var j := Choice(before, roving, need);
    if j == |before| then p == 0 && after == before && roving' == roving
    else
      && p == before[j].start + HDR
      && after == Taken(before, j, need)
      && roving' == if j + 1 < |after| then after[j + 1].start else 0
  }

  /** Free block j is in use, or, if more than a header is left over, its first `need` bytes are, and
      next_start is at what comes behind. */
  ghost predicate TakenFrom(before: seq<Block>, after: seq<Block>, j: nat, need: int, s: int)
    requires j < |before|
  {
    var start := before[j].start;
    var end := if j + 1 < |before| then before[j + 1].start else MEMORY + 0x10_0000;
    var next := if end - start - need > 12 then start + need else end;
    && before[j].free && end - start >= need
    && after == before[..j] + [Block(start, false)]
         + (if next < end then [Block(next, true)] else []) + before[j + 1..]
    && s == if next == MEMORY + 0x10_0000 then 0 else next
  }

  /** The answer of malloc, over starts and sizes: no free block at or after next_start that is large
      enough comes before the one it returns, and it returns null only if there is none. */
  lemma MallocMeans(m: seq<int>, m': seq<int>, before: seq<Block>, after: seq<Block>,
                    s: int, s': int, size: int, p: int)
    requires Layout(m, before) && s != 0 && 0 <= size && Outcome(m, m', before, after, s, s', size, p)
    ensures size <= INT_MAX - 15 ==>
      forall k :: 0 <= k < |before| && before[k].start >= s && before[k].free && Size(before, k) >= size + 12 ==>
        p != 0 && p - 12 <= before[k].start
    ensures size <= INT_MAX - 15 && p != 0 && p - 12 != s ==>
      && p - 12 > s
      && exists j :: 0 <= j < |before| && before[j].start == p - 12 && before[j].free && Size(before, j) >= size + 12
    ensures MallocSafe(m, before, s, size) && p != 0 ==>
      && p - 12 >= s
      && exists j :: 0 <= j < |before| && before[j].start == p - 12
                     && TakenFrom(before, after, j, (size + 15) / 4 * 4, s')
  {
    if size <= INT_MAX - 15 {
      hide HeaderOk, RovingOk, NoAdjacentFree, Botched, Choice, SizeNeeded, Taken, TakenFrom, Layout;
      var need := SizeNeeded(size);
      var j := Choice(before, s, need);
      FirstFromRoving(before, s, size);
      if MallocSafe(m, before, s, size) && p != 0 { AnswerTakes(before, s, after, s', size, p); }
    }
  }

  lemma AnswerTakes(before: seq<Block>, s: int, after: seq<Block>, s': int, size: int, p: int)
    requires Tiled(before) && 0 <= size <= INT_MAX - 15 && p != 0 && Answer(before, s, after, s', SizeNeeded(size), p)
    ensures var j := Choice(before, s, SizeNeeded(size));
      j < |before| && before[j].start == p - 12 && TakenFrom(before, after, j, (size + 15) / 4 * 4, s')
  {
    NeedIs(size);
    hide SizeNeeded, From, FirstFit;
    var need := SizeNeeded(size);
    var j := Choice(before, s, need);
    StartsIncrease2(before, j);
    if j + 1 < |before| { StartsIncrease2(before, j + 1); }
  }

  lemma NeedIs(size: int)
    requires 0 <= size <= INT_MAX - 15
    ensures SizeNeeded(size) == (size + 15) / 4 * 4
  {}

  lemma ChoiceIs(bs: seq<Block>, s: int, need: int)
    requires Tiled(bs)
    ensures var j := Choice(bs, s, need);
      && (j < |bs| ==> bs[j].free && Size(bs, j) >= need && bs[j].start >= s)
      && (forall k :: 0 <= k < |bs| && bs[k].start >= s && bs[k].free && Size(bs, k) >= need ==>
            j < |bs| && bs[j].start <= bs[k].start)
  {
    hide From, FirstFit;
    var j, f := Choice(bs, s, need), From(bs, s);
    if j < |bs| && f < j { StartsIncrease(bs, f, j); }
    forall k | 0 <= k < |bs| && bs[k].start >= s && bs[k].free && Size(bs, k) >= need
      ensures j < |bs| && bs[j].start <= bs[k].start
    {
      assert Fits(bs, k, need);
      if j < k { StartsIncrease(bs, j, k); }
    }
  }

  /** Block k is the first from s on that is free and has `need` bytes. */
  ghost predicate FirstAt(bs: seq<Block>, s: int, need: int, k: nat) {
    && k < |bs| && bs[k].free && Size(bs, k) >= need && bs[k].start >= s
    && forall l :: 0 <= l < k && bs[l].start >= s && bs[l].free ==> Size(bs, l) < need
  }

  /** When a call is safe, over starts, sizes and the word behind next_start. */
  lemma SafeIs(m: seq<int>, bs: seq<Block>, s: int, size: int)
    requires Tiled(bs) && 0 <= size
    ensures var need := (size + 15) / 4 * 4;
      MallocSafe(m, bs, s, size) <==>
      && s != 0 && size <= INT_MAX - 15
      && (forall k :: FirstAt(bs, s, need, k) ==> Size(bs, k) - need != 4)
      && ((forall k :: !FirstAt(bs, s, need, k)) ==> At(m, s + 4) < need)
  {
    if size <= INT_MAX - 15 {
      NeedIs(size);
      hide SizeNeeded, From, FirstFit, FirstAt;
      var need := SizeNeeded(size);
      var j := Choice(bs, s, need);
      ChosenIsFirst(bs, s, need);
      if j < |bs| { assert FirstAt(bs, s, need, j); }
    }
  }

  lemma ChosenIsFirst(bs: seq<Block>, s: int, need: int)
    requires Tiled(bs)
    ensures forall k: nat :: FirstAt(bs, s, need, k) <==> k == Choice(bs, s, need) < |bs|
  {
    hide From, FirstFit;
    ChoiceIs(bs, s, need);
    var j := Choice(bs, s, need);
    forall k: nat ensures FirstAt(bs, s, need, k) <==> k == j < |bs| {
      if j < |bs| { EarlierTooSmall(bs, s, need, j); }
    }
  }

  lemma EarlierTooSmall(bs: seq<Block>, s: int, need: int, j: nat)
    requires Tiled(bs) && j == Choice(bs, s, need) < |bs|
    ensures forall l :: 0 <= l < j && bs[l].start >= s && bs[l].free ==> Size(bs, l) < need
  {
    ChoiceIs(bs, s, need);
    forall l | 0 <= l < j ensures bs[l].start < bs[j].start { StartsIncrease(bs, l, j); }
  }

  /** The choice for a request, over starts and sizes. */
  lemma FirstFromRoving(bs: seq<Block>, s: int, size: int)
    requires Tiled(bs) && 0 <= size <= INT_MAX - 15
    ensures var j := Choice(bs, s, SizeNeeded(size));
      && (j < |bs| ==> bs[j].free && Size(bs, j) >= size + 12 && bs[j].start >= s)
      && (forall k :: 0 <= k < |bs| && bs[k].start >= s && bs[k].free && Size(bs, k) >= size + 12 ==>
            j < |bs| && bs[j].start <= bs[k].start)
  {
    SizeNeededBounds(size);
    ChoiceIs(bs, s, SizeNeeded(size));
    hide Choice, SizeNeeded;
    forall k | 0 <= k < |bs| && Size(bs, k) >= size + 12 ensures Size(bs, k) >= SizeNeeded(size) {
      SizesAreWords(bs, k);
    }
  }

  lemma SizesAreWords(bs: seq<Block>, k: nat)
    requires Tiled(bs) && k < |bs|
    ensures Size(bs, k) % 4 == 0
  {}

  lemma GoodIsAHeader(m: seq<int>, bs: seq<Block>, s: int, need: int)
    requires Layout(m, bs) && RovingOk(m, bs, s) && s != 0
    ensures var j := Choice(bs, s, need);
      var good := if j < |bs| then bs[j].start else s;
      && MEMORY <= good && good + HDR <= MEM_END
      && HDR <= At(m, good + 4) && good + At(m, good + 4) <= MEM_END
      && (j < |bs| ==> At(m, good + 4) == Size(bs, j) >= need)
  {
    var j := Choice(bs, s, need);
    if j < |bs| { HeaderFacts(m, bs, j); }
    else { WalkStarts(m, bs, s); WalkSteps(m, bs, s, From(bs, s), need); }
  }

  lemma SafeCarve(m: seq<int>, bs: seq<Block>, j: nat, need: int)
    requires Layout(m, bs) && NoAdjacentFree(bs) && j < |bs| && Fits(bs, j, need)
    requires HDR <= need && need % 4 == 0 && !Overlaps(bs, j, need)
    ensures var m', r := Carved(m, bs[j].start, need), Taken(bs, j, need);
      && Layout(m', r) && NoAdjacentFree(r) && At(m', MEM_END) == At(m, MEM_END)
      && var next := bs[j].start + (if Splits(bs, j, need) then need else Size(bs, j));
         var roving := if next >= MEM_END then 0 else next;
         roving == (if j + 1 < |r| then r[j + 1].start else 0) && RovingOk(m', r, roving)
  {
    CarvedIsTaken(m, bs, j, need);
    TakenKeepsSound(bs, j, need);
    var r := Taken(bs, j, need);
    StartsIncrease2(bs, j);
    if j + 1 < |r| { StartsIncrease2(r, j + 1); assert IsHead(r, r[j + 1].start); }
  }

  lemma SafeMalloc(m: seq<int>, bs: seq<Block>, s: int, size: int)
    requires Layout(m, bs) && NoAdjacentFree(bs) && 0 <= size && MallocSafe(m, bs, s, size)
    requires Choice(bs, s, SizeNeeded(size)) < |bs|
    ensures var need := SizeNeeded(size);
      var j := Choice(bs, s, need);
      var m', r := Carved(m, bs[j].start, need), Taken(bs, j, need);
      var next := bs[j].start + (if Splits(bs, j, need) then need else Size(bs, j));
      var roving := if next >= MEM_END then 0 else next;
      && Layout(m', r) && NoAdjacentFree(r) && RovingOk(m', r, roving)
      && At(m', MEM_END) == At(m, MEM_END)
      && Answer(bs, s, r, roving, need, bs[j].start + HDR)
  {
    SizeNeededBounds(size);
    SafeCarve(m, bs, Choice(bs, s, SizeNeeded(size)), SizeNeeded(size));
  }

  /** The call has a remainder of four bytes at the end of the pool, whose size field is the word
      behind the pool. */
  predicate StoresBehind(m: seq<int>, good: int, need: int) {
    need >= 0 && At(m, good + 4) == need + 4 && good + need + 4 == MEM_END
  }

  /** No partition spelled by the headers is a proper answer, or the call has stored behind the
      pool. */
  ghost predicate Botched(m: seq<int>, m': seq<int>, before: seq<Block>, need: int, p: int) {
    || (forall b :: Layout(m', b) ==> !Served(before, b, p, need))
    || (StoresBehind(m, p - HDR, need) && At(m', MEM_END) == 4)
  }

  lemma NegativeSizeIsNoTiling(bs: seq<Block>, i: nat, need: int)
    requires Tiled(bs) && i < |bs| && need < 0
    ensures !Tiled(Taken(bs, i, need))
  {
    StartsIncrease2(bs, i);
    var r := Taken(bs, i, need);
    assert r[i].start + HDR > r[i + 1].start;
  }

  lemma UnsafeCarve(m: seq<int>, bs: seq<Block>, s: int, size: int, p: int)
    requires Layout(m, bs) && RovingOk(m, bs, s) && s != 0 && 0 <= size <= INT_MAX
    requires !MallocSafe(m, bs, s, size)
    requires var need := SizeNeeded(size);
      var j := Choice(bs, s, need);
      && p == (if j < |bs| then bs[j].start else s) + HDR
      && p > HDR && At(m, p - HDR + 4) >= need
    ensures Botched(m, Carved(m, p - HDR, SizeNeeded(size)), bs, SizeNeeded(size), p)
  {
    hide Carved, HeaderOk, SizeNeeded;
    var need := SizeNeeded(size);
    var j := Choice(bs, s, need);
    var m' := Carved(m, p - HDR, need);
    SizeNeededBounds(size);
    if StoresBehind(m, p - HDR, need) {
      CarvedBehind(m, p - HDR, need);
    } else {
      forall i | 0 <= i < |bs| && Fits(bs, i, need) && p == bs[i].start + HDR
        ensures !Layout(m', Taken(bs, i, need))
      {
        if need < 0 { NegativeSizeIsNoTiling(bs, i, need); }
        else { OnlyOverlapGoesWrong(m, bs, s, need, i); }
      }
    }
  }

  lemma CarvedBehind(m: seq<int>, good: int, need: int)
    requires |m| == MEM_SIZE + HDR && MEMORY <= good && HDR <= need && StoresBehind(m, good, need)
    ensures At(Carved(m, good, need), MEM_END) == 4
  {}

  /** If malloc settles on a fitting free block after all, that is its first choice, and what
      made the call unsafe is the four-byte remainder. */
  lemma OnlyOverlapGoesWrong(m: seq<int>, bs: seq<Block>, s: int, need: int, i: nat)
    requires Layout(m, bs) && HDR <= need && i < |bs| && Fits(bs, i, need)
    requires var j := Choice(bs, s, need);
      bs[i].start == (if j < |bs| then bs[j].start else s) && (j < |bs| ==> Overlaps(bs, j, need))
    requires !StoresBehind(m, bs[i].start, need)
    ensures !Layout(Carved(m, bs[i].start, need), Taken(bs, i, need))
  {
    hide Carved, Taken, Fits, FirstFit, From;
    var j := Choice(bs, s, need);
    FitIsChosen(bs, s, need, i);
    HeaderFacts(m, bs, j);
    CarvedOverlaps(m, bs, j, need);
  }

  lemma FitIsChosen(bs: seq<Block>, s: int, need: int, i: nat)
    requires Tiled(bs) && i < |bs| && Fits(bs, i, need)
    requires var j := Choice(bs, s, need); bs[i].start == if j < |bs| then bs[j].start else s
    ensures Choice(bs, s, need) == i
  {
    hide Fits, FirstFit, From;
    StartsIncrease2(bs, i);
    OnlyBlockAround(bs, i, bs[i].start);
  }

  function LoOf(bs: seq<Block>, i: nat): nat
    requires i < |bs|
  {
    if FreeBefore(bs, i) then i - 1 else i
  }

  function HiOf(bs: seq<Block>, i: nat): nat
    requires i < |bs|
  {
    if FreeAfter(bs, i) then i + 2 else i + 1
  }

  lemma MergeIsFreed(bs: seq<Block>, r: seq<Block>, i: nat)
    requires i < |bs| && IsMerge(bs, r, LoOf(bs, i), HiOf(bs, i))
    ensures r == Freed(bs, i)
  {}

  /** The block whose address free compares with next_start: the code forgets the head that
      merge_front and merge_both return, but not the one try_merge_front does. */
  function Compared(bs: seq<Block>, i: nat): int
    requires i < |bs|
  {
    if FreeBefore(bs, i) && i + 1 == |bs| then bs[i - 1].start else bs[i].start
  }

  lemma RovingAfterMerge(m: seq<int>, m': seq<int>, bs: seq<Block>, r: seq<Block>, i: nat, s: int)
    requires Layout(m, bs) && i < |bs| && !bs[i].free && RovingOk(m, bs, s)
    requires IsMerge(bs, r, LoOf(bs, i), HiOf(bs, i)) && Tiled(r)
    requires SameBelow(m, m', bs[LoOf(bs, i)].start)
    requires FreeBefore(bs, i) && i + 1 < |bs| ==> InnerKept(m, m', bs, i, HiOf(bs, i))
    ensures var c := Compared(bs, i);
      RovingOk(m', r, if c < s then c else s) <==> !Strands(bs, i, s)
  {
    var lo, hi, c := LoOf(bs, i), HiOf(bs, i), Compared(bs, i);
    if i > 0 { StartsIncrease(bs, i - 1, i); }
    if s <= bs[lo].start {
      RovingStays(m, m', bs, r, lo, hi, s);
    } else if c == bs[lo].start {
      assert r[lo].start == c;
    } else if FreeAfter(bs, i) {
      RovingStranded(m, m', bs, r, i, s);
    } else {
      RovingFallsThrough(m, m', bs, r, i, s);
    }
  }

  lemma FreeOutcome(m: seq<int>, m': seq<int>, bs: seq<Block>, r: seq<Block>, i: nat, s: int)
    requires Layout(m, bs) && NoAdjacentFree(bs) && i < |bs| && !bs[i].free && RovingOk(m, bs, s)
    requires r == Freed(bs, i) && IsMerge(bs, r, LoOf(bs, i), HiOf(bs, i)) && Tiled(r)
    requires SameBelow(m, m', bs[LoOf(bs, i)].start)
    requires FreeBefore(bs, i) && i + 1 < |bs| ==> InnerKept(m, m', bs, i, HiOf(bs, i))
    ensures NoAdjacentFree(r)
    ensures var c := Compared(bs, i);
      RovingOk(m', r, if c < s then c else s) <==> !Strands(bs, i, s)
    ensures |bs| == 1 ==> RovingOk(m', r, s)
  {
    FreedKeepsSound(bs, i);
    RovingAfterMerge(m, m', bs, r, i, s);
    if |bs| == 1 { LoneBlockRoving(m, m', bs, r, s); }
  }

  lemma LoneBlockRoving(m: seq<int>, m': seq<int>, bs: seq<Block>, r: seq<Block>, s: int)
    requires |bs| == |r| == 1 && r[0].start == bs[0].start && !bs[0].free && RovingOk(m, bs, s)
    ensures RovingOk(m', r, s)
  {}

  /** Reading block i's header gives the partition's own numbers. */
  lemma HeaderFacts(m: seq<int>, bs: seq<Block>, i: nat)
    requires Layout(m, bs) && i < |bs|
    ensures HeaderOk(m, bs, i)
    ensures MEMORY <= bs[i].start && bs[i].start + HDR <= End(bs, i) <= MEM_END
    ensures i + 1 < |bs| ==> bs[i + 1].start + HDR <= MEM_END
  {}

  lemma FlagFacts(m: seq<int>, bs: seq<Block>, i: nat)
    requires Layout(m, bs) && i < |bs|
    ensures At(m, bs[i].start + 8) == (if bs[i].free then 1 else 0)
    ensures MEMORY <= bs[i].start && bs[i].start + HDR <= MEM_END
  {
    HeaderFacts(m, bs, i);
  }

  lemma TwoSizes(m: seq<int>, bs: seq<Block>, i: nat)
    requires Layout(m, bs) && i + 1 < |bs|
    ensures var a, b, e := bs[i].start, bs[i + 1].start, End(bs, i + 1);
      && At(m, a + 4) == b - a && At(m, b + 4) == e - b && At(m, a + 8) == (if bs[i].free then 1 else 0)
      && MEMORY <= a && a + HDR <= b && b + HDR <= e <= MEM_END
  {
    HeaderFacts(m, bs, i);
    HeaderFacts(m, bs, i + 1);
  }

  /** Blocks i and i + 1 merged; m' may or may not have been told that i is free. */
  lemma TwoMerged(m: seq<int>, m': seq<int>, bs: seq<Block>, i: nat)
    requires Layout(m, bs) && i + 1 < |bs|
    requires var a, e := bs[i].start, End(bs, i + 1);
      var m1 := m[a + 4 - MEMORY := e - a];
      var m2 := if i + 2 < |bs| then m1[e - MEMORY := a] else m1;
      m' == m2[a + 8 - MEMORY := 1] || (bs[i].free && m' == m2)
    ensures MergeWords(m, m', bs, i, i + 2)
  {
    TwoSizes(m, bs, i);
  }

  lemma ThreeSizes(m: seq<int>, bs: seq<Block>, i: nat)
    requires Layout(m, bs) && 0 < i && i + 1 < |bs|
    ensures var prev, mm, next, e := bs[i - 1].start, bs[i].start, bs[i + 1].start, End(bs, i + 1);
      && At(m, prev + 4) == mm - prev && At(m, mm + 4) == next - mm && At(m, next + 4) == e - next
      && MEMORY <= prev && prev + HDR <= mm && mm + HDR <= next && next + HDR <= e <= MEM_END
  {
    HeaderFacts(m, bs, i - 1);
    HeaderFacts(m, bs, i);
    HeaderFacts(m, bs, i + 1);
  }

  lemma ThreeMerged(m: seq<int>, m': seq<int>, bs: seq<Block>, i: nat)
    requires Layout(m, bs) && 0 < i && i + 1 < |bs| && bs[i - 1].free
    requires var prev, e := bs[i - 1].start, End(bs, i + 1);
      var m1 := m[prev + 4 - MEMORY := e - prev];
      m' == if i + 2 < |bs| then m1[e - MEMORY := prev] else m1
    ensures MergeWords(m, m', bs, i - 1, i + 2)
  {
    ThreeSizes(m, bs, i);
    HeaderFacts(m, bs, i - 1);
  }

  // ----- the walk of malloc -----

  /** The walk is at block k, at an old header inside free block k - 1, or past the last. */
  ghost predicate WalkAt(m: seq<int>, bs: seq<Block>, s: int, k: nat) {
    || (s == 0 && k == |bs|)
    || (k < |bs| && bs[k].start == s)
    || (0 < k <= |bs| && StaleIn(m, bs, k - 1, s))
  }

  lemma LayoutTiles(m: seq<int>, bs: seq<Block>)
    requires Layout(m, bs)
    ensures Tiled(bs)
  {}

  lemma WalkEnds(m: seq<int>, bs: seq<Block>, k: nat)
    requires Layout(m, bs) && WalkAt(m, bs, 0, k)
    ensures k == |bs|
  {
    if k < |bs| { StartsIncrease2(bs, k); }
    if k > 0 { StartsIncrease2(bs, k - 1); }
  }

  lemma WalkStarts(m: seq<int>, bs: seq<Block>, s: int)
    requires Tiled(bs) && RovingOk(m, bs, s) && s != 0
    ensures WalkAt(m, bs, s, From(bs, s))
  {}

  lemma WalkSteps(m: seq<int>, bs: seq<Block>, s: int, k: nat, need: int)
    requires Layout(m, bs) && WalkAt(m, bs, s, k) && s != 0
    ensures MEMORY <= s && s + HDR <= MEM_END && At(m, s + 4) >= HDR
    ensures var next := s + At(m, s + 4);
      var k' := if k < |bs| && bs[k].start == s then k + 1 else k;
      && k' <= |bs| && 0 <= next <= MEM_END
      && WalkAt(m, bs, if next >= MEM_END then 0 else next, k')
    ensures At(m, s + 8) != 0 && At(m, s + 4) >= need <==> k < |bs| && bs[k].start == s && Fits(bs, k, need)
  {
    if k < |bs| && bs[k].start == s {
      HeaderFacts(m, bs, k);
    } else {
      StartsIncrease2(bs, k - 1);
      SkipsBound(m, End(bs, k - 1), s + At(m, s + 4));
      if s + At(m, s + 4) < End(bs, k - 1) { assert StaleIn(m, bs, k - 1, s + At(m, s + 4)); }
    }
  }

  lemma PayloadIsNoHeader(m: seq<int>, m': seq<int>, bs: seq<Block>, i: nat, a: int, v: int, s: int)
    requires Layout(m, bs) && i < |bs| && !bs[i].free && RovingOk(m, bs, s)
    requires bs[i].start + HDR <= a < End(bs, i) && m' == Set(m, a, v)
    ensures Layout(m', bs) && RovingOk(m', bs, s)
  {
    StartsIncrease2(bs, i);
    forall k | 0 <= k < |bs| ensures SameHeader(m, m', bs[k].start) {
      if k < i { StartsIncrease(bs, k, i); } else if i < k { StartsIncrease(bs, i, k); }
    }
    LayoutFrame(m, m', bs);
    if s != 0 && !IsHead(bs, s) {
      var k :| 0 <= k < |bs| && StaleIn(m, bs, k, s);
      if k < i { StartsIncrease(bs, k, i); } else { StartsIncrease(bs, i, k); }
      SkipsFrame(m, m', End(bs, k), s);
      assert StaleIn(m', bs, k, s);
    }
  }

  // ----- runs of the code that go wrong -----

  const A := MEMORY
  const B := MEMORY + 112
  const C := B + 0xF000C
  const OneTaken: seq<Block> := [Block(A, false), Block(B, true)]
  const TwoTaken: seq<Block> := [Block(A, false), Block(B, false), Block(C, true)]
  const FirstBack: seq<Block> := [Block(A, true), Block(B, false), Block(C, true)]

  lemma TwiceSteps()
    ensures SizeNeeded(100) == 112 && SizeNeeded(0xF0000) == 0xF000C && SizeNeeded(0x20000) == 0x2000C
    ensures Choice(Initial, A, 112) == 0 && Taken(Initial, 0, 112) == OneTaken
    ensures Choice(OneTaken, B, 0xF000C) == 1 && Taken(OneTaken, 1, 0xF000C) == TwoTaken
    ensures Freed(TwoTaken, 0) == FirstBack && !Strands(TwoTaken, 0, C)
    ensures Choice(FirstBack, A, 112) == 0 && Taken(FirstBack, 0, 112) == TwoTaken
  {
    assert From(OneTaken, B) == 1 && Fits(OneTaken, 1, 0xF000C);
  }

  lemma TwiceLastStep()
    ensures Choice(TwoTaken, B, 0x2000C) == |TwoTaken|
  {}

  /** After an exact fit next_start can stand at a block in use.  If nothing behind it fits,
      malloc hands out that block again: b is returned twice, and never freed in between. */
  method BlockGivenTwice() returns (b: int, again: int)
    ensures b == again && b != 0
  {
    TwiceSteps();
    TwiceLastStep();
    hide TakenFrom, Layout, RovingOk, NoAdjacentFree;
    var h := new Allocator();
    var fault;
    var a, d;
    a, fault := h.Malloc(100);
    assert h.bs == OneTaken && h.nextStart == B;
    b, fault := h.Malloc(0xF0000);
    assert h.bs == TwoTaken && h.nextStart == C;
    fault := h.Free(a, 0);
    assert h.bs == FirstBack && h.nextStart == A;
    d, fault := h.Malloc(100);
    assert h.bs == TwoTaken && h.nextStart == B;
    HeaderFacts(h.mem[..], h.bs, 1);
    again, fault := h.Malloc(0x20000);
  }

  lemma WholePoolStep()
    ensures SizeNeeded(MEM_SIZE - HDR) == MEM_SIZE && Choice(Initial, MEMORY, MEM_SIZE) == 0
    ensures Taken(Initial, 0, MEM_SIZE) == [Block(MEMORY, false)]
    ensures Size(Initial, 0) == MEM_SIZE
  {}

  /** Once the whole pool is one allocation, both malloc and free follow a null pointer. */
  method WholePoolFaults() returns (mallocFaults: bool, freeFaults: bool)
    ensures mallocFaults && freeFaults
  {
    hide Layout, RovingOk, NoAdjacentFree, FirstFit, From, Taken, SizeNeeded, Botched;
    WholePoolStep();
    var h := new Allocator();
    var p, fault := h.Malloc(MEM_SIZE - HDR);
    assert h.bs == [Block(MEMORY, false)] && h.nextStart == 0;
    var q;
    q, mallocFaults := h.Malloc(1);
    freeFaults := h.Free(p, 0);
  }
}
