/** The partition of the kernel heap into blocks, and what malloc and free do to it.

    A partition is a sequence of blocks in address order; the size of a block is the
    distance to the next one.  This module knows nothing of headers in memory: HeapPool
    ties it to the words that mm/malloc.c reads and writes.
*/
module HeapBlocks {
  const MEMORY := 0x800000
  const MEM_SIZE := 0x100000
  const MEM_END := MEMORY + MEM_SIZE
  /** sizeof(struct mem_struct): prev, size and free, four bytes each. */
  const HDR := 12

  datatype Block = Block(start: int, free: bool)

  function End(bs: seq<Block>, i: nat): int
    requires i < |bs|
  {
    if i + 1 < |bs| then bs[i + 1].start else MEM_END
  }

  function Size(bs: seq<Block>, i: nat): int
    requires i < |bs|
  {
    End(bs, i) - bs[i].start
  }

  /** The blocks tile the pool: they start at its first byte, each ends where the next
      starts, the last ends with the pool, and every one can hold its own header. */
  ghost predicate Tiled(bs: seq<Block>) {
    && |bs| > 0
    && bs[0].start == MEMORY
    && (forall i :: 0 <= i < |bs| ==> bs[i].start % 4 == 0 && bs[i].start + HDR <= MEM_END)
    && (forall i, j :: 0 <= i < j < |bs| ==> bs[i].start + HDR <= bs[j].start)
  }

  predicate BothFree(bs: seq<Block>, i: nat)
    requires i + 1 < |bs|
  {
    bs[i].free && bs[i + 1].free
  }

  ghost predicate NoAdjacentFree(bs: seq<Block>) {
    forall i :: 0 <= i < |bs| - 1 ==> !BothFree(bs, i)
  }

  /** What every call of malloc and free keeps. */
  ghost predicate Sound(bs: seq<Block>) {
    Tiled(bs) && NoAdjacentFree(bs)
  }

  const Initial: seq<Block> := [Block(MEMORY, true)]

  // ----- malloc -----

  predicate Fits(bs: seq<Block>, i: nat, need: int)
    requires i < |bs|
  {
    bs[i].free && Size(bs, i) >= need
  }

  /** The first free block at or after `from` with at least `need` bytes, or |bs|. */
  function FirstFit(bs: seq<Block>, from: nat, need: int): (j: nat)
    requires from <= |bs|
    ensures from <= j <= |bs|
    ensures j < |bs| ==> Fits(bs, j, need)
    ensures forall k :: from <= k < j ==> !Fits(bs, k, need)
    decreases |bs| - from
  {
    if from == |bs| || Fits(bs, from, need) then from else FirstFit(bs, from + 1, need)
  }

  /** A remainder is cut off only if it can hold a header and at least one byte. */
  predicate Splits(bs: seq<Block>, j: nat, need: int)
    requires j < |bs|
  {
    Size(bs, j) - need > HDR
  }

  /** A remainder of exactly four bytes: the code would store its size field over the
      next block's prev field. */
  predicate Overlaps(bs: seq<Block>, j: nat, need: int)
    requires j < |bs|
  {
    Size(bs, j) - need == 4
  }

  function Taken(bs: seq<Block>, j: nat, need: int): seq<Block>
    requires j < |bs|
  {
    if Splits(bs, j, need)
    then bs[..j] + [Block(bs[j].start, false), Block(bs[j].start + need, true)] + bs[j + 1..]
    else bs[j := Block(bs[j].start, false)]
  }

  // ----- free -----

  predicate FreeBefore(bs: seq<Block>, i: nat) requires i < |bs| {
    i > 0 && bs[i - 1].free
  }

  predicate FreeAfter(bs: seq<Block>, i: nat) requires i < |bs| {
    i + 1 < |bs| && bs[i + 1].free
  }

  function Freed(bs: seq<Block>, i: nat): seq<Block>
    requires i < |bs|
  {
    var lo := if FreeBefore(bs, i) then i - 1 else i;
    var hi := if FreeAfter(bs, i) then i + 2 else i + 1;
    bs[..lo] + [Block(bs[lo].start, true)] + bs[hi..]
  }

  /** The canonical form of a partition: every maximal run of free blocks is one block. */
  function Coalesce(bs: seq<Block>): seq<Block>
    decreases |bs|
  {
    if |bs| <= 1 then bs
    else if bs[0].free && bs[1].free then Coalesce([bs[0]] + bs[2..])
    else [bs[0]] + Coalesce(bs[1..])
  }

  // ----- invariants -----

  lemma InitialIsSound()
    ensures Sound(Initial)
  {}

  /** Cutting block j in two at `cut` leaves a tiling. */
  lemma CutKeepsTiled(bs: seq<Block>, j: nat, cut: int, r: seq<Block>)
    requires Tiled(bs) && j < |bs| && cut % 4 == 0
    requires bs[j].start + HDR <= cut && cut + HDR <= End(bs, j)
    requires |r| == |bs| + 1 && r[j + 1].start == cut
    requires forall k :: 0 <= k <= j ==> r[k].start == bs[k].start
    requires forall k :: j + 1 < k < |r| ==> r[k].start == bs[k - 1].start
    ensures Tiled(r)
  {
    forall k, l | 0 <= k < l < |r| ensures r[k].start + HDR <= r[l].start {
      if k == j + 1 {
        assert bs[j + 1].start <= bs[l - 1].start by {
          if l - 1 > j + 1 { assert bs[j + 1].start + HDR <= bs[l - 1].start; }
        }
      } else if l == j + 1 {
        assert bs[k].start <= bs[j].start;
      } else {
        var k', l' := if k <= j then k else k - 1, if l <= j then l else l - 1;
        assert bs[k'].start + HDR <= bs[l'].start;
      }
    }
  }

  lemma TakenKeepsSound(bs: seq<Block>, j: nat, need: int)
    requires Sound(bs) && j < |bs| && Fits(bs, j, need)
    requires need >= HDR && need % 4 == 0
    ensures Sound(Taken(bs, j, need))
  {
    var r := Taken(bs, j, need);
    if Splits(bs, j, need) {
      CutKeepsTiled(bs, j, bs[j].start + need, r);
      TakenKeepsNoAdjacentFree(bs, j, need);
    } else {
      forall k | 0 <= k < |r| - 1 ensures !BothFree(r, k) { assert !BothFree(bs, k); }
    }
  }

  lemma TakenKeepsNoAdjacentFree(bs: seq<Block>, j: nat, need: int)
    requires NoAdjacentFree(bs) && j < |bs| && bs[j].free && Splits(bs, j, need)
    ensures NoAdjacentFree(Taken(bs, j, need))
  {
    var r := Taken(bs, j, need);
    forall k | 0 <= k < |r| - 1 ensures !BothFree(r, k) {
      if k < j {
        assert !BothFree(bs, k) && r[k] == bs[k];
        if k + 1 < j { assert r[k + 1] == bs[k + 1]; }
      } else if k > j {
        assert !BothFree(bs, k - 1);
        assert r[k + 1] == bs[k];
        if k > j + 1 { assert r[k] == bs[k - 1]; }
      }
    }
  }

  /** Replacing the blocks lo..hi by one free block that starts where the first of them did. */
  lemma MergedKeepsTiled(bs: seq<Block>, lo: nat, hi: nat, free: bool)
    requires Tiled(bs) && lo < hi <= |bs|
    ensures Tiled(bs[..lo] + [Block(bs[lo].start, free)] + bs[hi..])
  {
    var r := bs[..lo] + [Block(bs[lo].start, free)] + bs[hi..];
    forall k | 0 <= k < |r| ensures r[k].start == bs[if k <= lo then k else k - lo - 1 + hi].start {}
  }

  lemma MergedKeepsNoAdjacentFree(bs: seq<Block>, lo: nat, hi: nat)
    requires NoAdjacentFree(bs) && lo < hi <= |bs|
    requires lo == 0 || !bs[lo - 1].free
    requires hi == |bs| || !bs[hi].free
    ensures NoAdjacentFree(bs[..lo] + [Block(bs[lo].start, true)] + bs[hi..])
  {
    var r := bs[..lo] + [Block(bs[lo].start, true)] + bs[hi..];
    forall k | 0 <= k < |r| - 1 ensures !BothFree(r, k) {
      if k < lo - 1 { assert !BothFree(bs, k); }
      else if k > lo {
        var k' := k - lo - 1 + hi;
        assert !BothFree(bs, k') && r[k] == bs[k'] && r[k + 1] == bs[k' + 1];
      }
    }
  }

  lemma FreedKeepsSound(bs: seq<Block>, i: nat)
    requires Sound(bs) && i < |bs| && !bs[i].free
    ensures Sound(Freed(bs, i))
  {
    var lo := if FreeBefore(bs, i) then i - 1 else i;
    var hi := if FreeAfter(bs, i) then i + 2 else i + 1;
    MergedKeepsTiled(bs, lo, hi, true);
    assert i > 1 ==> !BothFree(bs, i - 2);
    assert i + 2 < |bs| ==> !BothFree(bs, i + 1);
    MergedKeepsNoAdjacentFree(bs, lo, hi);
  }

  // ----- what an allocation means to its owner -----

  datatype Extent = Extent(from: int, to: int)

  function Ext(bs: seq<Block>, i: nat): Extent
    requires i < |bs|
  {
    Extent(bs[i].start, End(bs, i))
  }

  /** One of the blocks lo..hi is allocated and covers e. */
  ghost predicate LiveIn(bs: seq<Block>, lo: nat, hi: nat, e: Extent)
    requires hi <= |bs|
  {
    exists i :: lo <= i < hi && !bs[i].free && Ext(bs, i) == e
  }

  ghost predicate IsLive(bs: seq<Block>, e: Extent) {
    LiveIn(bs, 0, |bs|, e)
  }

  lemma StartsIncrease(bs: seq<Block>, i: nat, j: nat)
    requires Tiled(bs) && i < j < |bs|
    ensures bs[i].start + HDR <= End(bs, i) <= bs[j].start
  {}

  /** Live blocks lie in the pool, start 4-byte aligned and never overlap, so no payload
      touches another payload or any header. */
  lemma LiveBlocksAreDisjoint(bs: seq<Block>, d: Extent, e: Extent)
    requires Sound(bs) && IsLive(bs, d) && IsLive(bs, e)
    ensures MEMORY <= d.from && d.from + HDR <= d.to <= MEM_END && d.from % 4 == 0
    ensures d == e || d.to <= e.from || e.to <= d.from
  {}

  /** r is bs with the blocks lo..hi replaced by n others. */
  ghost predicate Spliced(bs: seq<Block>, r: seq<Block>, lo: nat, hi: nat, n: nat) {
    && lo <= hi <= |bs| && |r| == |bs| - (hi - lo) + n
    && (forall k :: 0 <= k < lo ==> r[k].free == bs[k].free && Ext(r, k) == Ext(bs, k))
    && (forall k :: lo + n <= k < |r| ==>
          r[k].free == bs[k - n - lo + hi].free && Ext(r, k) == Ext(bs, k - n - lo + hi))
  }

  lemma SpliceKeepsTheRest(bs: seq<Block>, r: seq<Block>, lo: nat, hi: nat, n: nat, e: Extent)
    requires Spliced(bs, r, lo, hi, n)
    ensures LiveIn(r, 0, lo, e) <==> LiveIn(bs, 0, lo, e)
    ensures LiveIn(r, lo + n, |r|, e) <==> LiveIn(bs, hi, |bs|, e)
  {
    if LiveIn(bs, 0, lo, e) {
      var k :| 0 <= k < lo && !bs[k].free && Ext(bs, k) == e;
      assert Ext(r, k) == e;
    }
    if LiveIn(bs, hi, |bs|, e) {
      var k :| hi <= k < |bs| && !bs[k].free && Ext(bs, k) == e;
      assert Ext(r, k - hi + lo + n) == e;
    }
  }

  lemma LiveSplits(bs: seq<Block>, lo: nat, hi: nat, e: Extent)
    requires lo <= hi <= |bs|
    ensures IsLive(bs, e) <==> LiveIn(bs, 0, lo, e) || LiveIn(bs, lo, hi, e) || LiveIn(bs, hi, |bs|, e)
  {}

  lemma TakenIsSplice(bs: seq<Block>, j: nat, need: int)
    requires j < |bs|
    ensures var n := if Splits(bs, j, need) then 2 else 1;
      Spliced(bs, Taken(bs, j, need), j, j + 1, n)
  {
    var r := Taken(bs, j, need);
    var n := if Splits(bs, j, need) then 2 else 1;
    forall k | 0 <= k < j ensures r[k].free == bs[k].free && Ext(r, k) == Ext(bs, k) {
      assert r[k] == bs[k] && r[k + 1].start == bs[k + 1].start;
    }
    forall k | j + n <= k < |r| ensures r[k] == bs[k - n + 1] && Ext(r, k) == Ext(bs, k - n + 1) {}
  }

  /** malloc adds exactly one live extent, at least as large as asked for, and changes none. */
  lemma TakenAddsOneExtent(bs: seq<Block>, j: nat, need: int, e: Extent)
    requires Sound(bs) && j < |bs| && Fits(bs, j, need) && need >= HDR
    ensures var mine := Ext(Taken(bs, j, need), j);
      && mine.from == bs[j].start && need <= mine.to - mine.from <= need + HDR
      && !IsLive(bs, mine)
      && (IsLive(Taken(bs, j, need), e) <==> IsLive(bs, e) || e == mine)
  {
    var r := Taken(bs, j, need);
    var n := if Splits(bs, j, need) then 2 else 1;
    var mine := Ext(r, j);
    TakenIsSplice(bs, j, need);
    SpliceKeepsTheRest(bs, r, j, j + 1, n, e);
    LiveSplits(bs, j, j + 1, e);
    LiveSplits(r, j, j + n, e);
    assert LiveIn(r, j, j + n, e) <==> e == mine by { assert !r[j].free && Ext(r, j) == mine; }
    FreeIsNotLive(bs, j, mine);
  }

  lemma FreeIsNotLive(bs: seq<Block>, j: nat, e: Extent)
    requires Tiled(bs) && j < |bs| && bs[j].free && e.from == bs[j].start
    ensures !IsLive(bs, e)
  {}

  /** One block in the place of blocks lo..hi, starting where they did. */
  lemma OneForMany(bs: seq<Block>, lo: nat, hi: nat, b: Block, r: seq<Block>)
    requires lo < hi <= |bs| && b.start == bs[lo].start && r == bs[..lo] + [b] + bs[hi..]
    ensures Spliced(bs, r, lo, hi, 1)
  {
    forall k | lo < k < |r| ensures r[k] == bs[k - 1 - lo + hi] {}
    forall k | 0 <= k < lo ensures Ext(r, k) == Ext(bs, k) {
      assert r[k + 1].start == bs[k + 1].start;
    }
  }

  lemma FreedIsSplice(bs: seq<Block>, i: nat)
    requires i < |bs|
    ensures var lo := if FreeBefore(bs, i) then i - 1 else i;
      var hi := if FreeAfter(bs, i) then i + 2 else i + 1;
      Spliced(bs, Freed(bs, i), lo, hi, 1) && Freed(bs, i)[lo].free
  {
    hide Spliced;
    var lo := if FreeBefore(bs, i) then i - 1 else i;
    var hi := if FreeAfter(bs, i) then i + 2 else i + 1;
    OneForMany(bs, lo, hi, Block(bs[lo].start, true), Freed(bs, i));
  }

  /** free removes exactly the freed extent. */
  lemma FreedRemovesOneExtent(bs: seq<Block>, i: nat, e: Extent)
    requires Sound(bs) && i < |bs| && !bs[i].free
    ensures IsLive(Freed(bs, i), e) <==> IsLive(bs, e) && e != Ext(bs, i)
  {
    var lo := if FreeBefore(bs, i) then i - 1 else i;
    var hi := if FreeAfter(bs, i) then i + 2 else i + 1;
    var r := Freed(bs, i);
    FreedIsSplice(bs, i);
    SpliceKeepsTheRest(bs, r, lo, hi, 1, e);
    LiveSplits(r, lo, lo + 1, e);
    OnlyLiveOne(bs, i, lo, hi, e);
  }

  lemma OnlyLiveOne(bs: seq<Block>, i: nat, lo: nat, hi: nat, e: Extent)
    requires Tiled(bs) && lo <= i < hi <= |bs| && !bs[i].free
    requires forall k :: lo <= k < hi && k != i ==> bs[k].free
    ensures IsLive(bs, e) && e != Ext(bs, i) <==> LiveIn(bs, 0, lo, e) || LiveIn(bs, hi, |bs|, e)
  {}

  // ----- free undoes malloc -----

  /** Freeing what malloc just returned gives back the partition there was before, whether
      the fit was exact, was split, or swallowed a remainder too small for a header. */
  lemma FreedUndoesTaken(bs: seq<Block>, j: nat, need: int)
    requires Sound(bs) && j < |bs| && Fits(bs, j, need)
    ensures Freed(Taken(bs, j, need), j) == bs
  {
    var r := Taken(bs, j, need);
    assert j > 0 ==> !BothFree(bs, j - 1);
    assert j + 1 < |bs| ==> !BothFree(bs, j);
    assert bs == bs[..j] + [bs[j]] + bs[j + 1..];
    if Splits(bs, j, need) {
      assert FreeAfter(r, j) && !FreeBefore(r, j);
      assert r[j + 2..] == bs[j + 1..] && r[..j] == bs[..j];
    } else {
      assert !FreeAfter(r, j) && !FreeBefore(r, j);
    }
  }

  // ----- free as marking plus normalising -----

  lemma TailHasNoAdjacentFree(bs: seq<Block>, n: nat)
    requires NoAdjacentFree(bs) && n <= |bs|
    ensures NoAdjacentFree(bs[n..])
  {
    var t := bs[n..];
    forall k | 0 <= k < |t| - 1 ensures !BothFree(t, k) { assert !BothFree(bs, k + n); }
  }

  lemma {:induction false} CoalesceIsIdentityOnSound(bs: seq<Block>)
    requires NoAdjacentFree(bs)
    ensures Coalesce(bs) == bs
    decreases |bs|
  {
    if |bs| > 1 {
      assert !BothFree(bs, 0);
      TailHasNoAdjacentFree(bs, 1);
      CoalesceIsIdentityOnSound(bs[1..]);
    }
  }

  /** A free block followed by a normalised rest swallows at most one free neighbour. */
  lemma CoalesceHead(h: Block, rest: seq<Block>)
    requires h.free && NoAdjacentFree(rest)
    ensures Coalesce([h] + rest) == [h] + (if |rest| > 0 && rest[0].free then rest[1..] else rest)
  {
    var tail := if |rest| > 0 && rest[0].free then rest[1..] else rest;
    var s := [h] + tail;
    assert |rest| > 1 ==> !BothFree(rest, 0);
    TailHasNoAdjacentFree(rest, |rest| - |tail|);
    assert tail == rest[|rest| - |tail|..];
    forall k | 0 <= k < |s| - 1 ensures !BothFree(s, k) {
      if k > 0 { assert !BothFree(tail, k - 1); }
    }
    CoalesceIsIdentityOnSound(s);
    if |rest| > 0 && rest[0].free { assert ([h] + rest)[2..] == tail; }
  }

  /** The five branches of free together compute the canonical form of the partition in
      which the block is merely marked free. */
  lemma {:induction false} FreedIsCoalescing(bs: seq<Block>, i: nat)
    requires NoAdjacentFree(bs) && i < |bs| && !bs[i].free
    ensures Freed(bs, i) == Coalesce(bs[i := Block(bs[i].start, true)])
    decreases i
  {
    var marked := bs[i := Block(bs[i].start, true)];
    if i == 0 {
      TailHasNoAdjacentFree(bs, 1);
      CoalesceHead(marked[0], bs[1..]);
      assert marked == [marked[0]] + bs[1..];
      if FreeAfter(bs, 0) { assert bs[1..][1..] == bs[2..]; }
    } else if i == 1 && bs[0].free {
      FreedSecond(bs);
    } else {
      var t := bs[1..];
      TailHasNoAdjacentFree(bs, 1);
      assert !BothFree(bs, 0);
      assert marked[1..] == t[i - 1 := Block(t[i - 1].start, true)];
      FreedIsCoalescing(t, i - 1);
      FreedTail(bs, i);
    }
  }

  lemma FreedSecond(bs: seq<Block>)
    requires NoAdjacentFree(bs) && |bs| > 1 && bs[0].free && !bs[1].free
    ensures Freed(bs, 1) == Coalesce(bs[1 := Block(bs[1].start, true)])
  {
    var marked := bs[1 := Block(bs[1].start, true)];
    var rest := bs[2..];
    assert marked[2..] == rest;
    TailHasNoAdjacentFree(bs, 2);
    CoalesceHead(bs[0], rest);
    assert Coalesce(marked) == Coalesce([bs[0]] + rest);
    assert bs[0] == Block(bs[0].start, true);
    if FreeAfter(bs, 1) { assert rest[1..] == bs[3..]; }
  }

  lemma FreedTail(bs: seq<Block>, i: nat)
    requires 0 < i < |bs| && (i == 1 ==> !bs[0].free)
    ensures Freed(bs, i) == [bs[0]] + Freed(bs[1..], i - 1)
  {
    var t := bs[1..];
    assert FreeBefore(t, i - 1) == FreeBefore(bs, i);
    assert FreeAfter(t, i - 1) == FreeAfter(bs, i);
    var lo := if FreeBefore(bs, i) then i - 1 else i;
    var hi := if FreeAfter(bs, i) then i + 2 else i + 1;
    assert bs[..lo] == [bs[0]] + t[..lo - 1] && bs[hi..] == t[hi - 1..];
  }

  // ----- whole runs -----

  /** One successful call: malloc takes some fitting free block (which one depends on the
      roving pointer) that leaves no remainder of four bytes, free returns some live one. */
  datatype Call = Take(j: nat, need: int) | Release(i: nat)

  ghost predicate Allowed(bs: seq<Block>, c: Call) {
    match c
    case Take(j, need) =>
      j < |bs| && HDR <= need && need % 4 == 0 && Fits(bs, j, need) && !Overlaps(bs, j, need)
    case Release(i) => i < |bs| && !bs[i].free
  }

  function After(bs: seq<Block>, c: Call): seq<Block>
    requires match c case Take(j, _) => j < |bs| case Release(i) => i < |bs|
  {
    match c
    case Take(j, need) => Taken(bs, j, need)
    case Release(i) => Freed(bs, i)
  }

  /** The partitions a run passes through, one per call and the first one malloc_init's. */
  ghost predicate IsRun(calls: seq<Call>, states: seq<seq<Block>>) {
    && |states| == |calls| + 1
    && states[0] == Initial
    && forall k :: 0 <= k < |calls| ==>
         Allowed(states[k], calls[k]) && states[k + 1] == After(states[k], calls[k])
  }

  function TotalSize(bs: seq<Block>, upTo: nat): int
    requires upTo <= |bs|
  {
    if upTo == 0 then 0 else TotalSize(bs, upTo - 1) + Size(bs, upTo - 1)
  }

  lemma {:induction false} SizesTelescope(bs: seq<Block>, upTo: nat)
    requires Tiled(bs) && upTo <= |bs|
    ensures TotalSize(bs, upTo) == (if upTo == |bs| then MEM_END else bs[upTo].start) - MEMORY
  {
    if upTo > 0 { SizesTelescope(bs, upTo - 1); }
  }

  /** Every partition a run from malloc_init can reach tiles the pool with aligned blocks
      whose sizes add up to the whole pool, and never has two neighbouring free blocks. */
  lemma {:induction false} EveryRunIsSound(calls: seq<Call>, states: seq<seq<Block>>, k: nat)
    requires IsRun(calls, states) && k <= |calls|
    ensures Sound(states[k]) && TotalSize(states[k], |states[k]|) == MEM_SIZE
  {
    if k > 0 {
      EveryRunIsSound(calls, states, k - 1);
      var c := calls[k - 1];
      assert Allowed(states[k - 1], c);
      match c {
        case Take(j, need) => TakenKeepsSound(states[k - 1], j, need);
        case Release(i) => FreedKeepsSound(states[k - 1], i);
      }
    }
    SizesTelescope(states[k], |states[k]|);
  }

  /** Nothing is lost: a run that has freed all it allocated, in whatever order, is back at
      the single block that malloc_init made. */
  lemma AllFreedIsInitial(calls: seq<Call>, states: seq<seq<Block>>)
    requires IsRun(calls, states)
    requires forall e :: !IsLive(states[|calls|], e)
    ensures states[|calls|] == Initial
  {
    var bs := states[|calls|];
    EveryRunIsSound(calls, states, |calls|);
    assert |bs| > 1 ==> !BothFree(bs, 0);
    forall i | 0 <= i < |bs| ensures bs[i].free {
      assert !IsLive(bs, Ext(bs, i));
    }
  }
}
