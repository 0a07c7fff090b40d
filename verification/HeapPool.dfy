/** mm/malloc.c over the words of the pool: headers in memory, the roving pointer, and the
    search, split and merge code, each proved against the partitions of HeapBlocks. */
module HeapPool {
  import opened HeapBlocks

  const INT_MAX := 0x7fff_ffff
  const WORD := 0x1_0000_0000

  /** (size + sizeof(struct mem_struct) + 3) & ~3, computed unsigned and stored in an int. */
  function SizeNeeded(size: int): int {
    var u := (size + HDR + 3) % WORD;
    var r := u - u % 4;
    if r > INT_MAX then r - WORD else r
  }

  lemma SizeNeededBounds(size: int)
    requires 0 <= size <= INT_MAX
    ensures size <= INT_MAX - 15 ==>
      SizeNeeded(size) % 4 == 0 && size + HDR <= SizeNeeded(size) <= size + HDR + 3
    ensures size > INT_MAX - 15 ==> -INT_MAX - 1 <= SizeNeeded(size) <= -INT_MAX + 15
  {}

  // ----- headers -----

  /** The 32-bit word at address a; only multiples of 4 are ever used. */
  function At(m: seq<int>, a: int): int {
    if MEMORY <= a < MEMORY + |m| then m[a - MEMORY] else 0
  }

  function PrevOf(bs: seq<Block>, i: nat): int
    requires i < |bs|
  {
    if i == 0 then 0 else bs[i - 1].start
  }

  ghost predicate HeaderOk(m: seq<int>, bs: seq<Block>, i: nat)
    requires i < |bs|
  {
    var a := bs[i].start;
    && At(m, a) == PrevOf(bs, i)
    && At(m, a + 4) == Size(bs, i)
    && At(m, a + 8) == (if bs[i].free then 1 else 0)
  }

  /** The headers in memory spell out the partition bs. */
  ghost predicate Layout(m: seq<int>, bs: seq<Block>) {
    && |m| == MEM_SIZE + HDR
    && Tiled(bs)
    && forall i :: 0 <= i < |bs| ==> HeaderOk(m, bs, i)
  }

  /** Memory determines the partition: it is what a walk by get_next finds. */
  lemma {:induction false} LayoutIsUnique(m: seq<int>, bs: seq<Block>, cs: seq<Block>, k: nat)
    requires Layout(m, bs) && Layout(m, cs) && k <= |bs|
    ensures k <= |cs| && bs[..k] == cs[..k] && (k == |bs| ==> |bs| == |cs|)
  {
    if k == 0 {
    } else {
      LayoutIsUnique(m, bs, cs, k - 1);
      if k > 1 {
        assert bs[k - 2] == bs[..k - 1][k - 2] == cs[..k - 1][k - 2] == cs[k - 2];
        assert HeaderOk(m, bs, k - 2) && HeaderOk(m, cs, k - 2);
        assert End(bs, k - 2) == End(cs, k - 2);
      }
      assert k <= |cs| && bs[k - 1].start == cs[k - 1].start;
      assert HeaderOk(m, bs, k - 1) && HeaderOk(m, cs, k - 1);
      assert bs[k - 1] == cs[k - 1];
      assert bs[..k] == bs[..k - 1] + [bs[k - 1]];
      assert cs[..k] == cs[..k - 1] + [cs[k - 1]];
      assert End(bs, k - 1) == End(cs, k - 1);
    }
  }

  ghost predicate SameHeader(m: seq<int>, m': seq<int>, a: int) {
    At(m, a) == At(m', a) && At(m, a + 4) == At(m', a + 4) && At(m, a + 8) == At(m', a + 8)
  }

  // ----- the roving pointer -----

  /** A walk from s to e over stale headers: each says "not free" and leads no further than e. */
  ghost predicate Skips(m: seq<int>, e: int, s: int)
    decreases e - s
  {
    s == e ||
    (&& MEMORY <= s && s + HDR <= e
     && At(m, s + 8) == 0 && At(m, s + 4) >= HDR
     && Skips(m, e, s + At(m, s + 4)))
  }

  ghost predicate StaleIn(m: seq<int>, bs: seq<Block>, i: nat, s: int)
    requires i < |bs|
  {
    bs[i].free && bs[i].start + HDR <= s < End(bs, i) && Skips(m, End(bs, i), s)
  }

  ghost predicate IsHead(bs: seq<Block>, s: int) {
    exists i :: 0 <= i < |bs| && bs[i].start == s
  }

  /** Where next_start may point: nowhere, at a block, or at an old header inside a free
      block from which a walk falls through to the next block. */
  ghost predicate RovingOk(m: seq<int>, bs: seq<Block>, s: int) {
    s == 0 || IsHead(bs, s) || exists i :: 0 <= i < |bs| && StaleIn(m, bs, i, s)
  }

  /** The index of the first block at or after address s. */
  function From(bs: seq<Block>, s: int, i: nat := 0): (k: nat)
    requires i <= |bs|
    ensures i <= k <= |bs|
    ensures forall l :: i <= l < k ==> bs[l].start < s
    ensures k < |bs| ==> bs[k].start >= s
    decreases |bs| - i
  {
    if i == |bs| || bs[i].start >= s then i else From(bs, s, i + 1)
  }

  lemma {:induction false} SkipsFrame(m: seq<int>, m': seq<int>, e: int, s: int)
    requires forall a :: s <= a < e ==> At(m, a) == At(m', a)
    requires Skips(m, e, s)
    ensures Skips(m', e, s)
    decreases e - s
  {
    if s != e { SkipsFrame(m, m', e, s + At(m, s + 4)); }
  }

  lemma {:induction false} SkipsConcat(m: seq<int>, e1: int, e2: int, s: int)
    requires Skips(m, e1, s) && s <= e1 <= e2
    ensures Skips(m, e2, s) <==> Skips(m, e2, e1)
    decreases e1 - s
  {
    if s != e1 {
      SkipsBound(m, e1, s + At(m, s + 4));
      SkipsConcat(m, e1, e2, s + At(m, s + 4));
    }
  }

  lemma {:induction false} SkipsBound(m: seq<int>, e: int, s: int)
    requires Skips(m, e, s)
    ensures s <= e
  {}

  // ----- memory changes and the partitions they spell -----

  /** Writes that miss every header leave the partition alone. */
  lemma LayoutFrame(m: seq<int>, m': seq<int>, bs: seq<Block>)
    requires Layout(m, bs) && |m'| == |m|
    requires forall i :: 0 <= i < |bs| ==> SameHeader(m, m', bs[i].start)
    ensures Layout(m', bs)
  {
    forall i | 0 <= i < |bs| ensures HeaderOk(m', bs, i) {
      assert HeaderOk(m, bs, i) && SameHeader(m, m', bs[i].start);
    }
  }

  /** Only block j's free word changed. */
  lemma LayoutFlag(m: seq<int>, m': seq<int>, bs: seq<Block>, j: nat, free: bool)
    requires Layout(m, bs) && |m'| == |m| && j < |bs|
    requires forall i :: 0 <= i < |bs| && i != j ==> SameHeader(m, m', bs[i].start)
    requires var a := bs[j].start;
      At(m', a) == At(m, a) && At(m', a + 4) == At(m, a + 4) && At(m', a + 8) == (if free then 1 else 0)
    ensures Layout(m', bs[j := Block(bs[j].start, free)])
  {
    var r := bs[j := Block(bs[j].start, free)];
    forall i | 0 <= i < |r| ensures HeaderOk(m', r, i) {
      assert HeaderOk(m, bs, i);
      if i != j { assert SameHeader(m, m', bs[i].start); }
    }
  }

  /** What the words say after block j was cut: its header shortened, a free header written
      behind it, and the next block's prev redirected. */
  ghost predicate CutWords(m: seq<int>, m': seq<int>, bs: seq<Block>, j: nat, need: int)
    requires j < |bs|
  {
    var a := bs[j].start;
    && |m'| == |m|
    && (forall i :: 0 <= i < |bs| && i != j && i != j + 1 ==> SameHeader(m, m', bs[i].start))
    && At(m', a) == At(m, a) && At(m', a + 4) == need && At(m', a + 8) == 0
    && At(m', a + need) == a && At(m', a + need + 4) == Size(bs, j) - need && At(m', a + need + 8) == 1
    && (j + 1 < |bs| ==>
          var e := bs[j + 1].start;
          At(m', e) == a + need && At(m', e + 4) == At(m, e + 4) && At(m', e + 8) == At(m, e + 8))
  }

  ghost predicate IsCut(bs: seq<Block>, r: seq<Block>, j: nat, need: int)
    requires j < |bs|
  {
    && |r| == |bs| + 1
    && (forall k :: 0 <= k < j ==> r[k] == bs[k])
    && r[j] == Block(bs[j].start, false) && r[j + 1] == Block(bs[j].start + need, true)
    && (forall k :: j + 2 <= k < |r| ==> r[k] == bs[k - 1])
  }

  lemma LayoutCut(m: seq<int>, m': seq<int>, bs: seq<Block>, j: nat, need: int)
    requires Layout(m, bs) && j < |bs| && CutWords(m, m', bs, j, need)
    requires HDR <= need && need % 4 == 0 && Splits(bs, j, need)
    ensures Layout(m', Taken(bs, j, need))
  {
    TakenIsCut(bs, j, need);
    CutLayout(m, m', bs, Taken(bs, j, need), j, need);
  }

  lemma TakenIsCut(bs: seq<Block>, j: nat, need: int)
    requires j < |bs| && Splits(bs, j, need)
    ensures IsCut(bs, Taken(bs, j, need), j, need)
  {}

  lemma CutLayout(m: seq<int>, m': seq<int>, bs: seq<Block>, r: seq<Block>, j: nat, need: int)
    requires Layout(m, bs) && j < |bs| && CutWords(m, m', bs, j, need) && IsCut(bs, r, j, need)
    requires HDR <= need && need % 4 == 0 && Splits(bs, j, need)
    ensures Layout(m', r)
  {
    CutKeepsTiled(bs, j, bs[j].start + need, r);
    forall k | 0 <= k < |r| ensures HeaderOk(m', r, k) { CutHeader(m, m', bs, r, j, need, k); }
  }

  lemma CutHeader(m: seq<int>, m': seq<int>, bs: seq<Block>, r: seq<Block>, j: nat, need: int, k: nat)
    requires Layout(m, bs) && j < |bs| && CutWords(m, m', bs, j, need) && IsCut(bs, r, j, need)
    requires k < |r|
    ensures HeaderOk(m', r, k)
  {
    if k < j {
      assert HeaderOk(m, bs, k) && SameHeader(m, m', bs[k].start);
    } else if k > j + 1 {
      assert HeaderOk(m, bs, k - 1);
      assert End(r, k) == End(bs, k - 1);
      if k > j + 2 { assert SameHeader(m, m', bs[k - 1].start); }
    } else {
      assert HeaderOk(m, bs, j);
    }
  }

  /** Blocks lo..hi became one block with lo's header, and the block behind them was told. */
  lemma LayoutMerge(m: seq<int>, m': seq<int>, bs: seq<Block>, lo: nat, hi: nat, free: bool)
    requires Layout(m, bs) && |m'| == |m| && lo < hi <= |bs|
    requires forall i :: 0 <= i < |bs| && i < lo ==> SameHeader(m, m', bs[i].start)
    requires forall i :: hi < i < |bs| ==> SameHeader(m, m', bs[i].start)
    requires var a := bs[lo].start;
      && At(m', a) == At(m, a) && At(m', a + 8) == (if free then 1 else 0)
      && At(m', a + 4) == (if hi < |bs| then bs[hi].start else MEM_END) - a
    requires hi < |bs| ==>
      var e := bs[hi].start;
      At(m', e) == bs[lo].start && At(m', e + 4) == At(m, e + 4) && At(m', e + 8) == At(m, e + 8)
    ensures Layout(m', bs[..lo] + [Block(bs[lo].start, free)] + bs[hi..])
  {
    var r := bs[..lo] + [Block(bs[lo].start, free)] + bs[hi..];
    MergedKeepsTiled(bs, lo, hi, free);
    forall k | 0 <= k < |r| ensures HeaderOk(m', r, k) {
      if k < lo {
        assert HeaderOk(m, bs, k) && SameHeader(m, m', bs[k].start);
        assert r[k] == bs[k] && r[k + 1].start == bs[k + 1].start;
      } else if k == lo {
        assert HeaderOk(m, bs, lo);
      } else {
        MergeHeaderBehind(m, m', bs, r, lo, hi, k);
      }
    }
  }

  lemma MergeHeaderBehind(m: seq<int>, m': seq<int>, bs: seq<Block>, r: seq<Block>, lo: nat, hi: nat, k: nat)
    requires lo < hi <= |bs| && Layout(m, bs)
    requires |r| == lo + 1 + |bs| - hi && r[lo].start == bs[lo].start
    requires forall l :: lo < l < |r| ==> r[l] == bs[l - lo - 1 + hi]
    requires lo < k < |r|
    requires forall i :: hi < i < |bs| ==> SameHeader(m, m', bs[i].start)
    requires hi < |bs| ==>
      var e := bs[hi].start;
      At(m', e) == bs[lo].start && At(m', e + 4) == At(m, e + 4) && At(m', e + 8) == At(m, e + 8)
    ensures HeaderOk(m', r, k)
  {
    var i := k - lo - 1 + hi;
    assert HeaderOk(m, bs, i);
    assert r[k] == bs[i] && End(r, k) == End(bs, i);
    if i > hi {
      assert SameHeader(m, m', bs[i].start);
      assert r[k - 1] == bs[i - 1];
    }
  }

  /** The words free wrote when it set one flag. */
  lemma FlagWords(m: seq<int>, m': seq<int>, bs: seq<Block>, j: nat, free: bool)
    requires Layout(m, bs) && j < |bs|
    requires m' == m[bs[j].start + 8 - MEMORY := if free then 1 else 0]
    ensures Layout(m', bs[j := Block(bs[j].start, free)])
  {
    StartsIncrease2(bs, j);
    forall i | 0 <= i < |bs| && i != j ensures SameHeader(m, m', bs[i].start) {
      if i < j { StartsIncrease(bs, i, j); } else { StartsIncrease(bs, j, i); }
    }
    LayoutFlag(m, m', bs, j, free);
  }

  // ----- what the callers can count on -----

  /** The block malloc settles on, or |bs|: the first fit from the roving pointer onwards. */
  function Choice(bs: seq<Block>, roving: int, need: int): (j: nat)
    ensures j <= |bs|
  {
    FirstFit(bs, From(bs, roving), need)
  }

  /** The calls of malloc that are served properly.  All of it can be checked beforehand by
      walking the heap: next_start is not null, the size does not overflow, and either a
      fitting block lies ahead and does not leave exactly four bytes over, or none does and
      the block under next_start is too small as well. */
  ghost predicate MallocSafe(m: seq<int>, bs: seq<Block>, roving: int, size: int) {
    && roving != 0
    && size <= INT_MAX - 15
    && var need := SizeNeeded(size);
       var j := Choice(bs, roving, need);
       if j < |bs| then Size(bs, j) - need != 4 else At(m, roving + 4) < need
  }

  /** A proper answer: null with nothing changed, or a block that was free and is now taken. */
  ghost predicate Served(before: seq<Block>, after: seq<Block>, p: int, need: int) {
    || (p == 0 && after == before)
    || exists j :: 0 <= j < |before| && Fits(before, j, need)
                   && p == before[j].start + HDR && after == Taken(before, j, need)
  }

  /** The calls of free that leave next_start dangling inside the block they build: both
      neighbours are free, and next_start has already passed the front one's header. */
  predicate Strands(bs: seq<Block>, i: nat, roving: int)
    requires i < |bs|
  {
    FreeBefore(bs, i) && FreeAfter(bs, i) && roving > bs[i - 1].start
  }

  // ----- what free does to the roving pointer -----

  ghost predicate SameBelow(m: seq<int>, m': seq<int>, top: int) {
    forall a :: a < top ==> At(m, a) == At(m', a)
  }

  /** r is bs with blocks lo..hi merged into one free block. */
  ghost predicate IsMerge(bs: seq<Block>, r: seq<Block>, lo: nat, hi: nat) {
    && lo < hi <= |bs| && |r| == |bs| - (hi - lo) + 1
    && (forall k :: 0 <= k < lo ==> r[k] == bs[k])
    && r[lo] == Block(bs[lo].start, true)
    && (forall k :: lo < k < |r| ==> r[k] == bs[k - 1 - lo + hi])
  }

  /** A roving pointer no further than the merged block's header is as good as before. */
  lemma RovingStays(m: seq<int>, m': seq<int>, bs: seq<Block>, r: seq<Block>, lo: nat, hi: nat, s: int)
    requires Tiled(bs) && IsMerge(bs, r, lo, hi) && SameBelow(m, m', bs[lo].start)
    requires RovingOk(m, bs, s) && s <= bs[lo].start
    ensures RovingOk(m', r, s)
  {
    forall k | lo < k < |bs| ensures bs[k].start > bs[lo].start { StartsIncrease(bs, lo, k); }
    if s != 0 {
      if IsHead(bs, s) {
        var k :| 0 <= k < |bs| && bs[k].start == s;
        assert r[k].start == s;
      } else {
        var k :| 0 <= k < |bs| && StaleIn(m, bs, k, s);
        assert k < lo;
        StartsIncrease(bs, k, lo);
        SkipsFrame(m, m', End(bs, k), s);
        assert End(r, k) == End(bs, k);
        assert StaleIn(m', r, k, s);
      }
    }
  }

  /** Blocks do not overlap. */
  lemma OnlyBlockAround(bs: seq<Block>, k: nat, s: int)
    requires Tiled(bs) && k < |bs| && bs[k].start <= s < End(bs, k)
    ensures forall l :: 0 <= l < |bs| && bs[l].start <= s < End(bs, l) ==> l == k
    ensures forall l :: 0 <= l < |bs| && bs[l].start == s ==> l == k
  {}

  /** A pointer past a free block's header but not past its end is stale inside that block. */
  lemma RovingInside(m: seq<int>, bs: seq<Block>, k: nat, s: int)
    requires Tiled(bs) && k < |bs| && RovingOk(m, bs, s)
    requires bs[k].start < s < End(bs, k)
    ensures StaleIn(m, bs, k, s)
  {}

  lemma StartsIncrease2(bs: seq<Block>, k: nat)
    requires Tiled(bs) && k < |bs|
    ensures MEMORY <= bs[k].start && bs[k].start + HDR <= End(bs, k) <= MEM_END
  {}

  /** Where free leaves next_start when it merges block i into a free block before it. */
  function Lowered(bs: seq<Block>, i: nat, s: int): int
    requires i < |bs|
  {
    if bs[i].start < s then bs[i].start else s
  }

  /** The words inside the merged block, old headers included, are still there. */
  ghost predicate InnerKept(m: seq<int>, m': seq<int>, bs: seq<Block>, i: nat, hi: nat)
    requires 0 < i < hi <= |bs|
  {
    forall a :: bs[i - 1].start + HDR <= a < End(bs, hi - 1) ==> At(m, a) == At(m', a)
  }

  lemma StaleChainReachesOldEnd(m: seq<int>, m': seq<int>, bs: seq<Block>, i: nat, hi: nat, s: int)
    requires Tiled(bs) && 0 < i < hi <= |bs| && InnerKept(m, m', bs, i, hi)
    requires RovingOk(m, bs, s) && s > bs[i - 1].start
    ensures bs[i - 1].start + HDR <= Lowered(bs, i, s) <= bs[i].start
    ensures Skips(m', bs[i].start, Lowered(bs, i, s))
  {
    StartsIncrease(bs, i - 1, i);
    if i < hi - 1 { StartsIncrease(bs, i, hi - 1); }
    StartsIncrease2(bs, i);
    StartsIncrease2(bs, hi - 1);
    if s < bs[i].start {
      RovingInside(m, bs, i - 1, s);
      SkipsFrame(m, m', bs[i].start, s);
    }
  }

  /** After a front merge the pointer may be stale, but the walk from it falls through. */
  lemma RovingFallsThrough(m: seq<int>, m': seq<int>, bs: seq<Block>, r: seq<Block>, i: nat, s: int)
    requires Layout(m, bs) && 0 < i < |bs| && bs[i - 1].free && !bs[i].free
    requires IsMerge(bs, r, i - 1, i + 1) && InnerKept(m, m', bs, i, i + 1)
    requires RovingOk(m, bs, s) && s > bs[i - 1].start
    ensures RovingOk(m', r, Lowered(bs, i, s))
  {
    var mm, e, s' := bs[i].start, End(bs, i), Lowered(bs, i, s);
    StaleChainReachesOldEnd(m, m', bs, i, i + 1, s);
    StartsIncrease2(bs, i);
    assert HeaderOk(m, bs, i);
    assert At(m', mm + 4) == e - mm && At(m', mm + 8) == 0;
    assert Skips(m', e, mm);
    SkipsConcat(m', mm, e, s');
    assert End(r, i - 1) == e;
    assert StaleIn(m', r, i - 1, s');
  }

  /** After a two-sided merge it reaches the old header of the block behind, which says
      "free": the next malloc may carve up the inside of the merged block. */
  lemma RovingStranded(m: seq<int>, m': seq<int>, bs: seq<Block>, r: seq<Block>, i: nat, s: int)
    requires Layout(m, bs) && 0 < i && i + 1 < |bs| && bs[i - 1].free && !bs[i].free && bs[i + 1].free
    requires IsMerge(bs, r, i - 1, i + 2) && Tiled(r) && InnerKept(m, m', bs, i, i + 2)
    requires RovingOk(m, bs, s) && s > bs[i - 1].start
    ensures !RovingOk(m', r, Lowered(bs, i, s))
  {
    var mm, nx, e, s' := bs[i].start, bs[i + 1].start, End(bs, i + 1), Lowered(bs, i, s);
    StaleChainReachesOldEnd(m, m', bs, i, i + 2, s);
    StartsIncrease2(bs, i);
    StartsIncrease2(bs, i + 1);
    assert HeaderOk(m, bs, i) && HeaderOk(m, bs, i + 1);
    assert At(m', mm + 4) == nx - mm && At(m', nx + 8) == 1;
    assert !Skips(m', e, nx);
    assert !Skips(m', e, mm);
    SkipsConcat(m', mm, e, s');
    assert End(r, i - 1) == e;
    StartsIncrease2(bs, i - 1);
    if RovingOk(m', r, s') { RovingInside(m', r, i - 1, s'); }
  }

  function UpTo(bs: seq<Block>, hi: nat): int
    requires hi <= |bs|
  {
    if hi < |bs| then bs[hi].start else MEM_END
  }

  /** The words after a merge of blocks lo..hi: only lo's size and flag and the prev link
      behind the merged block differ. */
  ghost predicate MergeWords(m: seq<int>, m': seq<int>, bs: seq<Block>, lo: nat, hi: nat)
    requires lo < hi <= |bs|
  {
    var a, e := bs[lo].start, UpTo(bs, hi);
    && |m'| == |m|
    && (forall b :: b != a + 4 && b != a + 8 && (b != e || hi == |bs|) ==> At(m', b) == At(m, b))
    && At(m', a + 4) == e - a && At(m', a + 8) == 1
    && (hi < |bs| ==> At(m', e) == a)
  }

  lemma MergeWordsElsewhere(m: seq<int>, m': seq<int>, bs: seq<Block>, lo: nat, hi: nat)
    requires Tiled(bs) && lo < hi <= |bs| && MergeWords(m, m', bs, lo, hi)
    ensures forall i :: 0 <= i < lo ==> SameHeader(m, m', bs[i].start)
    ensures forall i :: hi < i < |bs| ==> SameHeader(m, m', bs[i].start)
    ensures At(m', bs[lo].start) == At(m, bs[lo].start)
    ensures hi < |bs| ==>
      var e := bs[hi].start; At(m', e + 4) == At(m, e + 4) && At(m', e + 8) == At(m, e + 8)
  {}

  lemma MergeIsLaidOut(m: seq<int>, m': seq<int>, bs: seq<Block>, lo: nat, hi: nat)
    requires Layout(m, bs) && lo < hi <= |bs| && MergeWords(m, m', bs, lo, hi)
    ensures var r := bs[..lo] + [Block(bs[lo].start, true)] + bs[hi..];
      Layout(m', r) && IsMerge(bs, r, lo, hi)
    ensures SameBelow(m, m', bs[lo].start)
    ensures lo + 1 < hi ==> InnerKept(m, m', bs, lo + 1, hi)
  {
    MergeWordsElsewhere(m, m', bs, lo, hi);
    LayoutMerge(m, m', bs, lo, hi, true);
    if hi < |bs| { StartsIncrease(bs, lo, hi); }
    StartsIncrease2(bs, lo);
    StartsIncrease2(bs, hi - 1);
    assert End(bs, hi - 1) == UpTo(bs, hi);
  }

  // ----- what malloc writes -----

  function Set(m: seq<int>, a: int, v: int): seq<int> {
    if MEMORY <= a < MEMORY + |m| then m[a - MEMORY := v] else m
  }

  /** The words after malloc settled on the header at `good`. */
  function Carved(m: seq<int>, good: int, need: int): seq<int> {
    var total := At(m, good + 4);
    var m1 := Set(m, good + 8, 0);
    if total == need then m1
    else if need < 0 then Set(m1, good + 4, need)
    else
      var next := good + need;
      var m2 := Set(Set(m1, good + 4, need), next + 4, total - need);
      if total - need <= HDR then Set(m2, good + 4, total)
      else
        var m3 := Set(Set(m2, next, good), next + 8, 1);
        if good + total < MEM_END then Set(m3, good + total, next) else m3
  }

  lemma CarvedIsTaken(m: seq<int>, bs: seq<Block>, j: nat, need: int)
    requires Layout(m, bs) && j < |bs| && Fits(bs, j, need) && HDR <= need && need % 4 == 0
    requires !Overlaps(bs, j, need)
    ensures Layout(Carved(m, bs[j].start, need), Taken(bs, j, need))
    ensures At(Carved(m, bs[j].start, need), MEM_END) == At(m, MEM_END)
  {
    var a := bs[j].start;
    assert HeaderOk(m, bs, j);
    StartsIncrease2(bs, j);
    if Splits(bs, j, need) {
      CarvedCuts(m, bs, j, need);
      LayoutCut(m, Carved(m, a, need), bs, j, need);
    } else {
      CarvedWhole(m, bs, j, need);
      LayoutFlag(m, Carved(m, a, need), bs, j, false);
    }
  }

  lemma CarvedCuts(m: seq<int>, bs: seq<Block>, j: nat, need: int)
    requires Layout(m, bs) && j < |bs| && HDR <= need && Splits(bs, j, need)
    ensures CutWords(m, Carved(m, bs[j].start, need), bs, j, need)
    ensures At(Carved(m, bs[j].start, need), MEM_END) == At(m, MEM_END)
  {
    var a := bs[j].start;
    var m' := Carved(m, a, need);
    assert HeaderOk(m, bs, j);
    StartsIncrease2(bs, j);
    CarvedCutsHere(m, a, need, Size(bs, j));
    forall i | 0 <= i < |bs| && i != j && i != j + 1 ensures SameHeader(m, m', bs[i].start) {
      if i < j { StartsIncrease(bs, i, j); } else { StartsIncrease(bs, j + 1, i); StartsIncrease(bs, j, i); }
    }
    if j + 1 < |bs| { StartsIncrease(bs, j, j + 1); StartsIncrease2(bs, j + 1); }
  }

  lemma CarvedCutsHere(m: seq<int>, a: int, need: int, size: int)
    requires |m| == MEM_SIZE + HDR && MEMORY <= a && HDR <= need && need + HDR < size && a + size <= MEM_END
    requires At(m, a + 4) == size
    ensures var m' := Carved(m, a, need);
      && |m'| == |m|
      && At(m', a) == At(m, a) && At(m', a + 4) == need && At(m', a + 8) == 0
      && At(m', a + need) == a && At(m', a + need + 4) == size - need && At(m', a + need + 8) == 1
      && (a + size < MEM_END ==> At(m', a + size) == a + need)
      && forall b :: b < a || b > a + size || (b == a + size && b >= MEM_END) ==> At(m', b) == At(m, b)
  {}

  lemma CarvedWhole(m: seq<int>, bs: seq<Block>, j: nat, need: int)
    requires Layout(m, bs) && j < |bs| && HDR <= need <= Size(bs, j) && need % 4 == 0
    requires !Splits(bs, j, need) && !Overlaps(bs, j, need)
    ensures var a, m' := bs[j].start, Carved(m, bs[j].start, need);
      && |m'| == |m|
      && At(m', a) == At(m, a) && At(m', a + 4) == At(m, a + 4) && At(m', a + 8) == 0
      && (forall i :: 0 <= i < |bs| && i != j ==> SameHeader(m, m', bs[i].start))
      && At(m', MEM_END) == At(m, MEM_END)
  {
    var a, m' := bs[j].start, Carved(m, bs[j].start, need);
    assert HeaderOk(m, bs, j);
    StartsIncrease2(bs, j);
    AlignedEnd(bs, j);
    CarvedWholeHere(m, a, need, Size(bs, j));
    forall i | 0 <= i < |bs| && i != j ensures SameHeader(m, m', bs[i].start) {
      if i < j { StartsIncrease(bs, i, j); } else { StartsIncrease(bs, j, i); }
    }
  }

  lemma AlignedEnd(bs: seq<Block>, j: nat)
    requires Tiled(bs) && j < |bs|
    ensures Size(bs, j) % 4 == 0
  {}

  lemma CarvedWholeHere(m: seq<int>, a: int, need: int, size: int)
    requires |m| == MEM_SIZE + HDR && MEMORY <= a && HDR <= need <= size && a + size <= MEM_END
    requires size - need <= HDR && size - need != 4 && (size - need) % 4 == 0
    requires At(m, a + 4) == size
    ensures var m' := Carved(m, a, need);
      && |m'| == |m|
      && At(m', a) == At(m, a) && At(m', a + 4) == size && At(m', a + 8) == 0
      && forall b :: b < a || b >= a + size ==> At(m', b) == At(m, b)
  {}

  /** The four-byte remainder destroys the prev link of the block behind, or, behind the last
      block, the first word after the pool. */
  lemma CarvedOverlaps(m: seq<int>, bs: seq<Block>, j: nat, need: int)
    requires Layout(m, bs) && j < |bs| && Fits(bs, j, need) && HDR <= need
    requires Overlaps(bs, j, need)
    ensures At(Carved(m, bs[j].start, need), End(bs, j)) == 4
    ensures j + 1 < |bs| ==> !Layout(Carved(m, bs[j].start, need), Taken(bs, j, need))
  {
    assert HeaderOk(m, bs, j);
    StartsIncrease2(bs, j);
    var m', r := Carved(m, bs[j].start, need), Taken(bs, j, need);
    assert At(m', End(bs, j)) == 4;
    if j + 1 < |bs| { assert !HeaderOk(m', r, j + 1); }
  }
}
