/**
 The five-level radix tree of packed summaries over the chunk bitmaps, and its update.
*/
module PageAlloc {
  import opened Runs
  import opened Words
  import opened PallocSums
  import opened PallocBits
  import opened MergeSums

  const PAGE_SIZE: nat := 8192
  const CHUNK_BYTES: nat := 512 * PAGE_SIZE
  const ARENA_BASE_OFFSET: nat := 0xffff_8000_0000_0000
  const ADDRESS_SPACE: nat := 0x1_0000_0000_0000          // 48 bits
  const WORD_MOD: nat := 0x1_0000_0000_0000_0000

  const LEVELS: nat := 5
  const CHILDREN: nat := 8                                // 1 << summaryLevelBits

  /** An address in the linear 48-bit space: p - arenaBaseOffset, modulo 2^64. */
  function Linear(p: nat): nat { (p + (WORD_MOD - ARENA_BASE_OFFSET)) % WORD_MOD }

  function ChunkIndex(p: nat): nat { Linear(p) / CHUNK_BYTES }

  /** Bytes one summary of the level covers: 1 << levelShift[level]. */
  function LevelBytes(level: nat): (r: nat)
    requires level < LEVELS
    ensures r > 0
  {
    if level == 0 then 0x4_0000_0000         // 1 << 34
    else if level == 1 then 0x8000_0000      // 1 << 31
    else if level == 2 then 0x1000_0000      // 1 << 28
    else if level == 3 then 0x200_0000       // 1 << 25
    else CHUNK_BYTES                         // 1 << 22
  }

  /** log2 of the pages one summary of the level covers. */
  function LevelLogPages(level: nat): nat
    requires level < LEVELS
  {
    9 + 3 * (4 - level)
  }

  /** Number of summaries at the level: the 2^48 bytes of the address space over LevelBytes. */
  function Entries(level: nat): nat
    requires level < LEVELS
  {
    if level == 0 then 0x4000
    else if level == 1 then 0x2_0000
    else if level == 2 then 0x10_0000
    else if level == 3 then 0x80_0000
    else 0x400_0000
  }

  /** An entry covers 2^LevelLogPages pages, and the entries of a level cover the address space. */
  lemma LevelBytesExact(level: nat)
    requires level < LEVELS
    ensures LevelBytes(level) == PAGE_SIZE * Pow2(LevelLogPages(level))
    ensures Entries(level) * LevelBytes(level) == ADDRESS_SPACE
  {
    PagesPerLevel(level);
  }

  type Levels = seq<seq<PallocSum>>

  predicate Shaped(summary: Levels) {
    && |summary| == LEVELS
    && forall l | 0 <= l < LEVELS :: |summary[l]| == Entries(l)
  }

  /** The levels with entry i of one level replaced. */
  function WithEntry(summary: Levels, level: nat, i: nat, sum: PallocSum): Levels
    requires level < |summary| && i < |summary[level]|
  {
    var s: seq<PallocSum> := summary[level];
    summary[level := s[i := sum]]
  }

  /** The children of entry i of the level. */
  function Children(summary: Levels, level: nat, i: nat): (r: seq<PallocSum>)
    requires Shaped(summary) && level < LEVELS - 1 && i < Entries(level)
    ensures |r| == CHILDREN
  {
    summary[level + 1][CHILDREN * i..CHILDREN * i + CHILDREN]
  }

  /** The merge of the children of entry i. */
  function MergedChildren(summary: Levels, level: nat, i: nat): PallocSum
    requires Shaped(summary) && level < LEVELS - 1 && i < Entries(level)
  {
    Merge(Children(summary, level, i), Pow2(LevelLogPages(level + 1)))
  }

  /** Every entry of the level outside [lo, hi) is the merge of its children. */
  predicate MergedOutside(summary: Levels, level: nat, lo: nat, hi: nat)
    requires Shaped(summary) && level < LEVELS - 1
  {
    forall i: nat :: i < Entries(level) && !(lo <= i < hi) ==> summary[level][i] == MergedChildren(summary, level, i)
  }

  /** Every entry of the level in [lo, hi) is the merge of its children. */
  predicate MergedInside(summary: Levels, level: nat, lo: nat, hi: nat)
    requires Shaped(summary) && level < LEVELS - 1 && hi <= Entries(level)
  {
    forall i: nat :: lo <= i < hi ==> summary[level][i] == MergedChildren(summary, level, i)
  }

  predicate Merged(summary: Levels, level: nat)
    requires Shaped(summary) && level < LEVELS - 1
  {
    MergedOutside(summary, level, 0, 0)
  }

  predicate SameOutside(x: seq<PallocSum>, y: seq<PallocSum>, lo: nat, hi: nat) {
    |x| == |y| && forall k | 0 <= k < |x| :: lo <= k < hi || x[k] == y[k]
  }

  /** Levels `a` and `b` hold the same summaries, so what depends on them alone carries over. */
  lemma MergedFrame(a: Levels, b: Levels, level: nat, lo: nat, hi: nat)
    requires Shaped(a) && Shaped(b) && level < LEVELS - 1
    requires a[level] == b[level] && a[level + 1] == b[level + 1]
    requires MergedOutside(a, level, lo, hi)
    ensures MergedOutside(b, level, lo, hi)
  {
    hide Merge, Pow2;
    forall i: nat | i < Entries(level) && !(lo <= i < hi) ensures b[level][i] == MergedChildren(b, level, i) {
      assert Children(a, level, i) == Children(b, level, i);
      assert a[level][i] == MergedChildren(a, level, i);
    }
  }

  /** Changing entries [lo, hi) of a level can only unsettle their parents, [lo/8, (hi-1)/8]. */
  lemma MergedAbove(a: Levels, b: Levels, level: nat, lo: nat, hi: nat, plo: nat, phi: nat)
    requires Shaped(a) && Shaped(b) && level < LEVELS - 1
    requires a[level] == b[level] && Merged(a, level)
    requires SameOutside(b[level + 1], a[level + 1], lo, hi)
    requires lo < hi && plo <= lo / CHILDREN && (hi - 1) / CHILDREN < phi
    ensures MergedOutside(b, level, plo, phi)
  {
    hide Merge, Pow2;
    forall i: nat | i < Entries(level) && !(plo <= i < phi) ensures b[level][i] == MergedChildren(b, level, i) {
      var ca, cb := Children(a, level, i), Children(b, level, i);
      forall k | 0 <= k < CHILDREN ensures ca[k] == cb[k] {
        assert ca[k] == a[level + 1][CHILDREN * i + k];
      }
      assert ca == cb;
      assert a[level][i] == MergedChildren(a, level, i);
    }
  }

  const FREE_CHUNK_SUM: PallocSum := 512 + 512 * MAX_PACKED + 512 * (MAX_PACKED * MAX_PACKED)

  /** What the contiguous path writes for a chunk that is wholly allocated or wholly free. */
  function WholeChunkSum(alloc: bool): PallocSum { if alloc then 0 else FREE_CHUNK_SUM }

  lemma WholeChunkSums(bits: Bitmap)
    requires |bits| == CHUNK_PAGES
    ensures AllSet(bits) ==> Summarizes(bits, Unpack(WholeChunkSum(true)))
    ensures Free(bits, 0, |bits|) ==> Summarizes(bits, Unpack(WholeChunkSum(false)))
  {
    Digits(512, 512, 512);
    assert Unpack(0) == Summary(0, 0, 0);
    if AllSet(bits) {
      AllAllocatedSummary(bits);
    }
    if Free(bits, 0, |bits|) {
      AllFreeSummary(bits);
    }
  }

  /** First and one-past-last entry of the level touched by the linear addresses [lo, end]. */
  function SummaryRange(level: nat, base: nat, limit: nat): (nat, nat)
    requires level < LEVELS
  {
    (Linear(base) / LevelBytes(level), Linear(limit) / LevelBytes(level) + 1)
  }

  /** The update range [base, base + npages pages) ends below the top of the address space. */
  predicate InSpace(base: nat, npages: nat) {
    base < WORD_MOD && npages >= 1 && Linear(base) + npages * PAGE_SIZE < ADDRESS_SPACE
  }

  /** Below the kernel half the linear address is higher by 2^47, above it lower by the offset. */
  lemma LinearCases(p: nat)
    requires p < WORD_MOD
    ensures Linear(p) == if p < ARENA_BASE_OFFSET then p + (WORD_MOD - ARENA_BASE_OFFSET) else p - ARENA_BASE_OFFSET
  {
  }

  lemma WrapOnce(x: nat)
    requires x < 2 * WORD_MOD
    ensures x % WORD_MOD == if x < WORD_MOD then x else x - WORD_MOD
  {
  }

  /** Adding less than an address space to an address adds as much to the linear one, wrap-around or not. */
  lemma LinearSum(base: nat, d: nat)
    requires base < WORD_MOD && Linear(base) + d <= ADDRESS_SPACE
    ensures Linear((base + d) % WORD_MOD) == Linear(base) + d
  {
    hide Linear;
    LinearCases(base);
    WrapOnce(base + d);
    LinearCases((base + d) % WORD_MOD);
  }

  /** 2^64 wrap-around of addresses does not show in the linear space. */
  lemma LinearOffset(base: nat, npages: nat)
    requires InSpace(base, npages)
    ensures Linear((base + npages * PAGE_SIZE - 1) % WORD_MOD) == Linear(base) + npages * PAGE_SIZE - 1
    ensures Linear((base + npages * PAGE_SIZE) % WORD_MOD) == Linear(base) + npages * PAGE_SIZE < ADDRESS_SPACE
    ensures npages * PAGE_SIZE >= 1
  {
    hide Linear;
    LinearSum(base, npages * PAGE_SIZE - 1);
    LinearSum(base, npages * PAGE_SIZE);
  }

  /**
   The range of entries an update walks through stays inside a level if and only if the update range
   ends below the top of the address space; at the top it reaches for one entry too many.
  */
  lemma RangeFits(level: nat, base: nat, npages: nat)
    requires level < LEVELS && base < WORD_MOD && npages >= 1 && Linear(base) + npages * PAGE_SIZE <= ADDRESS_SPACE
    ensures SummaryRange(level, base, (base + npages * PAGE_SIZE) % WORD_MOD).1 <= Entries(level)
            <==> InSpace(base, npages)
  {
    LinearSum(base, npages * PAGE_SIZE);
    LevelBytesExact(level);
    hide Linear;
  }

  /** The range of a level covers the parents of the range one level down. */
  lemma RangeAbove(level: nat, base: nat, limit: nat)
    requires level < LEVELS - 1 && Linear(base) <= Linear(limit) < ADDRESS_SPACE
    ensures
      var (lo, hi) := SummaryRange(level, base, limit);
      var (clo, chi) := SummaryRange(level + 1, base, limit);
      lo == clo / CHILDREN && (chi - 1) / CHILDREN == hi - 1 && lo < hi <= Entries(level)
  {
    hide Linear, LevelBytes, Entries;
    Nested(level, Linear(base));
    Nested(level, Linear(limit));
    Ordered(level, Linear(base), Linear(limit));
  }

  lemma Nested(level: nat, x: nat)
    requires level < LEVELS - 1 && x < ADDRESS_SPACE
    ensures x / LevelBytes(level) == x / LevelBytes(level + 1) / CHILDREN
    ensures x / LevelBytes(level) < Entries(level)
  {
  }

  lemma Ordered(level: nat, x: nat, y: nat)
    requires level < LEVELS - 1 && x <= y
    ensures x / LevelBytes(level) <= y / LevelBytes(level)
  {
  }

  /** Eight blocks of one level make a block of the level above; a leaf is a 512-page chunk. */
  lemma PagesPerLevel(level: nat)
    requires level < LEVELS
    ensures level < 4 ==> CHILDREN * Pow2(LevelLogPages(level + 1)) == Pow2(LevelLogPages(level)) <= MAX_PACKED
    ensures level == 4 ==> Pow2(LevelLogPages(level)) == CHUNK_PAGES
    ensures Pow2(9) == 512 && Pow2(12) == 4096 && Pow2(15) == 32768 && Pow2(18) == 262144 && Pow2(21) == 2097152
  {
    if level < 4 {
      var n := LevelLogPages(level + 1);
      assert Pow2(n + 3) == 2 * Pow2(n + 2) == 4 * Pow2(n + 1) == 8 * Pow2(n);
    }
    assert Pow2(9) == 512 && Pow2(12) == 4096 && Pow2(15) == 32768 && Pow2(18) == 262144 && Pow2(21) == 2097152;
  }

  lemma EntriesBelow(level: nat, i: nat)
    requires level < LEVELS - 1 && i < Entries(level)
    ensures CHILDREN * i + CHILDREN <= Entries(level + 1)
  {
  }

  /** The chunks the range touches lie in the summary range of the leaf level. */
  lemma LeafRange(base: nat, limit: nat, top: nat)
    requires Linear(base) <= Linear(limit) && Linear(top) == Linear(limit) + 1 < ADDRESS_SPACE
    ensures
      var (lo, hi) := SummaryRange(4, base, top);
      lo == ChunkIndex(base) <= ChunkIndex(limit) < hi && ChunkIndex(limit) < Entries(4)
  {
  }

  /** Changed leaves unsettle only the range the walk recomputes first. */
  lemma AfterLeaves(a: Levels, b: Levels, lo: nat, hi: nat, base: nat, top: nat)
    requires Shaped(a) && Shaped(b) && b == a[4 := b[4]] && SameOutside(b[4], a[4], lo, hi)
    requires forall l: nat :: l < LEVELS - 1 ==> Merged(a, l)
    requires Linear(base) <= Linear(top) < ADDRESS_SPACE
    requires lo < hi && SummaryRange(4, base, top).0 <= lo && hi <= SummaryRange(4, base, top).1
    ensures
      var (plo, phi) := SummaryRange(3, base, top);
      plo < phi <= Entries(3) && MergedOutside(b, 3, plo, phi)
    ensures forall m: nat :: m < 3 ==> Merged(b, m)
  {
    hide MergedOutside, LevelBytes, Linear;
    RangeAbove(3, base, top);
    var (plo, phi) := SummaryRange(3, base, top);
    MergedAbove(a, b, 3, lo, hi, plo, phi);
    forall m: nat | m < 3 ensures Merged(b, m) {
      assert Merged(a, m);
      MergedFrame(a, b, m, 0, 0);
    }
  }

  /** Recomputing the unsettled range of a level settles it, and unsettles at most the range above it. */
  lemma LevelDone(a: Levels, b: Levels, level: nat, lo: nat, hi: nat, base: nat, top: nat, changed: bool)
    requires Shaped(a) && Shaped(b) && level < LEVELS - 1 && b == a[level := b[level]]
    requires lo < hi && SameOutside(b[level], a[level], lo, hi) && (lo, hi) == SummaryRange(level, base, top)
    requires hi <= Entries(level) && MergedInside(b, level, lo, hi)
    requires !changed ==> b == a
    requires MergedOutside(a, level, lo, hi)
    requires forall m: nat :: m < LEVELS - 1 && m != level ==> Merged(a, m)
    requires Linear(base) <= Linear(top) < ADDRESS_SPACE
    ensures Merged(b, level)
    ensures forall m: nat :: m < LEVELS - 1 && (!changed || m + 1 != level) ==> Merged(b, m)
    ensures level > 0 ==>
      var (plo, phi) := SummaryRange(level - 1, base, top);
      plo < phi <= Entries(level - 1) && MergedOutside(b, level - 1, plo, phi)
  {
    hide MergedOutside, MergedInside, LevelBytes, Linear, Entries, SameOutside, SummaryRange;
    Settled(a, b, level, lo, hi);
    forall m: nat | m < LEVELS - 1 && m != level && m + 1 != level ensures Merged(b, m) {
      assert Merged(a, m);
      MergedFrame(a, b, m, 0, 0);
    }
    if level > 0 {
      RangeAbove(level - 1, base, top);
      var (plo, phi) := SummaryRange(level - 1, base, top);
      MergedAbove(a, b, level - 1, lo, hi, plo, phi);
    }
  }

  lemma Settled(a: Levels, b: Levels, level: nat, lo: nat, hi: nat)
    requires Shaped(a) && Shaped(b) && level < LEVELS - 1 && a[level + 1] == b[level + 1]
    requires SameOutside(b[level], a[level], lo, hi)
    requires hi <= Entries(level) && MergedInside(b, level, lo, hi)
    requires MergedOutside(a, level, lo, hi)
    ensures Merged(b, level)
  {
    hide Merge, Pow2;
    forall i: nat | i < Entries(level) ensures b[level][i] == MergedChildren(b, level, i) {
      assert !(lo <= i < hi) ==> a[level][i] == MergedChildren(a, level, i);
      assert Children(a, level, i) == Children(b, level, i);
    }
  }

  class PageAlloc {
    var summary: Levels
    var chunks: seq<array<Word>>

    ghost predicate Valid()
      reads this, chunks
    {
      && Shaped(summary)
      && |chunks| == Entries(4)
      && forall c | 0 <= c < |chunks| :: chunks[c].Length == 8
    }

    /** The leaf summary of chunk c is exact. */
    ghost predicate LeafExact(c: nat)
      requires Valid() && c < |chunks|
      reads this, chunks
    {
      Summarizes(Pages(chunks[c][..]), Unpack(summary[4][c]))
    }

    /** The chunks strictly between sc and ec are wholly allocated, or wholly free. */
    ghost predicate WholeBetween(sc: nat, ec: nat, alloc: bool)
      requires Valid()
      reads this, chunks
    {
      forall c: nat :: sc < c < ec && c < |chunks| ==>
        if alloc then AllSet(Pages(chunks[c][..])) else Free(Pages(chunks[c][..]), 0, CHUNK_PAGES)
    }

    ghost predicate LeavesExactOutside(lo: nat, hi: nat)
      requires Valid()
      reads this, chunks
    {
      forall c: nat :: c < |chunks| && !(lo <= c < hi) ==> LeafExact(c)
    }

    /** Every leaf is exact and every other summary is the merge of its children. */
    ghost predicate TreeExact()
      requires Valid()
      reads this, chunks
    {
      LeavesExactOutside(0, 0) && forall l: nat :: l < LEVELS - 1 ==> Merged(summary, l)
    }

    /** The pages below entry i of a level, in address order. */
    ghost function NodePages(level: nat, i: nat): Bitmap
      requires Valid() && level < LEVELS && i < Entries(level)
      reads this, chunks
      decreases 2 * (LEVELS - level)
    {
      if level == 4 then Pages(chunks[i][..]) else Flatten(ChildPages(level, i, CHILDREN))
    }

    ghost function ChildPages(level: nat, i: nat, n: nat): (r: seq<Bitmap>)
      requires Valid() && level < LEVELS - 1 && i < Entries(level) && n <= CHILDREN
      reads this, chunks
      ensures |r| == n
      ensures forall k | 0 <= k < n :: r[k] == NodePages(level + 1, CHILDREN * i + k)
      decreases 2 * (LEVELS - level) - 1, n
    {
      if n == 0 then []
      else ChildPages(level, i, n - 1) + [NodePages(level + 1, CHILDREN * i + n - 1)]
    }

    /** In an exact tree the summary at every level is the exact summary of the pages below it. */
    lemma {:induction false} NodeExact(level: nat, i: nat)
      requires Valid() && TreeExact() && level < LEVELS && i < Entries(level)
      ensures |NodePages(level, i)| == Pow2(LevelLogPages(level))
      ensures Summarizes(NodePages(level, i), Unpack(summary[level][i]))
      decreases LEVELS - level
    {
      hide Merge, Unpack, Pages, Flatten, Summarizes, MergeState, Pow2, Entries;
      PagesPerLevel(level);
      if level == 4 {
        assert LeafExact(i);
      } else {
        EntriesBelow(level, i);
        var sums, blocks := Children(summary, level, i), ChildPages(level, i, CHILDREN);
        var size := Pow2(LevelLogPages(level + 1));
        forall k | 0 <= k < CHILDREN
          ensures |blocks[k]| == size && Summarizes(blocks[k], Unpack(sums[k]))
        {
          NodeExact(level + 1, CHILDREN * i + k);
        }
        assert Merged(summary, level);
        MergeStateExact(sums, blocks, size);
        MergeExact(sums, blocks, size);
      }
    }

    /** Recomputes entries [lo, hi) of a level from the level below; `changed` tells whether any differed. */
    method UpdateLevel(level: nat, lo: nat, hi: nat) returns (changed: bool)
      requires Valid() && level < LEVELS - 1 && lo <= hi <= Entries(level)
      modifies this`summary
      ensures Valid()
      ensures summary == old(summary)[level := summary[level]]
      ensures SameOutside(summary[level], old(summary)[level], lo, hi)
      ensures MergedInside(summary, level, lo, hi)
      ensures changed <==> summary != old(summary)
      ensures old(LeavesExactOutside(0, 0)) ==> LeavesExactOutside(0, 0)
    {
      hide Merge, Pow2, Summarizes, Unpack, Pages;
      changed := false;
      ghost var was := summary;
      for i := lo to hi
        invariant Shaped(summary) && summary == was[level := summary[level]]
        invariant SameOutside(summary[level], was[level], lo, i)
        invariant forall k: nat | lo <= k < i :: summary[level][k] == MergedChildren(was, level, k)
        invariant if changed then summary[level] != was[level] else summary == was
      {
        var children := summary[level + 1][CHILDREN * i..CHILDREN * i + CHILDREN];
        assert children == Children(was, level, i);
        var sum := MergeSummaries(children, LevelLogPages(level + 1));
        var old' := summary[level][i];
        if old' != sum {
          changed := true;
          summary := WithEntry(summary, level, i, sum);
          assert summary[level][i] != was[level][i];
        }
      }
      assert forall k: nat | lo <= k < hi :: Children(summary, level, k) == Children(was, level, k);
      forall c: nat | c < |chunks| && old(LeafExact(c)) ensures LeafExact(c) {
      }
    }

    /** Writes an exact leaf summary; the other leaves keep theirs. */
    method SetLeaf(c: nat, y: PallocSum, ghost lo: nat, ghost hi: nat)
      requires Valid() && c < |chunks| && Summarizes(Pages(chunks[c][..]), Unpack(y))
      requires lo <= c < hi && LeavesExactOutside(lo, hi)
      modifies this`summary
      ensures Valid() && summary == old(WithEntry(summary, 4, c, y))
      ensures c == lo ==> LeavesExactOutside(lo + 1, hi)
      ensures c + 1 == hi ==> LeavesExactOutside(lo, c)
    {
      hide Summarizes, Unpack, Pages, Entries;
      summary := WithEntry(summary, 4, c, y);
      assert LeafExact(c);
      forall k: nat | k < |chunks| && !(lo <= k < hi) ensures LeafExact(k) {
        assert old(LeafExact(k));
      }
    }

    lemma AlreadyExact(c: nat)
      requires Valid() && c < |chunks| && LeavesExactOutside(c, c + 1)
      requires Summarizes(Pages(chunks[c][..]), Unpack(summary[4][c]))
      ensures LeavesExactOutside(0, 0)
    {
    }

    /** Recomputes the leaf summaries of chunks sc..ec; false when the one chunk's summary did not change. */
    method UpdateLeaves(sc: nat, ec: nat, contig: bool, alloc: bool) returns (changed: bool)
      requires Valid() && sc <= ec < |chunks| && LeavesExactOutside(sc, ec + 1)
      requires contig ==> WholeBetween(sc, ec, alloc)
      modifies this`summary
      ensures Valid() && LeavesExactOutside(0, 0)
      ensures summary == old(summary)[4 := summary[4]]
      ensures SameOutside(summary[4], old(summary)[4], sc, ec + 1)
      ensures changed <==> sc < ec || summary != old(summary)
    {
      hide Summarizes, Unpack, Pages, Entries, LeafExact;
      ghost var was := summary;
      if sc == ec {
        var x := summary[4][sc];
        var y := Summarize(chunks[sc]);
        if x == y {
          AlreadyExact(sc);
          return false;
        }
        SetLeaf(sc, y, sc, sc + 1);
        assert summary[4][sc] != was[4][sc];
      } else if contig {
        var y := Summarize(chunks[sc]);
        SetLeaf(sc, y, sc, ec + 1);
        for c := sc + 1 to ec
          invariant Valid() && summary == was[4 := summary[4]]
          invariant SameOutside(summary[4], was[4], sc, c) && LeavesExactOutside(c, ec + 1)
        {
          WholeChunkSums(Pages(chunks[c][..]));
          SetLeaf(c, WholeChunkSum(alloc), c, ec + 1);
        }
        y := Summarize(chunks[ec]);
        SetLeaf(ec, y, ec, ec + 1);
      } else {
        for c := sc to ec + 1
          invariant Valid() && summary == was[4 := summary[4]]
          invariant SameOutside(summary[4], was[4], sc, c) && LeavesExactOutside(c, ec + 1)
        {
          var y := Summarize(chunks[c]);
          SetLeaf(c, y, c, ec + 1);
        }
      }
      changed := true;
    }

    /**
     Brings the tree back to exactness after any change to the bitmaps of the chunks that
     [base, base + npages pages) touches.
    */
    method Update(base: nat, npages: nat, contig: bool, alloc: bool)
      requires Valid() && InSpace(base, npages)
      requires
        var limit := (base + npages * PAGE_SIZE - 1) % WORD_MOD;
        var sc, ec := ChunkIndex(base), ChunkIndex(limit);
        && LeavesExactOutside(sc, ec + 1)
        && (forall l: nat :: l < LEVELS - 1 ==> Merged(summary, l))
        && (contig ==> WholeBetween(sc, ec, alloc))
      modifies this`summary
      ensures Valid() && TreeExact()
    {
      hide Merged, MergedOutside, MergedInside, Entries, LevelBytes, Pages, AllSet, Linear, ChunkIndex,
        SummaryRange, SameOutside, InSpace, LeafExact, WholeBetween;
      var limit := (base + npages * PAGE_SIZE - 1) % WORD_MOD;
      var top := (base + npages * PAGE_SIZE) % WORD_MOD;   // limit + 1
      var sc, ec := ChunkIndex(base), ChunkIndex(limit);
      LinearOffset(base, npages);
      LeafRange(base, limit, top);
      ghost var a := summary;
      var changed := UpdateLeaves(sc, ec, contig, alloc);
      if !changed {
        return;
      }
      var l := LEVELS - 2;
      var (lo, hi) := SummaryRange(l, base, top);
      AfterLeaves(a, summary, sc, ec + 1, base, top);
      while l >= 0 && changed
        invariant -1 <= l <= 3 && Valid() && LeavesExactOutside(0, 0)
        invariant l >= 0 ==> (lo, hi) == SummaryRange(l, base, top) && lo < hi <= Entries(l)
        invariant l >= 0 && changed ==> MergedOutside(summary, l, lo, hi)
        invariant forall m: nat :: m < LEVELS - 1 && (!changed || m != l) ==> Merged(summary, m)
      {
        ghost var b := summary;
        changed := UpdateLevel(l, lo, hi);
        LevelDone(b, summary, l, lo, hi, base, top, changed);
        l := l - 1;
        if l >= 0 {
          lo, hi := SummaryRange(l, base, top).0, SummaryRange(l, base, top).1;
        }
      }
    }
  }
}
