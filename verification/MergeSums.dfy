/**
 Merging the packed summaries of consecutive, equally large blocks.
*/
module MergeSums {
  import opened Runs
  import opened Words
  import opened PallocSums

  /** The running summary of the first blocks, each of `size` pages. */
  function MergeState(sums: seq<PallocSum>, size: nat): Summary
    requires |sums| > 0
  {
    if |sums| == 1 then Unpack(sums[0])
    else Joined((|sums| - 1) * size, size, MergeState(sums[..|sums| - 1], size), Unpack(sums[|sums| - 1]))
  }

  function Merge(sums: seq<PallocSum>, size: nat): PallocSum
    requires |sums| > 0
  {
    var m := MergeState(sums, size);
    Pack(m.start, m.max, m.end)
  }

  /** The loop over the summaries, with blocks of 2^logMaxPagesPerSum pages. */
  method MergeSummaries(sums: seq<PallocSum>, logMaxPagesPerSum: nat) returns (sum: PallocSum)
    requires |sums| > 0
    ensures sum == Merge(sums, Pow2(logMaxPagesPerSum))
  {
    hide Unpack, Pow2, Pack;
    ghost var size := Pow2(logMaxPagesPerSum);
    var s0 := Unpack(sums[0]);
    var start: nat, max: nat, end: nat := s0.start, s0.max, s0.end;
    assert sums[..1] == [sums[0]];
    for i := 1 to |sums|
      invariant MergeState(sums[..i], size) == Summary(start, max, end)
    {
      assert sums[..i + 1][..i] == sums[..i];
      var s := Unpack(sums[i]);
      var si, mi, ei := s.start, s.max, s.end;
      if start == i * Pow2(logMaxPagesPerSum) {
        start := start + si;
      }
      if end + si > max {
        max := end + si;
      }
      if mi > max {
        max := mi;
      }
      if ei == Pow2(logMaxPagesPerSum) {
        end := end + Pow2(logMaxPagesPerSum);
      } else {
        end := ei;
      }
    }
    assert sums[..|sums|] == sums;
    sum := Pack(start, max, end);
  }

  ghost function Flatten(blocks: seq<Bitmap>): Bitmap {
    if |blocks| == 0 then [] else Flatten(blocks[..|blocks| - 1]) + blocks[|blocks| - 1]
  }

  /** Exact summaries of equally large blocks, in the same order. */
  ghost predicate ExactBlocks(sums: seq<PallocSum>, blocks: seq<Bitmap>, size: nat) {
    && |sums| == |blocks| > 0
    && forall k | 0 <= k < |sums| :: |blocks[k]| == size && Summarizes(blocks[k], Unpack(sums[k]))
  }

  lemma {:induction false} MergeStateExact(sums: seq<PallocSum>, blocks: seq<Bitmap>, size: nat)
    requires ExactBlocks(sums, blocks, size)
    ensures |Flatten(blocks)| == |blocks| * size
    ensures Summarizes(Flatten(blocks), MergeState(sums, size))
  {
    hide Summarizes, Unpack, Joined;
    var n := |sums| - 1;
    if n == 0 {
      assert Flatten(blocks[..0]) == [];
      assert Flatten(blocks) == blocks[0];
    } else {
      MergeStateExact(sums[..n], blocks[..n], size);
      JoinExact(Flatten(blocks[..n]), blocks[n], MergeState(sums[..n], size), Unpack(sums[n]));
      assert n * size + size == |blocks| * size;
    }
  }

  /**
   Merging is a homomorphism: from exact summaries of equally large blocks it makes the exact
   summary of their concatenation, up to the 2^21 pages one summary word can describe.
  */
  lemma MergeExact(sums: seq<PallocSum>, blocks: seq<Bitmap>, size: nat)
    requires ExactBlocks(sums, blocks, size) && |blocks| * size <= MAX_PACKED
    ensures Summarizes(Flatten(blocks), Unpack(Merge(sums, size)))
  {
    hide Summarizes, Unpack, Pack, Legal;
    MergeStateExact(sums, blocks, size);
    ExactIsLegal(Flatten(blocks), MergeState(sums, size));
    PackRoundTrip(MergeState(sums, size));
  }
}
