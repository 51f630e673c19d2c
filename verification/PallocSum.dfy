/**
 Packed summaries: three run lengths in one 64-bit word, 21 bits each, with bit 63 standing
 for a block whose every run is the saturated value 2^21.
*/
module PallocSums {
  import opened Runs

  const MAX_PACKED: nat := 0x20_0000        // 2^21
  const TOP_BIT: nat := 0x8000_0000_0000_0000

  type PallocSum = p: nat | p < 0x1_0000_0000_0000_0000

  function Pack(start: nat, max: nat, end: nat): PallocSum {
    if max == MAX_PACKED then TOP_BIT
    else start % MAX_PACKED + (max % MAX_PACKED) * MAX_PACKED + (end % MAX_PACKED) * (MAX_PACKED * MAX_PACKED)
  }

  predicate TopBitSet(p: PallocSum) { p / TOP_BIT % 2 == 1 }

  function Start(p: PallocSum): nat { if TopBitSet(p) then MAX_PACKED else p % MAX_PACKED }

  function Longest(p: PallocSum): nat { if TopBitSet(p) then MAX_PACKED else p / MAX_PACKED % MAX_PACKED }

  function End(p: PallocSum): nat {
    if TopBitSet(p) then MAX_PACKED else p / (MAX_PACKED * MAX_PACKED) % MAX_PACKED
  }

  function Unpack(p: PallocSum): Summary { Summary(Start(p), Longest(p), End(p)) }

  /** The triples a summary word can hold: all below 2^21, or all equal to it. */
  predicate Legal(s: Summary) {
    || (s.start < MAX_PACKED && s.max < MAX_PACKED && s.end < MAX_PACKED)
    || s == Summary(MAX_PACKED, MAX_PACKED, MAX_PACKED)
  }

  /** Packing loses nothing on legal triples, the saturated one included. */
  lemma PackRoundTrip(s: Summary)
    requires Legal(s)
    ensures Unpack(Pack(s.start, s.max, s.end)) == s
  {
    hide Pack;
    PackLayout(s.start, s.max, s.end);
    if s.max != MAX_PACKED {
      Digits(s.start, s.max, s.end);
    } else {
      assert TopBitSet(TOP_BIT);
    }
  }

  lemma Digits(a: nat, b: nat, c: nat)
    requires a < MAX_PACKED && b < MAX_PACKED && c < MAX_PACKED
    ensures
      var p := a + b * MAX_PACKED + c * (MAX_PACKED * MAX_PACKED);
      p < TOP_BIT && p % MAX_PACKED == a && p / MAX_PACKED % MAX_PACKED == b
      && p / (MAX_PACKED * MAX_PACKED) % MAX_PACKED == c
  {
    var p := a + b * MAX_PACKED + c * (MAX_PACKED * MAX_PACKED);
    assert p / MAX_PACKED == b + c * MAX_PACKED;
  }

  /** The start is in the 21 lowest bits, the maximum in the next ones, the end above; 2^63 says that all are 2^21. */
  lemma PackLayout(start: nat, max: nat, end: nat)
    requires Legal(Summary(start, max, end))
    ensures Pack(start, max, end)
            == if max == 0x20_0000 then 0x8000_0000_0000_0000 else start + 0x20_0000 * max + 0x400_0000_0000 * end
  {
  }

  /** Exactly the legal triples survive packing. */
  lemma OnlyLegalSurvive(s: Summary)
    requires Unpack(Pack(s.start, s.max, s.end)) == s
    ensures Legal(s)
  {
    var p := Pack(s.start, s.max, s.end);
    if s.max == MAX_PACKED {
      assert TopBitSet(p);
    } else {
      Digits(s.start % MAX_PACKED, s.max % MAX_PACKED, s.end % MAX_PACKED);
    }
  }

  /** The exact summary of a block of at most 2^21 pages is always legal. */
  lemma ExactIsLegal(bits: Bitmap, s: Summary)
    requires Summarizes(bits, s) && |bits| <= MAX_PACKED
    ensures Legal(s)
  {
    var i: nat :| Free(bits, i, s.max);
    assert Free(bits, 0, s.start) && Free(bits, |bits| - s.end, s.end);
    if s.max == MAX_PACKED {
      assert Free(bits, 0, |bits|);
      AllFreeSummary(bits);
      SummaryUnique(bits, s, Summary(|bits|, |bits|, |bits|));
    }
  }
}
