/**
 The 512-page chunk bitmap: eight words, page 64*i + j at bit j of word i.
*/
module PallocBits {
  import opened Runs
  import opened Words
  import opened PallocSums

  const CHUNK_PAGES: nat := 512
  const NOT_SET: nat := 0xFFFF_FFFF_FFFF_FFFF   // ^uint(0)

  /** The page bitmap a list of words holds. */
  function Pages(b: seq<Word>): (bits: Bitmap)
    ensures |bits| == 64 * |b|
  {
    if |b| == 0 then [] else Pages(b[..|b| - 1]) + b[|b| - 1]
  }

  lemma {:induction false} PageAt(b: seq<Word>, i: nat)
    requires i < 64 * |b|
    ensures Pages(b)[i] == b[i / 64][i % 64]
  {
    if i < 64 * (|b| - 1) {
      PageAt(b[..|b| - 1], i);
    } else {
      assert i / 64 == |b| - 1;
    }
  }

  // ---------------------------------------------------------------- summarize

  /** The longest free run inside a single word. */
  ghost function Inner(b: seq<Word>): nat {
    if |b| == 0 then 0 else Max(Inner(b[..|b| - 1]), SummaryOf(b[|b| - 1]).max)
  }

  ghost predicate OneIn(w: Word, lo: nat, hi: nat) {
    exists t | lo <= t <= hi && t < 64 :: w[t]
  }

  /** x is w moved down d places, with every run of zeros shrunk by s from the top. */
  ghost predicate Dilated(w: Word, d: nat, s: nat, x: Word) {
    forall i | 0 <= i < 64 :: x[i] == OneIn(w, d + i, d + i + s)
  }

  lemma DilateStep(w: Word, d: nat, s: nat, k: nat, x: Word)
    requires Dilated(w, d, s, x) && k <= s + 1
    ensures Dilated(w, d, s + k, Or(x, Shr(x, k)))
  {
    var y := Or(x, Shr(x, k));
    forall i: nat | i < 64 ensures y[i] == OneIn(w, d + i, d + i + s + k) {
      assert y[i] == (x[i] || (i + k < 64 && x[i + k]));
      if OneIn(w, d + i, d + i + s + k) {
        var t :| d + i <= t <= d + i + s + k && t < 64 && w[t];
        if t <= d + i + s {
          assert OneIn(w, d + i, d + i + s);
        } else {
          assert OneIn(w, d + (i + k), d + (i + k) + s);
        }
      }
    }
  }

  lemma DilateDrop(w: Word, d: nat, s: nat, j: nat, x: Word)
    requires Dilated(w, d, s, x)
    ensures Dilated(w, d + j, s, Shr(x, j))
  {
    forall i: nat | i < 64 ensures Shr(x, j)[i] == OneIn(w, d + j + i, d + j + i + s) {
      if i + j < 64 {
        assert x[i + j] == OneIn(w, d + (i + j), d + (i + j) + s);
      }
    }
  }

  /** Runs of w that begin below d are no longer than max. */
  ghost predicate LowRunsBounded(w: Word, d: nat, max: nat) {
    forall a: nat, n: nat :: a < d && Free(w, a, n) ==> n <= max
  }

  /** Once the shrunk word has zeros only at the top, no run of w is longer than max. */
  lemma ShrunkAway(w: Word, d: nat, s: nat, x: Word, max: nat)
    requires Dilated(w, d, s, x) && OnesAtBottom(x) && s <= max
    requires LowRunsBounded(w, d, max) && LeadingZeros(w) <= max
    ensures forall a: nat, n: nat :: Free(w, a, n) ==> n <= max
  {
    OnesAtBottomMeaning(x);
    forall a: nat, n: nat | Free(w, a, n) && a >= d && n > s && a < 64 ensures n <= max {
      assert !x[a - d];
      forall t | a <= t < 64 ensures !w[t] {
        assert !x[t - d];
        assert !OneIn(w, d + (t - d), d + (t - d) + s);
      }
      assert 64 - LeadingZeros(w) <= a;
    }
  }

  /** What the lowest zero run left after shrinking says about w. */
  lemma LowestRun(w: Word, d: nat, max: nat, x: Word, j1: nat, j: nat)
    requires Dilated(w, d, max, x) && x[0] && LowRunsBounded(w, d, max)
    requires j1 + j < 64 && j > 0
    requires forall i | 0 <= i < j1 :: x[i]
    requires forall i | j1 <= i < j1 + j :: !x[i]
    requires x[j1 + j]
    ensures d + j1 + j + max < 64
    ensures Free(w, d + j1, max + j)
    ensures LowRunsBounded(w, d + j1 + j, max + j)
  {
    assert OneIn(w, d + (j1 + j), d + (j1 + j) + max);
    forall t | d + j1 <= t < d + j1 + j + max && t < 64 ensures !w[t] {
      var i := if t <= d + j1 + max then j1 else t - d - max;
      assert !x[i];
      assert !OneIn(w, d + i, d + i + max);
    }
    var t :| d + j1 + j <= t <= d + j1 + j + max && t < 64 && w[t];
    assert t == d + j1 + j + max;
    forall a: nat, n: nat | d <= a < d + j1 + j && Free(w, a, n) ensures n <= max + j {
      if a < d + j1 {
        assert x[a - d];
        assert OneIn(w, d + (a - d), d + (a - d) + max);
        var u :| a <= u <= a + max && u < 64 && w[u];
      }
    }
  }

  /** Trailing zeros, as a position. */
  lemma FirstOne(x: Word, hi: nat)
    requires hi < 64 && x[hi]
    ensures TrailingZeros(x) <= hi && x[TrailingZeros(x)] && forall i | 0 <= i < TrailingZeros(x) :: !x[i]
  {
  }

  /** Where the low ones and the lowest zero run of x end, as the trailing-zero counts find them. */
  lemma LowestRunFound(x: Word, j1: nat, x1: Word, j: nat, x2: Word)
    requires x[0] && !OnesAtBottom(x)
    requires j1 == TrailingZeros(Not(x)) && x1 == Shr(x, j1) && j == TrailingZeros(x1) && x2 == Shr(x1, j)
    ensures 0 < j && j1 + j < 64 && x[j1 + j]
    ensures forall i | 0 <= i < j1 :: x[i]
    ensures forall i | j1 <= i < j1 + j :: !x[i]
    ensures x2[0]
  {
    hide OnesAtBottom, TrailingZeros;
    OnesAtBottomMeaning(x);
    var lo, hi :| 0 <= lo < hi < 64 && x[hi] && !x[lo];
    FirstOne(Not(x), lo);
    assert forall i | 0 <= i < j1 :: x[i] == !Not(x)[i];
    assert x1[hi - j1];
    FirstOne(x1, hi - j1);
    assert x1[0] == x[j1];
    forall i | j1 <= i < j1 + j ensures !x[i] {
      assert x[i] == x1[i - j1];
    }
  }

  lemma HasZero(x: Word)
    requires !OnesAtBottom(x)
    ensures TrailingZeros(Not(x)) < 64
  {
    OnesAtBottomMeaning(x);
    var lo, hi :| 0 <= lo < hi < 64 && x[hi] && !x[lo];
    assert Not(x)[lo];
  }

  /** One harvest: skip the low ones and the lowest zero run of x, whose length j raises the maximum. */
  lemma Harvest(w: Word, d: nat, max: nat, x: Word, j1: nat, x1: Word, j: nat, x2: Word)
    requires Dilated(w, d, max, x) && x[0] && LowRunsBounded(w, d, max) && !OnesAtBottom(x)
    requires j1 == TrailingZeros(Not(x)) && x1 == Shr(x, j1) && j == TrailingZeros(x1) && x2 == Shr(x1, j)
    ensures 0 < j && j1 + j < 64 && d + j1 + j + max < 64
    ensures Dilated(w, d + j1 + j, max, x2) && x2[0]
    ensures HasRun(w, max + j) && LowRunsBounded(w, d + j1 + j, max + j)
  {
    hide OnesAtBottom, Dilated, Shr, Not, LowRunsBounded;
    LowestRunFound(x, j1, x1, j, x2);
    LowestRun(w, d, max, x, j1, j);
    DilateDrop(w, d, max, j1, x);
    DilateDrop(w, d + j1, max, j, x1);
  }

  /** Before any shrinking: drop the trailing zeros, which are a run no longer than max. */
  lemma TrailingDropped(w: Word, max: nat)
    requires TrailingZeros(w) <= max < 64
    ensures Dilated(w, TrailingZeros(w), 0, Shr(w, TrailingZeros(w)))
    ensures Shr(w, TrailingZeros(w))[0]
    ensures LowRunsBounded(w, TrailingZeros(w), max)
  {
    assert forall i | 0 <= i < 64 :: w[i] == OneIn(w, 0 + i, 0 + i + 0);
    DilateDrop(w, 0, 0, TrailingZeros(w), w);
  }

  lemma RaisedExactly(w: Word, max0: nat, max: nat)
    requires max0 <= max && (max == max0 || HasRun(w, max))
    requires forall a: nat, n: nat :: Free(w, a, n) ==> n <= max
    ensures max == Max(max0, SummaryOf(w).max)
  {
  }

  /**
   Raises `max` to the longest free run inside the word w, when that is longer. Runs of zeros
   are shrunk by `max` places, doubling the shift while the runs of ones allow it; what is left
   of the lowest zero run is what the maximum grows by.
   */
  method RaiseMax(w: Word, max0: nat) returns (max: nat)
    requires max0 < 64 && TrailingZeros(w) <= max0 && LeadingZeros(w) <= max0
    ensures max == Max(max0, SummaryOf(w).max)
  {
    hide *;
    max := max0;
    ghost var d, s := TrailingZeros(w), 0;
    TrailingDropped(w, max0);
    var x := Shr(w, TrailingZeros(w) % 64);
    var p, k := max, 1;
    var done := OnesAtBottom(x);
    while !done
      invariant 0 <= d <= 64 && 0 <= s
      invariant Dilated(w, d, s, x) && x[0] && done == OnesAtBottom(x)
      invariant 1 <= k <= s + 1 && (if done then s <= max else s + p == max)
      invariant max0 <= max < 64
      invariant max == max0 || HasRun(w, max)
      invariant LowRunsBounded(w, d, max)
      decreases 64 - d, !done
    {
      x, k, done, s := ShrinkZeros(w, d, s, x, p, k);
      if done { break; }
      var j1 := TrailingZeros(Not(x));
      HasZero(x);
      var x1 := Shr(x, j1 % 64);
      var j := TrailingZeros(x1);
      Harvest(w, d, max, x, j1, x1, j, Shr(x1, j));
      x, d := Shr(x1, j % 64), d + j1 + j;
      max := max + j;
      p := j;
      done := OnesAtBottom(x);
    }
    ShrunkAway(w, d, s, x, max);
    RaisedExactly(w, max0, max);
  }

  /** The inner loop: shrinks every zero run of x by p, stopping early once only top zeros are left. */
  method ShrinkZeros(ghost w: Word, ghost d: nat, ghost s0: nat, x0: Word, p0: nat, k0: nat)
    returns (x: Word, k: nat, done: bool, ghost s: nat)
    requires Dilated(w, d, s0, x0) && x0[0] && !OnesAtBottom(x0)
    requires 1 <= k0 <= s0 + 1 && s0 + p0 < 64
    ensures Dilated(w, d, s, x) && x[0] && done == OnesAtBottom(x)
    ensures 1 <= k <= s + 1
    ensures if done then s <= s0 + p0 else s == s0 + p0
  {
    hide Dilated, OnesAtBottom, Shr;
    var p: nat;
    x, p, k, s := x0, p0, k0, s0;
    while p > 0
      invariant Dilated(w, d, s, x) && x[0] && !OnesAtBottom(x)
      invariant s + p == s0 + p0 && 1 <= k <= s + 1
      decreases p
    {
      if p <= k {
        DilateStep(w, d, s, p, x);
        x, s := Or(x, Shr(x, p % 64)), s + p;
        return x, k, OnesAtBottom(x), s;
      }
      DilateStep(w, d, s, k, x);
      x, s := Or(x, Shr(x, k % 64)), s + k;
      if OnesAtBottom(x) {
        return x, k, true, s;
      }
      p := p - k;
      k := k * 2;
    }
    done := false;
  }

  lemma InnerStep(b: seq<Word>, i: nat)
    requires i < |b|
    ensures Inner(b[..i + 1]) == Max(Inner(b[..i]), SummaryOf(b[i]).max)
    ensures SummaryOf(Pages(b[..i + 1])) == Joined(64 * i, 64, SummaryOf(Pages(b[..i])), SummaryOf(b[i]))
  {
    assert b[..i + 1][..i] == b[..i];
    SummaryOfConcat(Pages(b[..i]), b[i]);
  }

  /** The summary of one word, as far as its zero counts determine it. */
  lemma WordSummary(x: Word)
    ensures SummaryOf(x).end <= SummaryOf(x).max
    ensures IsZero(x) ==> SummaryOf(x) == Summary(64, 64, 64)
    ensures !IsZero(x) ==>
      && SummaryOf(x).start == TrailingZeros(x) < 64
      && SummaryOf(x).end == LeadingZeros(x) < 64
      && SummaryOf(x).max <= Max(62, Max(TrailingZeros(x), LeadingZeros(x)))
  {
    var s := SummaryOf(x);
    if IsZero(x) {
      AllFreeSummary(x);
      SummaryUnique(x, s, Summary(64, 64, 64));
    } else {
      var q :| 0 <= q < 64 && x[q];
      var t := Summary(TrailingZeros(x), s.max, LeadingZeros(x));
      SummaryUnique(x, s, t);
      var a: nat :| Free(x, a, s.max);
      assert q < a || a + s.max <= q;
    }
  }

  /**
   What the first pass has established after the words b: `cur` is the free run at the top,
   `start` the free run from page 0 once a set bit has been seen, and only runs strictly inside
   one word can still be longer than `max` and `cur`.
  */
  ghost predicate FirstPass(b: seq<Word>, start: nat, max: nat, cur: nat) {
    && Counted(SummaryOf(Pages(b)), 64 * |b|, Inner(b), start, max, cur)
    && EndsBounded(b, Max(max, cur))
  }

  /** No word has more zeros at either end than m. */
  predicate EndsBounded(b: seq<Word>, m: nat) {
    forall k | 0 <= k < |b| :: TrailingZeros(b[k]) <= m && LeadingZeros(b[k]) <= m
  }

  lemma EndsBoundedStep(b: seq<Word>, i: nat, m: nat, m': nat)
    requires i < |b| && EndsBounded(b[..i], m) && m <= m'
    requires TrailingZeros(b[i]) <= m' && LeadingZeros(b[i]) <= m'
    ensures EndsBounded(b[..i + 1], m')
  {
    hide TrailingZeros, LeadingZeros;
    assert forall k | 0 <= k < i :: b[..i + 1][k] == b[..i][k];
  }

  predicate Counted(s: Summary, len: nat, inner: nat, start: nat, max: nat, cur: nat) {
    && cur == s.end
    && (if start == NOT_SET then s == Summary(len, len, len) && max == 0 else start == s.start && start < len)
    && s.max == Max(Max(max, cur), inner)
    && inner <= Max(62, Max(max, cur))
  }

  lemma CountWord(s: Summary, w: Summary, len: nat, inner: nat, start: nat, max: nat, cur: nat)
    requires Counted(s, len, inner, start, max, cur) && len < 512 && w.end <= w.max
    ensures
      var s' := Joined(len, 64, s, w);
      var inner' := Max(inner, w.max);
      && (w == Summary(64, 64, 64) ==> Counted(s', len + 64, inner', start, max, cur + 64))
      && (w.start < 64 && w.end < 64 && w.max <= Max(62, Max(w.start, w.end)) ==>
        var c := cur + w.start;
        Counted(s', len + 64, inner', if start == NOT_SET then c else start, Max(max, c), w.end))
  {
  }

  lemma FirstPassStep(b: seq<Word>, i: nat, start: nat, max: nat, cur: nat)
    requires i < |b| <= 8 && FirstPass(b[..i], start, max, cur)
    ensures IsZero(b[i]) ==> FirstPass(b[..i + 1], start, max, cur + 64)
    ensures !IsZero(b[i]) ==>
      var c := cur + TrailingZeros(b[i]);
      FirstPass(b[..i + 1], if start == NOT_SET then c else start, Max(max, c), LeadingZeros(b[i]))
  {
    hide SummaryOf, Pages, Inner, TrailingZeros, LeadingZeros, Counted, Joined, EndsBounded, IsZero, Free, IsStart,
        IsEnd;
    InnerStep(b, i);
    WordSummary(b[i]);
    CountWord(SummaryOf(Pages(b[..i])), SummaryOf(b[i]), 64 * i, Inner(b[..i]), start, max, cur);
    if IsZero(b[i]) {
      EndsBoundedStep(b, i, Max(max, cur), Max(max, cur + 64));
    } else {
      var c := cur + TrailingZeros(b[i]);
      EndsBoundedStep(b, i, Max(max, cur), Max(Max(max, c), LeadingZeros(b[i])));
    }
  }

  lemma FirstPassDone(b: seq<Word>, start: nat, max: nat, cur: nat)
    requires |b| == 8 && FirstPass(b, start, max, cur)
    ensures start == NOT_SET ==> Summarizes(Pages(b), Unpack(Pack(512, 512, 512)))
    ensures start != NOT_SET ==>
      Summarizes(Pages(b), Unpack(Pack(start, Max(Max(max, cur), Inner(b)), cur)))
    ensures Max(max, cur) >= 62 ==> Max(Max(max, cur), Inner(b)) == Max(max, cur)
    ensures EndsBounded(b, Max(max, cur))
  {
    hide Inner, Pack, Unpack, Pages, TrailingZeros, LeadingZeros;
    ExactIsLegal(Pages(b), SummaryOf(Pages(b)));
    PackRoundTrip(SummaryOf(Pages(b)));
  }

  lemma FirstPassStart()
    ensures FirstPass([], NOT_SET, 0, 0)
  {
  }

  /** The first pass: zero counts at both ends of every word. */
  method CountRuns(b: array<Word>) returns (start: nat, max: nat, cur: nat)
    requires b.Length == 8
    ensures FirstPass(b[..], start, max, cur)
  {
    hide *;
    start, max, cur := NOT_SET, 0, 0;
    FirstPassStart();
    assert b[..0] == [];
    for i := 0 to 8
      invariant FirstPass(b[..i], start, max, cur)
    {
      FirstPassStep(b[..], i, start, max, cur);
      assert b[..][..i] == b[..i] && b[..][..i + 1] == b[..i + 1];
      var x := b[i];
      if IsZero(x) {
        cur := cur + 64;
        continue;
      }
      var t := TrailingZeros(x);
      var l := LeadingZeros(x);
      cur := cur + t;
      if start == NOT_SET {
        start := cur;
      }
      max := Max(max, cur);
      cur := l;
    }
    assert b[..8] == b[..];
  }

  /** The packed exact summary of the chunk. */
  method Summarize(b: array<Word>) returns (sum: PallocSum)
    requires b.Length == 8
    ensures Summarizes(Pages(b[..]), Unpack(sum))
  {
    hide *;
    var start, max, cur := CountRuns(b);
    FirstPassDone(b[..], start, max, cur);
    if start == NOT_SET {
      return Pack(64 * 8, 64 * 8, 64 * 8);
    }
    max := Max(max, cur);
    if max < 64 - 2 {
      max := LongestInside(b, max);
    }
    sum := Pack(start, max, cur);
  }

  lemma InnerBelow64(b: seq<Word>, i: nat)
    requires i <= |b| && EndsBounded(b, 63)
    ensures Inner(b[..i]) < 64
  {
    if i > 0 {
      InnerBelow64(b, i - 1);
      InnerStep(b, i - 1);
      WordSummary(b[i - 1]);
    }
  }

  /** The second pass: looks inside every word for runs of zeros that touch neither end. */
  method LongestInside(b: array<Word>, max0: nat) returns (max: nat)
    requires b.Length == 8 && max0 < 62
    requires EndsBounded(b[..], max0)
    ensures max == Max(max0, Inner(b[..]))
  {
    max := max0;
    for i := 0 to 8
      invariant max == Max(max0, Inner(b[..i]))
    {
      InnerBelow64(b[..], i);
      InnerStep(b[..], i);
      assert b[..][..i] == b[..i] && b[..][..i + 1] == b[..i + 1];
      max := RaiseMax(b[i], max);
    }
    assert b[..8] == b[..];
  }
}
