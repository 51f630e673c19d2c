/**
 Runs of free pages in a page bitmap. A bitmap is a sequence of booleans, page 0 first;
 `true` means allocated and `false` means free.
*/
module Runs {

  type Bitmap = seq<bool>

  function Max(a: nat, b: nat): nat { if a < b then b else a }

  /** Pages [i, i+n) exist and are all free. */
  predicate Free(bits: Bitmap, i: nat, n: nat) {
    && i + n <= |bits|
    && forall j | i <= j < i + n :: !bits[j]
  }

  /** Some n consecutive pages are free. */
  ghost predicate HasRun(bits: Bitmap, n: nat) {
    exists i: nat :: Free(bits, i, n)
  }

  /** `start` is the length of the free run that begins at page 0. */
  ghost predicate IsStart(bits: Bitmap, start: nat) {
    Free(bits, 0, start) && (start < |bits| ==> bits[start])
  }

  /** `end` is the length of the free run that reaches the top page. */
  ghost predicate IsEnd(bits: Bitmap, end: nat) {
    && end <= |bits|
    && Free(bits, |bits| - end, end)
    && (end < |bits| ==> bits[|bits| - end - 1])
  }

  /** `max` is the length of a longest free run anywhere. */
  ghost predicate IsMax(bits: Bitmap, max: nat) {
    HasRun(bits, max) && forall i: nat, n: nat :: Free(bits, i, n) ==> n <= max
  }

  /** The exact summary of a bitmap: leading, longest and trailing free run. */
  datatype Summary = Summary(start: nat, max: nat, end: nat)

  ghost predicate Summarizes(bits: Bitmap, s: Summary) {
    IsStart(bits, s.start) && IsMax(bits, s.max) && IsEnd(bits, s.end)
  }

  lemma ShorterRun(bits: Bitmap, m: nat, n: nat)
    requires m <= n && HasRun(bits, n)
    ensures HasRun(bits, m)
  {
    var i: nat :| Free(bits, i, n);
    assert Free(bits, i, m);
  }

  /** A bitmap has at most one exact summary. */
  lemma SummaryUnique(bits: Bitmap, s: Summary, t: Summary)
    requires Summarizes(bits, s) && Summarizes(bits, t)
    ensures s == t
  {
  }

  /** A fully free bitmap. */
  lemma AllFreeSummary(bits: Bitmap)
    requires Free(bits, 0, |bits|)
    ensures Summarizes(bits, Summary(|bits|, |bits|, |bits|))
  {
  }

  /** A fully allocated bitmap. */
  lemma AllAllocatedSummary(bits: Bitmap)
    requires |bits| > 0 && forall j | 0 <= j < |bits| :: bits[j]
    ensures Summarizes(bits, Summary(0, 0, 0))
  {
    assert Free(bits, 0, 0);
    assert forall i: nat, n: nat :: Free(bits, i, n) && n > 0 ==> !bits[i];
  }

  /** The summary of two adjacent bitmaps, from their summaries. */
  function Joined(aLen: nat, bLen: nat, a: Summary, b: Summary): Summary {
    Summary(
      if a.start == aLen then a.start + b.start else a.start,
      Max(Max(a.max, b.max), a.end + b.start),
      if b.end == bLen then a.end + b.end else b.end)
  }

  /** Every run of a concatenation lies in one part or crosses the boundary. */
  lemma RunInConcat(a: Bitmap, b: Bitmap, i: nat, n: nat, end: nat, start: nat)
    requires Free(a + b, i, n) && IsEnd(a, end) && IsStart(b, start)
    ensures n == 0 || Free(a, i, n) || (i >= |a| && Free(b, i - |a|, n)) || n <= end + start
  {
    var c := a + b;
    if i + n <= |a| {
      assert forall j | i <= j < i + n :: a[j] == c[j];
    } else if i >= |a| {
      assert forall j | i - |a| <= j < i - |a| + n :: b[j] == c[j + |a|];
    } else {
      assert end < |a| ==> c[|a| - end - 1];
      assert start < |b| ==> c[|a| + start];
    }
  }

  lemma FreeInConcat(a: Bitmap, b: Bitmap, i: nat, n: nat)
    ensures Free(a, i, n) ==> Free(a + b, i, n)
    ensures Free(b, i, n) ==> Free(a + b, |a| + i, n)
  {
    assert forall j | |a| <= j < |a| + |b| :: (a + b)[j] == b[j - |a|];
  }

  lemma JoinEnds(a: Bitmap, b: Bitmap, sa: Summary, sb: Summary)
    requires Summarizes(a, sa) && Summarizes(b, sb)
    ensures var s := Joined(|a|, |b|, sa, sb);
            IsStart(a + b, s.start) && IsEnd(a + b, s.end) && Free(a + b, |a| - sa.end, sa.end + sb.start)
  {
    hide IsMax;
    assert forall j | |a| <= j < |a| + |b| :: (a + b)[j] == b[j - |a|];
  }

  lemma JoinMax(a: Bitmap, b: Bitmap, sa: Summary, sb: Summary)
    requires Summarizes(a, sa) && Summarizes(b, sb)
    ensures IsMax(a + b, Joined(|a|, |b|, sa, sb).max)
  {
    hide Free;
    JoinEnds(a, b, sa, sb);
    var i: nat :| Free(a, i, sa.max);
    FreeInConcat(a, b, i, sa.max);
    var k: nat :| Free(b, k, sb.max);
    FreeInConcat(a, b, k, sb.max);
    forall j: nat, n: nat | Free(a + b, j, n) ensures n <= Joined(|a|, |b|, sa, sb).max {
      RunInConcat(a, b, j, n, sa.end, sb.start);
    }
  }

  /** Joining exact summaries of two bitmaps gives the exact summary of their concatenation. */
  lemma JoinExact(a: Bitmap, b: Bitmap, sa: Summary, sb: Summary)
    requires Summarizes(a, sa) && Summarizes(b, sb)
    ensures Summarizes(a + b, Joined(|a|, |b|, sa, sb))
  {
    hide Joined, IsMax, IsStart, IsEnd;
    JoinEnds(a, b, sa, sb);
    JoinMax(a, b, sa, sb);
  }

  /** The exact summary, computed one page at a time: the reference every fast form is measured against. */
  ghost function SummaryOf(bits: Bitmap): (s: Summary)
    ensures Summarizes(bits, s)
  {
    if |bits| == 0 then
      assert Free(bits, 0, 0);
      Summary(0, 0, 0)
    else
      var init, last := bits[..|bits| - 1], bits[|bits| - 1..];
      var s := if last[0] then Summary(0, 0, 0) else Summary(1, 1, 1);
      assert Summarizes(last, s) by {
        if last[0] { AllAllocatedSummary(last); } else { AllFreeSummary(last); }
      }
      JoinExact(init, last, SummaryOf(init), s);
      assert init + last == bits;
      Joined(|init|, 1, SummaryOf(init), s)
  }

  /** Joining reference summaries, as an equation. */
  lemma SummaryOfConcat(a: Bitmap, b: Bitmap)
    ensures SummaryOf(a + b) == Joined(|a|, |b|, SummaryOf(a), SummaryOf(b))
  {
    JoinExact(a, b, SummaryOf(a), SummaryOf(b));
    SummaryUnique(a + b, SummaryOf(a + b), Joined(|a|, |b|, SummaryOf(a), SummaryOf(b)));
  }
}
