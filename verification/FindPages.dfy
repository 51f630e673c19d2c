/**
 Searching a chunk for a run of free pages: the fast word-level searches are first fit.
*/
module FindPages {
  import opened Runs
  import opened Words
  import opened PallocBits

  const NOT_FOUND: nat := 0xFFFF_FFFF_FFFF_FFFF   // ^uint(0)

  // ---------------------------------------------------------------- findBitRange64

  /** Bits [i, i+n) of c are all set. */
  predicate Ones(c: Word, i: nat, n: nat) { i + n <= 64 && forall j | i <= j < i + n :: c[j] }

  /** x keeps exactly the bits of c that begin s + 1 set bits. */
  ghost predicate Eroded(c: Word, s: nat, x: Word) {
    forall i | 0 <= i < 64 :: x[i] == Ones(c, i, s + 1)
  }

  lemma ErodeStep(c: Word, s: nat, k: nat, x: Word)
    requires Eroded(c, s, x) && k <= s + 1
    ensures Eroded(c, s + k, And(x, Shr(x, k)))
  {
    var y := And(x, Shr(x, k));
    forall i: nat | i < 64 ensures y[i] == Ones(c, i, s + k + 1) {
      assert y[i] == (x[i] && i + k < 64 && x[i + k]);
      if x[i] && i + k < 64 && x[i + k] {
        assert Ones(c, i, s + 1) && Ones(c, i + k, s + 1);
      }
      if Ones(c, i, s + k + 1) {
        assert Ones(c, i, s + 1) && Ones(c, i + k, s + 1);
      }
    }
  }

  /**
   The lowest index that begins n set bits, or 64 or more exactly when there is none. Runs of
   ones are shrunk by n - 1 from the top, doubling the shift, and the lowest bit left is the answer.
  */
  method FindBitRange64(c0: Word, n: nat) returns (r: nat)
    requires 1 <= n <= 64
    ensures r < 64 ==> Ones(c0, r, n)
    ensures forall i: nat :: i < r && i < 64 ==> !Ones(c0, i, n)
    ensures r <= 64
  {
    hide *;
    var c := c0;
    var p: nat, k := n - 1, 1;
    ghost var s: nat := 0;
    ErodedAtFirst(c);
    while p > 0
      invariant Eroded(c0, s, c) && s + p == n - 1 && 1 <= k <= s + 1
      decreases p
    {
      if p <= k {
        ErodeStep(c0, s, p, c);
        c, s := And(c, Shr(c, p % 64)), s + p;
        break;
      }
      ErodeStep(c0, s, k, c);
      c, s := And(c, Shr(c, k % 64)), s + k;
      if IsZero(c) {
        ErodedAway(c0, s, n, c);
        return 64;
      }
      p := p - k;
      k := k * 2;
    }
    r := TrailingZeros(c);
    LowestSurvivor(c0, n, c);
  }

  lemma ErodedAtFirst(c: Word)
    ensures Eroded(c, 0, c)
  {
  }

  lemma ErodedAway(c: Word, s: nat, n: nat, x: Word)
    requires Eroded(c, s, x) && IsZero(x) && s < n
    ensures forall i: nat :: i < 64 ==> !Ones(c, i, n)
  {
    forall i: nat | i < 64 ensures !Ones(c, i, n) {
      assert !x[i] && !Ones(c, i, s + 1);
    }
  }

  lemma LowestSurvivor(c: Word, n: nat, x: Word)
    requires n >= 1 && Eroded(c, n - 1, x)
    ensures TrailingZeros(x) < 64 ==> Ones(c, TrailingZeros(x), n)
    ensures forall i: nat :: i < TrailingZeros(x) && i < 64 ==> !Ones(c, i, n)
    ensures TrailingZeros(x) <= 64
  {
    var r := TrailingZeros(x);
    assert r < 64 ==> x[r];
    forall i: nat | i < r && i < 64 ensures !Ones(c, i, n) {
      assert !x[i];
    }
  }

  // ---------------------------------------------------------------- what the searches promise

  /** i begins n free pages, and no page from `from` up to i does. */
  ghost predicate FirstFit(bits: Bitmap, from: nat, n: nat, i: nat) {
    && from <= i && Free(bits, i, n)
    && forall a: nat :: from <= a < i ==> !Free(bits, a, n)
  }

  /** No n free pages lie inside [from, lim). */
  ghost predicate NoFit(bits: Bitmap, from: nat, lim: nat, n: nat) {
    forall a: nat :: from <= a && a + n <= lim ==> !Free(bits, a, n)
  }

  predicate AllAllocated(bits: Bitmap, from: nat, lim: nat) {
    forall p | from <= p < lim && p < |bits| :: bits[p]
  }

  /** idx is the first free page from `from` on, or NOT_FOUND if there is none. */
  predicate FirstFreePage(bits: Bitmap, from: nat, idx: nat) {
    if idx == NOT_FOUND then AllAllocated(bits, from, |bits|)
    else from <= idx < |bits| && !bits[idx] && AllAllocated(bits, from, idx)
  }

  /** The n pages from i on lie inside one word, not at its beginning. */
  predicate Inside(i: nat, n: nat) { i % 64 != 0 && i % 64 + n <= 64 }

  /** The first fit in a search that starts with the word holding searchIdx. */
  ghost predicate Fitted(bits: Bitmap, n: nat, searchIdx: nat, i: nat) {
    var from := searchIdx / 64 * 64;
    if i == NOT_FOUND then NoFit(bits, from, |bits|, n) else FirstFit(bits, from, n, i)
  }

  /**
   The answer of a search word by word: the first fit, and an index that later searches may start
   from. That is the first free page, except that a search that ends inside a word leaves it as it was.
  */
  ghost predicate Answer(bits: Bitmap, n: nat, searchIdx: nat, i: nat, idx: nat) {
    && Fitted(bits, n, searchIdx, i)
    && if i != NOT_FOUND && Inside(i, n) then idx == searchIdx else FirstFreePage(bits, searchIdx / 64 * 64, idx)
  }

  /** The answer of `find`: for a single page both results are the same. */
  ghost predicate Found(bits: Bitmap, n: nat, searchIdx: nat, i: nat, idx: nat) {
    if n == 1 then Fitted(bits, n, searchIdx, i) && idx == i else Answer(bits, n, searchIdx, i, idx)
  }

  /** The index skips no free page, if the one before did not. */
  lemma IndexSkipsNothing(bits: Bitmap, n: nat, searchIdx: nat, i: nat, idx: nat)
    requires Found(bits, n, searchIdx, i, idx) && AllAllocated(bits, 0, searchIdx)
    ensures AllAllocated(bits, 0, idx)
  {
    if n == 1 {
      forall p | 0 <= p < idx && p < |bits| ensures bits[p] {
        if p >= searchIdx / 64 * 64 && !bits[p] {
          assert Free(bits, p, 1);
        }
      }
    }
  }

  // ---------------------------------------------------------------- one word at a time

  /** The free run that reaches `base` from below, counted from `from` on, has length e. */
  ghost predicate TailRun(bits: Bitmap, from: nat, base: nat, e: nat) {
    && from + e <= base <= |bits|
    && Free(bits, base - e, e)
    && (from + e < base ==> bits[base - e - 1])
  }

  /** The word w is the 64 pages of the bitmap from `base` on. */
  predicate WordAt(bits: Bitmap, base: nat, w: Word) {
    && base + 64 <= |bits|
    && forall q | base <= q < base + 64 :: bits[q] == w[q - base]
  }

  lemma PagesWord(b: seq<Word>, i: nat)
    requires i < |b|
    ensures WordAt(Pages(b), 64 * i, b[i])
  {
    forall q | 64 * i <= q < 64 * i + 64 ensures Pages(b)[q] == b[i][q - 64 * i] {
      PageAt(b, q);
      assert q / 64 == i;
    }
  }

  lemma TailShort(bits: Bitmap, from: nat, base: nat, n: nat, e: nat)
    requires TailRun(bits, from, base, e) && NoFit(bits, from, base, n) && n >= 1
    ensures e < n
  {
    assert e >= n ==> Free(bits, base - n, n);
  }

  lemma BoundaryHit(bits: Bitmap, from: nat, base: nat, w: Word, n: nat, e: nat)
    requires TailRun(bits, from, base, e) && NoFit(bits, from, base, n) && WordAt(bits, base, w)
    requires 1 <= n <= e + TrailingZeros(w)
    ensures FirstFit(bits, from, n, base - e)
  {
    forall q | base - e <= q < base - e + n ensures !bits[q] {
      if q >= base { assert !w[q - base]; }
    }
  }

  /** No run of n that starts before `base` reaches it, when the boundary run is too short. */
  lemma NoCrossing(bits: Bitmap, from: nat, base: nat, w: Word, n: nat, e: nat, a: nat)
    requires TailRun(bits, from, base, e) && NoFit(bits, from, base, n) && WordAt(bits, base, w)
    requires e + TrailingZeros(w) < n && from <= a < base && a + n <= base + 64
    ensures !Free(bits, a, n)
  {
    var s := TrailingZeros(w);
    if a + n > base && a >= base - e {
      assert s < 64;
      assert bits[base + s] == w[s];
    }
  }

  lemma InteriorHit(bits: Bitmap, from: nat, base: nat, w: Word, n: nat, e: nat, r: nat)
    requires TailRun(bits, from, base, e) && NoFit(bits, from, base, n) && WordAt(bits, base, w)
    requires e + TrailingZeros(w) < n && r < 64 && Ones(Not(w), r, n)
    requires forall i: nat :: i < r ==> !Ones(Not(w), i, n)
    ensures FirstFit(bits, from, n, base + r)
  {
    InsideWord(bits, base, w, r, n);
    forall a: nat | from <= a < base + r ensures !Free(bits, a, n) {
      if a < base {
        if a + n <= base + 64 {
          NoCrossing(bits, from, base, w, n, e, a);
        }
      } else {
        InsideWord(bits, base, w, a - base, n);
      }
    }
  }

  lemma InsideWord(bits: Bitmap, base: nat, w: Word, i: nat, n: nat)
    requires WordAt(bits, base, w) && i + n <= 64
    ensures Free(bits, base + i, n) <==> Ones(Not(w), i, n)
  {
    if Ones(Not(w), i, n) {
      forall q | base + i <= q < base + i + n ensures !bits[q] {
        assert Not(w)[q - base];
      }
    }
    if Free(bits, base + i, n) {
      forall j | i <= j < i + n ensures Not(w)[j] {
        assert !bits[base + j];
      }
    }
  }

  /** A word without a hit is passed over, and the run at its top is carried on. */
  lemma NoHit(bits: Bitmap, from: nat, base: nat, w: Word, n: nat, e: nat)
    requires TailRun(bits, from, base, e) && NoFit(bits, from, base, n) && WordAt(bits, base, w)
    requires e + TrailingZeros(w) < n
    requires forall i: nat :: i < 64 ==> !Ones(Not(w), i, n)
    ensures NoFit(bits, from, base + 64, n)
    ensures TailRun(bits, from, base + 64, if TrailingZeros(w) == 64 then e + 64 else LeadingZeros(w))
  {
    forall a: nat | from <= a && a + n <= base + 64 ensures !Free(bits, a, n) {
      if a < base {
        NoCrossing(bits, from, base, w, n, e, a);
      } else {
        InsideWord(bits, base, w, a - base, n);
      }
    }
    if TrailingZeros(w) < 64 {
      var l := LeadingZeros(w);
      assert bits[base + 63 - l] == w[63 - l];
      assert forall q | base + 64 - l <= q < base + 64 :: bits[q] == w[q - base];
    }
  }

  // ---------------------------------------------------------------- the searches

  /** idx is the first free page from `from` on, if there is one below `base`. */
  ghost predicate FirstFree(bits: Bitmap, from: nat, base: nat, idx: nat) {
    if idx == NOT_FOUND then AllAllocated(bits, from, base)
    else from <= idx < base <= |bits| && !bits[idx] && AllAllocated(bits, from, idx)
  }

  lemma FirstFreeStep(bits: Bitmap, from: nat, base: nat, w: Word, idx: nat)
    requires from <= base < 512 == |bits| && WordAt(bits, base, w) && FirstFree(bits, from, base, idx)
    ensures IsZero(Not(w)) ==> FirstFree(bits, from, base + 64, idx)
    ensures !IsZero(Not(w)) ==> TrailingZeros(Not(w)) < 64 && base + TrailingZeros(Not(w)) != NOT_FOUND
    ensures !IsZero(Not(w)) && idx == NOT_FOUND ==> FirstFree(bits, from, base + 64, base + TrailingZeros(Not(w)))
    ensures !IsZero(Not(w)) && idx != NOT_FOUND ==> FirstFree(bits, from, base + 64, idx)
  {
    var t := TrailingZeros(Not(w));
    assert forall j | 0 <= j < 64 :: Not(w)[j] == !w[j];
    forall q | base <= q < base + t && q < base + 64 ensures bits[q] {
      assert !Not(w)[q - base];
    }
    if !IsZero(Not(w)) {
      var j :| 0 <= j < 64 && Not(w)[j];
      assert t <= j && Not(w)[t];
      assert bits[base + t] == w[t];
    }
  }

  lemma FullWord(w: Word, n: nat)
    requires IsZero(Not(w)) && n >= 1
    ensures TrailingZeros(w) == 0 && LeadingZeros(w) == 0
    ensures forall i: nat :: i < 64 ==> !Ones(Not(w), i, n)
  {
    forall j | 0 <= j < 64 ensures w[j] {
      assert !Not(w)[j];
    }
    assert w[0] && w[63];
    hide Not;
    forall i: nat | i < 64 ensures !Ones(Not(w), i, n) {
      assert !Not(w)[i];
    }
  }

  lemma FirstFreeFits(bits: Bitmap, from: nat, base: nat, idx: nat)
    requires FirstFree(bits, from, base, idx)
    ensures idx != NOT_FOUND ==> FirstFit(bits, from, 1, idx)
    ensures idx == NOT_FOUND && base == |bits| ==> NoFit(bits, from, |bits|, 1)
  {
    if idx != NOT_FOUND {
      assert Free(bits, idx, 1);
      forall a: nat | from <= a < idx ensures !Free(bits, a, 1) {
        assert bits[a];
      }
    }
    if idx == NOT_FOUND && base == |bits| {
      forall a: nat | from <= a && a + 1 <= |bits| ensures !Free(bits, a, 1) {
        assert bits[a];
      }
    }
  }

  /** One free page: the first one in or after the word holding searchIdx. */
  method Find1(b: array<Word>, searchIdx: nat) returns (i: nat)
    requires b.Length == 8
    ensures Found(Pages(b[..]), 1, searchIdx, i, i)
  {
    ghost var bits, from := Pages(b[..]), searchIdx / 64 * 64;
    var k := searchIdx / 64;
    while k < 8
      invariant (k <= 8 || from == 64 * k) && from <= 64 * k && (k <= 8 ==> FirstFree(bits, from, 64 * k, NOT_FOUND))
    {
      var x := b[k];
      PagesWord(b[..], k);
      FirstFreeStep(bits, from, 64 * k, x, NOT_FOUND);
      if IsZero(Not(x)) {
        k := k + 1;
        continue;
      }
      i := k * 64 + TrailingZeros(Not(x));
      assert Not(x)[TrailingZeros(Not(x))];
      FirstFreeFits(bits, from, 64 * k + 64, i);
      return i;
    }
    if k == 8 {
      FirstFreeFits(bits, from, 512, NOT_FOUND);
    }
    i := NOT_FOUND;
  }

  /** Up to 64 free pages, which cross at most one word boundary. */
  method FindSmallN(b: array<Word>, npages: nat, searchIdx: nat) returns (i: nat, idx: nat)
    requires b.Length == 8 && 1 <= npages <= 64
    ensures Answer(Pages(b[..]), npages, searchIdx, i, idx)
  {
    hide *;
    ghost var bits, from := Pages(b[..]), searchIdx / 64 * 64;
    var end: nat := 0;
    idx := NOT_FOUND;
    var k := searchIdx / 64;
    SearchStart(b[..], searchIdx, npages);
    while k < 8
      invariant from <= 64 * k && (k <= 8 || from == 64 * k)
      invariant k <= 8 ==>
        && TailRun(bits, from, 64 * k, end) && NoFit(bits, from, 64 * k, npages)
        && FirstFree(bits, from, 64 * k, idx)
      invariant k > 8 ==> idx == NOT_FOUND
    {
      var bi := b[k];
      PagesWord(b[..], k);
      TailShort(bits, from, 64 * k, npages, end);
      FirstFreeStep(bits, from, 64 * k, bi, idx);
      if IsZero(Not(bi)) {
        FullWord(bi, npages);
        NoHit(bits, from, 64 * k, bi, npages, end);
        end, k := 0, k + 1;
        continue;
      }
      if idx == NOT_FOUND {
        idx := k * 64 + TrailingZeros(Not(bi));
      }
      var start := TrailingZeros(bi);
      if end + start >= npages {
        BoundaryHit(bits, from, 64 * k, bi, npages, end);
        BoundaryAnswer(bits, 64 * k, npages, end, searchIdx, idx);
        return k * 64 - end, idx;
      }
      var j := FindBitRange64(Not(bi), npages);
      if j < 64 {
        InteriorHit(bits, from, 64 * k, bi, npages, end, j);
        InteriorAnswer(bits, 64 * k, bi, npages, end, j, searchIdx);
        return k * 64 + j, searchIdx;
      }
      NoHit(bits, from, 64 * k, bi, npages, end);
      end, k := LeadingZeros(bi), k + 1;
    }
    SearchEnd(bits, from, 64 * k, npages, searchIdx, idx);
    return NOT_FOUND, idx;
  }

  /** More than 64 free pages, which cross at least one word boundary. */
  method FindLargeN(b: array<Word>, npages: nat, searchIdx: nat) returns (i: nat, idx: nat)
    requires b.Length == 8 && npages > 64
    ensures Answer(Pages(b[..]), npages, searchIdx, i, idx)
  {
    hide *;
    ghost var bits, from := Pages(b[..]), searchIdx / 64 * 64;
    var start, size: nat := NOT_FOUND, 0;
    SearchStart(b[..], searchIdx, npages);
    idx := NOT_FOUND;
    var k := searchIdx / 64;
    while k < 8
      invariant from <= 64 * k && (k <= 8 || from == 64 * k) && size < npages
      invariant k <= 8 ==>
        && TailRun(bits, from, 64 * k, size) && NoFit(bits, from, 64 * k, npages)
        && FirstFree(bits, from, 64 * k, idx)
      invariant k > 8 ==> idx == NOT_FOUND
      invariant size != 0 ==> start == 64 * k - size
    {
      var x := b[k];
      PagesWord(b[..], k);
      FirstFreeStep(bits, from, 64 * k, x, idx);
      NoneInside(x, npages);
      if IsZero(Not(x)) {
        FullWord(x, npages);
        NoHit(bits, from, 64 * k, x, npages, size);
        size, k := 0, k + 1;
        continue;
      }
      if idx == NOT_FOUND {
        idx := k * 64 + TrailingZeros(Not(x));
      }
      if size == 0 {
        NoHit(bits, from, 64 * k, x, npages, size);
        TopOfZero(x);
        size := LeadingZeros(x);
        start, k := k * 64 + 64 - size, k + 1;
        continue;
      }
      var s := TrailingZeros(x);
      if s + size >= npages {
        BoundaryHit(bits, from, 64 * k, x, npages, size);
        BoundaryAnswer(bits, 64 * k, npages, size, searchIdx, idx);
        return start, idx;
      }
      NoHit(bits, from, 64 * k, x, npages, size);
      if s < 64 {
        size := LeadingZeros(x);
        start, k := k * 64 + 64 - size, k + 1;
        continue;
      }
      size, k := size + 64, k + 1;
    }
    SearchEnd(bits, from, 64 * k, npages, searchIdx, idx);
    return NOT_FOUND, idx;
  }

  /** Nothing has been searched yet. */
  lemma SearchStart(b: seq<Word>, searchIdx: nat, n: nat)
    requires |b| == 8 && n >= 1
    ensures
      var bits, from := Pages(b), searchIdx / 64 * 64;
      from <= 512 == |bits| ==>
        && TailRun(bits, from, from, 0) && NoFit(bits, from, from, n)
        && FirstFree(bits, from, from, NOT_FOUND)
  {
  }

  /** Every word has been searched, or the search began beyond the last one. */
  lemma SearchEnd(bits: Bitmap, from: nat, lim: nat, n: nat, searchIdx: nat, idx: nat)
    requires |bits| == 512 && from == searchIdx / 64 * 64 && lim >= 512 && n >= 1
    requires if lim <= 512 then NoFit(bits, from, lim, n) && FirstFree(bits, from, lim, idx)
             else from == lim && idx == NOT_FOUND
    ensures Answer(bits, n, searchIdx, NOT_FOUND, idx)
  {
  }

  /** A hit at a word boundary, with e of the pages below it. */
  lemma BoundaryAnswer(bits: Bitmap, base: nat, n: nat, e: nat, searchIdx: nat, idx: nat)
    requires e <= base && base % 64 == 0 && e < n && FirstFit(bits, searchIdx / 64 * 64, n, base - e)
    requires |bits| == 512 && base < 512 && FirstFree(bits, searchIdx / 64 * 64, base + 64, idx) && idx != NOT_FOUND
    ensures Answer(bits, n, searchIdx, base - e, idx)
  {
    assert 0 < e < 64 ==> (base - e) % 64 == 64 - e;
  }

  /** A hit inside a word. */
  lemma InteriorAnswer(bits: Bitmap, base: nat, w: Word, n: nat, e: nat, j: nat, searchIdx: nat)
    requires base % 64 == 0 && base < 512 == |bits| && FirstFit(bits, searchIdx / 64 * 64, n, base + j)
    requires j < 64 && Ones(Not(w), j, n) && e + TrailingZeros(w) < n
    ensures Answer(bits, n, searchIdx, base + j, searchIdx)
  {
    assert forall k | 0 <= k < 64 :: Not(w)[k] == !w[k];
  }

  lemma NoneInside(w: Word, n: nat)
    requires n > 64
    ensures forall i: nat :: i < 64 ==> !Ones(Not(w), i, n)
  {
  }

  lemma TopOfZero(w: Word)
    ensures TrailingZeros(w) == 64 ==> LeadingZeros(w) == 64
    ensures LeadingZeros(w) <= 64
  {
  }

  /** Dispatches on the number of pages asked for. */
  method Find(b: array<Word>, npages: nat, searchIdx: nat) returns (i: nat, idx: nat)
    requires b.Length == 8 && npages >= 1
    ensures Found(Pages(b[..]), npages, searchIdx, i, idx)
  {
    if npages == 1 {
      var addr := Find1(b, searchIdx);
      return addr, addr;
    } else if npages <= 64 {
      i, idx := FindSmallN(b, npages, searchIdx);
    } else {
      i, idx := FindLargeN(b, npages, searchIdx);
    }
  }

  /** A search from page 0 succeeds exactly for requests up to the summary's longest run. */
  lemma FindSucceedsUpToMax(bits: Bitmap, s: Summary, npages: nat, i: nat, idx: nat)
    requires |bits| == 512 && Summarizes(bits, s) && npages >= 1
    requires Found(bits, npages, 0, i, idx)
    ensures i != NOT_FOUND <==> npages <= s.max
  {
    if npages <= s.max {
      ShorterRun(bits, npages, s.max);
      var a: nat :| Free(bits, a, npages);
    }
  }
}
