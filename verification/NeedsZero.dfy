/**
 Whether freshly allocated pages still have to be zeroed, as a state machine: any number of threads
 run allocNeedsZero over pages of their own, one atomic access to an arena's watermark at a time.
 Addresses are linear ones.
*/
module NeedsZero {

  const PAGE: nat := 8192
  const ARENA: nat := 0x400_0000

  /**
   A call on `count` pages from `first`; base and npage are what is left of them. `seen` are the
   pages that had been handed out before the call.
  */
  datatype Call = Call(first: nat, count: nat, base: nat, npage: nat, needZero: bool, seen: set<nat>)

  datatype Pc = Idle | Loop(c: Call) | Cas(c: Call, zb: nat) | Reload(c: Call, zb: nat) | Thrown(c: Call)

  datatype State = State(
    zeroed: map<nat, nat>,    // the watermark of every arena that has been written to
    live: set<nat>,           // pages that are allocated
    ever: set<nat>,           // pages that were ever handed out
    threads: seq<Pc>,
    results: seq<Call>)       // calls that have returned

  predicate InRange(a: nat, base: nat, n: nat) { a % PAGE == 0 && base <= a < base + n * PAGE }

  function Pages(base: nat, n: nat): set<nat> { set a | base <= a < base + n * PAGE && InRange(a, base, n) }

  function ZeroedBase(s: State, arena: nat): nat { if arena in s.zeroed then s.zeroed[arena] else 0 }

  function ArenaOf(base: nat): nat { base / ARENA }

  function Offset(base: nat): nat { base % ARENA }

  /** How far into its arena a call extends. */
  function Limit(c: Call): nat {
    var limit := Offset(c.base) + c.npage * PAGE;
    if limit > ARENA then ARENA else limit
  }

  /** Where a call's part of its arena ends. */
  function PartEnd(c: Call): nat { c.base - Offset(c.base) + Limit(c) }

  /** The same call, moved on to the next arena. */
  function Advance(c: Call): Call {
    var d := Limit(c) - Offset(c.base);
    c.(base := c.base + d, npage := if c.npage >= d / PAGE then c.npage - d / PAGE else 0)
  }

  function Goto(s: State, t: nat, pc: Pc): State
    requires t < |s.threads|
  {
    s.(threads := s.threads[t := pc])
  }

  /** One atomic step of thread t inside allocNeedsZero. */
  function Step(s: State, t: nat): State
    requires t < |s.threads|
  {
    match s.threads[t]
    case Idle => s
    case Loop(c) =>
      if c.npage == 0 then Goto(s.(results := s.results + [c]), t, Idle)
      else
        var zb := ZeroedBase(s, ArenaOf(c.base));
        Goto(s, t, Cas(c.(needZero := c.needZero || Offset(c.base) < zb), zb))
    case Cas(c, zb) =>
      if Limit(c) <= zb then Goto(s, t, Loop(Advance(c)))
      else if ZeroedBase(s, ArenaOf(c.base)) == zb then
        Goto(s.(zeroed := s.zeroed[ArenaOf(c.base) := Limit(c)]), t, Loop(Advance(c)))
      else Goto(s, t, Reload(c, zb))
    case Reload(c, _) =>
      var zb := ZeroedBase(s, ArenaOf(c.base));
      if zb <= Limit(c) && zb > Offset(c.base) then Goto(s, t, Thrown(c)) else Goto(s, t, Cas(c, zb))
    case Thrown(_) => s
  }

  /** The pages of the call a thread is in. */
  predicate Claims(pc: Pc, a: nat) { !pc.Idle? && InRange(a, pc.c.first, pc.c.count) }

  datatype Choice =
    | Acquire(t: nat, base: nat, npage: nat)   // the page allocator hands out free pages
    | Release(pages: set<nat>)                 // pages are freed, once the call for them has returned
    | Run(t: nat)

  function Act(s: State, c: Choice): State {
    match c
    case Acquire(t, base, npage) =>
      if t < |s.threads| && s.threads[t].Idle? && base % PAGE == 0 && Pages(base, npage) !! s.live then
        Goto(s.(live := s.live + Pages(base, npage), ever := s.ever + Pages(base, npage)), t,
             Loop(Call(base, npage, base, npage, false, s.ever)))
      else s
    case Release(pages) =>
      if forall t, a | 0 <= t < |s.threads| && a in pages :: !Claims(s.threads[t], a)
      then s.(live := s.live - pages)
      else s
    case Run(t) => if t < |s.threads| then Step(s, t) else s
  }

  function Exec(n: nat, choices: seq<Choice>): (s: State)
    ensures |s.threads| == n
  {
    if |choices| == 0 then State(map[], {}, {}, seq(n, _ => Idle), [])
    else Act(Exec(n, choices[..|choices| - 1]), choices[|choices| - 1])
  }

  // ---------------------------------------------------------------- the invariant

  /** The watermark is past page a. */
  predicate Covered(s: State, a: nat) { Offset(a) + PAGE <= ZeroedBase(s, ArenaOf(a)) }

  ghost predicate WatermarksOk(s: State) {
    forall k: nat :: ZeroedBase(s, k) <= ARENA && ZeroedBase(s, k) % PAGE == 0
  }

  predicate Aligned(c: Call) {
    && c.first % PAGE == 0 && c.base % PAGE == 0 && c.first <= c.base
    && c.base + c.npage * PAGE == c.first + c.count * PAGE
  }

  /** What has been seen before has been covered, and is noticed as the call passes it. */
  ghost predicate Passed(s: State, c: Call, upTo: nat) {
    forall a: nat | InRange(a, c.first, c.count) ::
      && (a in c.seen ==> Covered(s, a))
      && (a < c.base ==> Covered(s, a))
      && (a < upTo && a in c.seen ==> c.needZero)
  }

  /** The watermark has not moved into the call's part of the arena since it was read. */
  predicate Untouched(s: State, c: Call, zb: nat) {
    var now := ZeroedBase(s, ArenaOf(c.base));
    zb <= now && (now == zb || now <= Offset(c.base) || Limit(c) < now)
  }

  ghost predicate PcOk(s: State, pc: Pc) {
    match pc
    case Idle => true
    case Loop(c) => Aligned(c) && Passed(s, c, c.base)
    case Cas(c, zb) => Aligned(c) && c.npage > 0 && Passed(s, c, PartEnd(c)) && Untouched(s, c, zb)
    case Reload(c, zb) =>
      Aligned(c) && c.npage > 0 && Passed(s, c, PartEnd(c)) && Untouched(s, c, zb) &&
      zb < ZeroedBase(s, ArenaOf(c.base))
    case Thrown(c) => false
  }

  ghost predicate CallsOk(s: State) { forall t | 0 <= t < |s.threads| :: PcOk(s, s.threads[t]) }

  /** Pages in a call are allocated, and no two calls share one. */
  ghost predicate Apart(s: State) {
    && (forall t, a: nat | 0 <= t < |s.threads| && Claims(s.threads[t], a) :: a in s.live)
    && forall t, u, a: nat | 0 <= t < u < |s.threads| :: !(Claims(s.threads[t], a) && Claims(s.threads[u], a))
  }

  ghost predicate Pending(s: State, a: nat) { exists t | 0 <= t < |s.threads| :: Claims(s.threads[t], a) }

  ghost predicate EverOk(s: State) {
    forall a | a in s.ever :: Covered(s, a) || Pending(s, a)
  }

  /** A finished call has covered its pages, and asked for zeroing if it had seen one of them. */
  ghost predicate Done(s: State, r: Call) {
    forall a: nat | InRange(a, r.first, r.count) :: Covered(s, a) && (a in r.seen ==> r.needZero)
  }

  ghost predicate ResultsOk(s: State) { forall r | r in s.results :: Done(s, r) }

  ghost predicate Inv(s: State) {
    WatermarksOk(s) && CallsOk(s) && Apart(s) && EverOk(s) && ResultsOk(s)
  }

  // ---------------------------------------------------------------- arithmetic

  /** The part of a call that lies in one arena. */
  lemma Segment(c: Call)
    requires Aligned(c) && c.npage > 0
    ensures var d := Limit(c) - Offset(c.base);
            0 < d <= c.npage * PAGE && d % PAGE == 0 && Limit(c) % PAGE == 0 && Limit(c) <= ARENA &&
            Offset(c.base) % PAGE == 0
    ensures Limit(c) == ARENA || Limit(c) - Offset(c.base) == c.npage * PAGE
    ensures Aligned(Advance(c)) && Advance(c).npage < c.npage
    ensures Advance(c).base == PartEnd(c) && (Limit(c) < ARENA ==> Advance(c).npage == 0)
  {
    var d := Limit(c) - Offset(c.base);
    var p := c.base / PAGE;
    assert c.base == p * PAGE;
    assert Offset(c.base) == p % (ARENA / PAGE) * PAGE;
    assert d / PAGE * PAGE == d;
  }

  lemma ArenaAndOffset(k: nat, r: nat)
    requires r < ARENA
    ensures ArenaOf(k * ARENA + r) == k && Offset(k * ARENA + r) == r
    ensures k * ARENA % PAGE == 0
  {
  }

  lemma PageApart(x: nat, y: nat)
    requires x % PAGE == 0 && y % PAGE == 0 && x < y
    ensures x + PAGE <= y
  {
  }

  lemma PageSum(x: nat, y: nat)
    requires x % PAGE == 0 && y % PAGE == 0
    ensures (x + y) % PAGE == 0 && (x >= y ==> (x - y) % PAGE == 0)
  {
  }

  /** A page up to a call's limit, in its arena. */
  lemma InSegment(c: Call, a: nat)
    requires Aligned(c) && c.npage > 0 && a % PAGE == 0 && c.base <= a < PartEnd(c)
    ensures InRange(a, c.first, c.count) && ArenaOf(a) == ArenaOf(c.base)
    ensures Offset(a) == Offset(c.base) + (a - c.base) && Offset(a) + PAGE <= Limit(c)
  {
    hide ArenaOf, Offset, Limit;
    Segment(c);
    Located(c.base);
    var d := a - c.base;
    ArenaAndOffset(ArenaOf(c.base), Offset(c.base) + d);
    PageSum(a, c.base);
    PageSum(Offset(c.base), d);
    PageApart(Offset(a), Limit(c));
  }

  lemma Located(a: nat)
    ensures a == ArenaOf(a) * ARENA + Offset(a)
  {
  }

  /** The last page below c's limit lies in both calls, if o's part of the arena reaches around it. */
  lemma Clash(c: Call, o: Call) returns (a: nat)
    requires Aligned(c) && c.npage > 0 && Aligned(o) && o.npage > 0
    requires ArenaOf(c.base) == ArenaOf(o.base) && Offset(o.base) < Limit(c) <= Limit(o)
    ensures InRange(a, c.first, c.count) && InRange(a, o.first, o.count)
  {
    hide ArenaOf, Offset, Limit, InRange, Aligned;
    Segment(c);
    Segment(o);
    Located(c.base);
    Located(o.base);
    var k := ArenaOf(c.base) * ARENA;
    ArenaAndOffset(ArenaOf(c.base), 0);
    PageApart(Offset(c.base), Limit(c));
    PageApart(Offset(o.base), Limit(c));
    PageSum(Limit(c), PAGE);
    PageSum(k, Limit(c) - PAGE);
    a := k + (Limit(c) - PAGE);
    InSegment(c, a);
    InSegment(o, a);
  }

  /** Where one call leaves an arena's watermark is not inside another call's part of that arena. */
  lemma LimitsApart(c: Call, o: Call)
    requires Aligned(c) && c.npage > 0 && Aligned(o) && o.npage > 0
    requires ArenaOf(c.base) == ArenaOf(o.base)
    requires forall a: nat :: !(InRange(a, c.first, c.count) && InRange(a, o.first, o.count))
    ensures Limit(c) <= Offset(o.base) || Limit(o) < Limit(c)
  {
    if Offset(o.base) < Limit(c) <= Limit(o) {
      var a := Clash(c, o);
    }
  }

  // ---------------------------------------------------------------- one step

  /** A step moves at most one watermark: up, to the limit of the call that moves it. */
  lemma Effect(s: State, t: nat)
    requires t < |s.threads| && PcOk(s, s.threads[t])
    ensures var s', pc := Step(s, t), s.threads[t];
            && |s'.threads| == |s.threads|
            && (forall u | 0 <= u < |s.threads| && u != t :: s'.threads[u] == s.threads[u])
            && s'.live == s.live && s'.ever == s.ever
            && (forall a: nat :: Claims(s'.threads[t], a) ==> Claims(pc, a))
            && (forall k: nat :: ZeroedBase(s', k) == ZeroedBase(s, k) ||
                  (pc.Cas? && k == ArenaOf(pc.c.base) && ZeroedBase(s, k) == pc.zb < Limit(pc.c) == ZeroedBase(s', k)))
  {
  }

  /** Watermarks never go down, so what is covered stays covered. */
  lemma StaysCovered(s: State, t: nat)
    requires t < |s.threads| && PcOk(s, s.threads[t])
    ensures forall k: nat :: ZeroedBase(s, k) <= ZeroedBase(Step(s, t), k)
    ensures forall a: nat :: Covered(s, a) ==> Covered(Step(s, t), a)
  {
    hide Step, PcOk, Offset, ArenaOf;
    Effect(s, t);
  }

  lemma StepKeepsWatermarks(s: State, t: nat)
    requires Inv(s) && t < |s.threads|
    ensures WatermarksOk(Step(s, t))
  {
    hide Step, Apart, EverOk, ResultsOk, Passed, Untouched;
    assert PcOk(s, s.threads[t]);
    Effect(s, t);
    if s.threads[t].Cas? {
      Segment(s.threads[t].c);
    }
  }

  /** Passing a part of an arena whose watermark has reached the limit. */
  lemma PassOn(s: State, c: Call)
    requires Aligned(c) && c.npage > 0 && Passed(s, c, PartEnd(c))
    requires Limit(c) <= ZeroedBase(s, ArenaOf(c.base))
    ensures Aligned(Advance(c)) && Passed(s, Advance(c), Advance(c).base)
  {
    Segment(c);
    var c' := Advance(c);
    forall a: nat | InRange(a, c.first, c.count) && a < c'.base ensures Covered(s, a) {
      if a >= c.base {
        InSegment(c, a);
      }
    }
  }

  /** Reading a watermark tells whether any page of the part had been seen. */
  lemma Notice(s: State, c: Call)
    requires Aligned(c) && c.npage > 0 && Passed(s, c, c.base)
    ensures var c' := c.(needZero := c.needZero || Offset(c.base) < ZeroedBase(s, ArenaOf(c.base)));
            Passed(s, c', PartEnd(c))
  {
    forall a: nat | InRange(a, c.first, c.count) && c.base <= a < PartEnd(c) && a in c.seen
      ensures Offset(c.base) < ZeroedBase(s, ArenaOf(c.base))
    {
      InSegment(c, a);
      assert Covered(s, a);
    }
  }

  /** `Passed` and `Untouched` only look at watermarks, which only go up. */
  lemma PassedOn(s: State, s': State, c: Call, upTo: nat)
    requires Passed(s, c, upTo) && forall a: nat :: Covered(s, a) ==> Covered(s', a)
    ensures Passed(s', c, upTo)
  {
  }

  lemma FirstRead(s: State, t: nat)
    requires t < |s.threads| && PcOk(s, s.threads[t]) && s.threads[t].Loop?
    ensures PcOk(Step(s, t), Step(s, t).threads[t])
  {
    hide Covered, InRange, Passed, Offset, ArenaOf;
    var s', c := Step(s, t), s.threads[t].c;
    StaysCovered(s, t);
    if c.npage > 0 {
      Notice(s, c);
      PassedOn(s, s', s'.threads[t].c, PartEnd(c));
    }
  }

  lemma OwnPc(s: State, t: nat)
    requires t < |s.threads| && PcOk(s, s.threads[t])
    ensures PcOk(Step(s, t), Step(s, t).threads[t])
  {
    hide Covered, Limit, Offset, ArenaOf, InRange, Passed, Advance, Aligned, PartEnd;
    var s', pc := Step(s, t), s.threads[t];
    StaysCovered(s, t);
    match pc {
      case Loop(c) => FirstRead(s, t);
      case Cas(c, zb) =>
        PassedOn(s, s', c, PartEnd(c));
        if s'.threads[t].Loop? {
          PassOn(s', c);
        }
      case Reload(c, zb) => PassedOn(s, s', c, PartEnd(c));
      case _ =>
    }
  }

  lemma OtherPc(s: State, t: nat, u: nat)
    requires t < |s.threads| && u < |s.threads| && t != u && Apart(s) && PcOk(s, s.threads[t]) && PcOk(s, s.threads[u])
    ensures PcOk(Step(s, t), s.threads[u])
  {
    hide Step, Covered, Limit, Offset, ArenaOf, Advance, Aligned, Passed, PartEnd;
    var s', pc, pu := Step(s, t), s.threads[t], s.threads[u];
    Effect(s, t);
    StaysCovered(s, t);
    if !pu.Idle? {
      PassedOn(s, s', pu.c, if pu.Loop? then pu.c.base else PartEnd(pu.c));
      if (pu.Cas? || pu.Reload?) && pc.Cas? && ArenaOf(pc.c.base) == ArenaOf(pu.c.base) {
        forall a: nat ensures !(InRange(a, pc.c.first, pc.c.count) && InRange(a, pu.c.first, pu.c.count)) {
          assert !(Claims(pc, a) && Claims(pu, a));
        }
        LimitsApart(pc.c, pu.c);
      }
    }
  }

  lemma StepKeepsCalls(s: State, t: nat)
    requires Inv(s) && t < |s.threads|
    ensures CallsOk(Step(s, t))
  {
    hide Step, PcOk, Apart, EverOk, ResultsOk, WatermarksOk;
    var s' := Step(s, t);
    assert PcOk(s, s.threads[t]);
    Effect(s, t);
    OwnPc(s, t);
    forall u | 0 <= u < |s.threads| && u != t ensures PcOk(s', s'.threads[u]) {
      OtherPc(s, t, u);
    }
  }

  lemma StepKeepsApart(s: State, t: nat)
    requires Inv(s) && t < |s.threads|
    ensures Apart(Step(s, t))
  {
    hide Step, PcOk, EverOk, ResultsOk, WatermarksOk, Claims;
    assert PcOk(s, s.threads[t]);
    Effect(s, t);
  }

  /** A call that has nothing left has covered all its pages, and noticed those it had seen. */
  lemma Returned(s: State, t: nat)
    requires t < |s.threads| && PcOk(s, s.threads[t])
    ensures var s', pc := Step(s, t), s.threads[t];
            (s'.results == s.results && (forall a: nat :: Claims(s'.threads[t], a) <==> Claims(pc, a))) ||
            (pc.Loop? && s'.results == s.results + [pc.c] && s'.zeroed == s.zeroed &&
             Done(s, pc.c))
  {
    hide Covered, Limit, Offset, ArenaOf;
  }

  lemma StepKeepsEver(s: State, t: nat)
    requires Inv(s) && t < |s.threads|
    ensures EverOk(Step(s, t))
  {
    hide Step, PcOk, Apart, ResultsOk, WatermarksOk, Covered;
    var s' := Step(s, t);
    assert PcOk(s, s.threads[t]);
    Effect(s, t);
    StaysCovered(s, t);
    Returned(s, t);
    forall a | a in s'.ever && !Covered(s', a) ensures Pending(s', a) {
      assert Pending(s, a);
      var u :| 0 <= u < |s.threads| && Claims(s.threads[u], a);
      assert Claims(s'.threads[u], a);
    }
  }

  lemma StepKeepsResults(s: State, t: nat)
    requires Inv(s) && t < |s.threads|
    ensures ResultsOk(Step(s, t))
  {
    hide Step, PcOk, Apart, EverOk, WatermarksOk, Covered;
    assert PcOk(s, s.threads[t]);
    var s', pc := Step(s, t), s.threads[t];
    StaysCovered(s, t);
    Returned(s, t);
    forall r | r in s'.results ensures Done(s', r) {
      assert r in s.results ==> Done(s, r);
    }
  }

  // ---------------------------------------------------------------- every run

  lemma SameWatermarks(s: State, s': State)
    requires s'.zeroed == s.zeroed
    ensures forall a: nat :: Covered(s, a) <==> Covered(s', a)
    ensures forall k: nat :: ZeroedBase(s, k) == ZeroedBase(s', k)
    ensures forall pc :: PcOk(s, pc) ==> PcOk(s', pc)
    ensures forall r :: Done(s, r) ==> Done(s', r)
  {
    hide ArenaOf, Offset, Limit, Aligned, InRange;
  }

  /** Pages that are free belong to no call, so those that were handed out before are covered. */
  lemma AcquireKeepsInv(s: State, c: Choice)
    requires Inv(s) && c.Acquire?
    ensures Inv(Act(s, c))
  {
    hide Covered, Limit, Offset, ArenaOf, PartEnd, ZeroedBase, Done;
    var s' := Act(s, c);
    SameWatermarks(s, s');
    if s' != s {
      forall a: nat | InRange(a, c.base, c.npage) ensures a !in s.live && (a in s.ever ==> Covered(s, a)) {
        assert a in Pages(c.base, c.npage);
      }
      assert PcOk(s', s'.threads[c.t]);
      forall a | a in s'.ever && !Covered(s', a) ensures Pending(s', a) {
        if a in s.ever {
          var u :| 0 <= u < |s.threads| && Claims(s.threads[u], a);
          assert Claims(s'.threads[u], a);
        } else {
          assert Claims(s'.threads[c.t], a);
        }
      }
    }
  }

  lemma ReleaseKeepsInv(s: State, c: Choice)
    requires Inv(s) && c.Release?
    ensures Inv(Act(s, c))
  {
    hide Covered, Limit, Offset, ArenaOf, PartEnd, ZeroedBase, Done, PcOk;
    var s' := Act(s, c);
    SameWatermarks(s, s');
    assert forall a :: Pending(s, a) ==> Pending(s', a);
  }

  lemma {:induction false} RunsKeepInv(n: nat, choices: seq<Choice>)
    ensures Inv(Exec(n, choices))
  {
    hide Step, WatermarksOk, CallsOk, Apart, EverOk, ResultsOk;
    if |choices| == 0 {
      StartInv(n);
    } else {
      var s, c := Exec(n, choices[..|choices| - 1]), choices[|choices| - 1];
      RunsKeepInv(n, choices[..|choices| - 1]);
      match c {
        case Acquire(_, _, _) => AcquireKeepsInv(s, c);
        case Release(_) => ReleaseKeepsInv(s, c);
        case Run(t) =>
          if t < n {
            StepKeepsWatermarks(s, t);
            StepKeepsCalls(s, t);
            StepKeepsApart(s, t);
            StepKeepsEver(s, t);
            StepKeepsResults(s, t);
          }
      }
    }
  }

  lemma StartInv(n: nat)
    ensures Inv(Exec(n, []))
  {
  }

  /**
   However the calls interleave: "overlapping allocations" is never detected; a call that says its
   pages need no zeroing had none that was ever handed out before; and the watermarks are past every
   page handed out, but for those whose call is still under way.
  */
  lemma Safety(n: nat, choices: seq<Choice>)
    ensures var s := Exec(n, choices);
            && (forall t | 0 <= t < n :: !s.threads[t].Thrown?)
            && (forall r | r in s.results && !r.needZero :: Pages(r.first, r.count) !! r.seen)
            && (forall a | a in s.ever :: Covered(s, a) || Pending(s, a))
  {
    RunsKeepInv(n, choices);
    hide Exec, Covered;
    var s := Exec(n, choices);
    forall t | 0 <= t < n ensures !s.threads[t].Thrown? {
      assert PcOk(s, s.threads[t]);
    }
    forall r | r in s.results && !r.needZero ensures Pages(r.first, r.count) !! r.seen {
      assert Done(s, r);
    }
  }

  // ---------------------------------------------------------------- when pages are said to need zeroing

  /** Pages of calls that are under way have been handed out. */
  ghost predicate HandedOut(s: State) {
    forall t, a: nat | 0 <= t < |s.threads| && Claims(s.threads[t], a) :: a in s.ever
  }

  /** The page below an arena's watermark. */
  function TopPage(s: State, k: nat): nat
    requires ZeroedBase(s, k) >= PAGE
  {
    k * ARENA + (ZeroedBase(s, k) - PAGE)
  }

  /** A call has not handed out page a, or it has passed it by, or the page had been handed out before the call. */
  predicate NotFrom(c: Call, a: nat) { InRange(a, c.first, c.count) && a >= c.base ==> a in c.seen }

  /** The page below a watermark was handed out, and by no call that is yet to come to it. */
  ghost predicate TopOk(s: State, k: nat) {
    ZeroedBase(s, k) > 0 ==>
      && ZeroedBase(s, k) >= PAGE && TopPage(s, k) in s.ever
      && forall t | 0 <= t < |s.threads| && !s.threads[t].Idle? :: NotFrom(s.threads[t].c, TopPage(s, k))
  }

  /**
   Page a was handed out to another call than c, at or above where c's part of a's arena begins: in an
   arena that c has pages in, and not below c's first page.
  */
  ghost predicate Met(c: Call, a: nat) {
    && a >= c.first && (InRange(a, c.first, c.count) ==> a in c.seen)
    && exists b: nat :: InRange(b, c.first, c.count) && ArenaOf(b) == ArenaOf(a)
  }

  ghost predicate HasReason(s: State, c: Call) { c.needZero ==> exists a :: a in s.ever && Met(c, a) }

  ghost predicate ReasonsOk(s: State) {
    && (forall t | 0 <= t < |s.threads| && !s.threads[t].Idle? :: HasReason(s, s.threads[t].c))
    && forall r | r in s.results :: HasReason(s, r)
  }

  ghost predicate TopsOk(s: State) { forall k: nat :: TopOk(s, k) }

  /** The step that moves a watermark moves it to the end of one of the call's own pages. */
  lemma TopMoves(s: State, t: nat, k: nat)
    requires Inv(s) && HandedOut(s) && TopsOk(s) && t < |s.threads|
    ensures TopOk(Step(s, t), k)
  {
    hide Step, Passed, Untouched, EverOk, ResultsOk, Limit, Offset, ArenaOf, Advance, InRange;
    var s', pc := Step(s, t), s.threads[t];
    assert PcOk(s, pc) && TopOk(s, k);
    Effect(s, t);
    OnwardOnly(s, t);
    if ZeroedBase(s', k) != ZeroedBase(s, k) {
      var c := pc.c;
      var a := LastPage(c);
      assert Claims(pc, a) && TopPage(s', k) == a;
      forall u | 0 <= u < |s'.threads| && !s'.threads[u].Idle? ensures NotFrom(s'.threads[u].c, a) {
        if u != t {
          assert Claims(s.threads[u], a) ==> false;
        } else {
          MovedPast(s, t);
        }
      }
    } else if ZeroedBase(s, k) > 0 {
      var a := TopPage(s, k);
      forall u | 0 <= u < |s'.threads| && !s'.threads[u].Idle? ensures NotFrom(s'.threads[u].c, a) {
        assert u != t ==> s'.threads[u] == s.threads[u];
      }
    }
  }

  /** A step keeps a call's pages and what it has seen, and moves on in them. */
  lemma OnwardOnly(s: State, t: nat)
    requires t < |s.threads|
    ensures var pc, pc' := s.threads[t], Step(s, t).threads[t];
            !pc'.Idle? ==>
              && !pc.Idle? && pc'.c.first == pc.c.first && pc'.c.count == pc.c.count && pc'.c.seen == pc.c.seen
              && pc.c.base <= pc'.c.base
  {
  }

  /** The thread that moves a watermark goes on behind its part of the arena. */
  lemma MovedPast(s: State, t: nat)
    requires t < |s.threads| && s.threads[t].Cas? && PcOk(s, s.threads[t])
    requires ZeroedBase(Step(s, t), ArenaOf(s.threads[t].c.base)) != ZeroedBase(s, ArenaOf(s.threads[t].c.base))
    ensures var c := s.threads[t].c;
            Step(s, t).threads[t] == Loop(Advance(c)) && Advance(c).base == PartEnd(c)
  {
    Segment(s.threads[t].c);
  }

  /** The last page of a call's part of an arena. */
  lemma LastPage(c: Call) returns (a: nat)
    requires Aligned(c) && c.npage > 0
    ensures InRange(a, c.first, c.count) && c.base <= a < PartEnd(c)
    ensures Limit(c) >= PAGE && a == ArenaOf(c.base) * ARENA + (Limit(c) - PAGE)
  {
    hide ArenaOf, Offset, Limit, InRange, Aligned;
    Segment(c);
    Located(c.base);
    var k := ArenaOf(c.base) * ARENA;
    ArenaAndOffset(ArenaOf(c.base), 0);
    PageApart(Offset(c.base), Limit(c));
    PageSum(Limit(c), PAGE);
    PageSum(k, Limit(c) - PAGE);
    a := k + (Limit(c) - PAGE);
    InSegment(c, a);
  }

  /** A call that finds the watermark above its base has met the page below the watermark. */
  lemma Reason(s: State, c: Call, k: nat)
    requires WatermarksOk(s) && TopOk(s, k) && k == ArenaOf(c.base) && Offset(c.base) < ZeroedBase(s, k)
    requires Aligned(c) && c.npage > 0 && NotFrom(c, TopPage(s, k))
    ensures TopPage(s, k) in s.ever && Met(c, TopPage(s, k))
  {
    hide ArenaOf, Offset, Limit;
    Segment(c);
    Located(c.base);
    var z := ZeroedBase(s, k);
    PageApart(Offset(c.base), z);
    ArenaAndOffset(k, z - PAGE);
    InSegment(c, c.base);
    assert InRange(c.base, c.first, c.count);
  }

  lemma StepKeepsReasons(s: State, t: nat)
    requires Inv(s) && TopsOk(s) && ReasonsOk(s) && t < |s.threads|
    ensures ReasonsOk(Step(s, t))
  {
    hide Passed, Untouched, EverOk, ResultsOk, Apart, Limit, Offset, ArenaOf, Met, InRange, PartEnd;
    var s', pc := Step(s, t), s.threads[t];
    assert PcOk(s, pc);
    SameReasons(s, t);
    if pc.Loop? && pc.c.npage > 0 && !pc.c.needZero && s'.threads[t].c.needZero {
      var k := ArenaOf(pc.c.base);
      assert TopOk(s, k);
      Reason(s, pc.c, k);
      MetAlike(pc.c, s'.threads[t].c, TopPage(s, k));
    }
  }

  lemma MetAlike(c: Call, d: Call, a: nat)
    requires d.first == c.first && d.count == c.count && d.seen == c.seen
    ensures Met(c, a) <==> Met(d, a)
  {
  }

  /** A reason stays one as the call moves on. */
  lemma SameReasons(s: State, t: nat)
    requires Inv(s) && ReasonsOk(s) && t < |s.threads|
    ensures var s', pc := Step(s, t), s.threads[t];
            && (forall u | 0 <= u < |s.threads| && u != t && !s'.threads[u].Idle? :: HasReason(s', s'.threads[u].c))
            && (forall r | r in s'.results :: HasReason(s', r))
            && (!s'.threads[t].Idle? && pc.c.needZero ==> HasReason(s', s'.threads[t].c))
  {
    hide Passed, Untouched, EverOk, ResultsOk, Apart, Limit, Offset, ArenaOf, Met, InRange, PartEnd;
    var s', pc := Step(s, t), s.threads[t];
    OnwardOnly(s, t);
    assert s'.ever == s.ever;
    if !s'.threads[t].Idle? && pc.c.needZero {
      assert HasReason(s, pc.c);
      var a :| a in s.ever && Met(pc.c, a);
      MetAlike(pc.c, s'.threads[t].c, a);
    }
    forall r | r in s'.results ensures HasReason(s', r) {
      assert r in s.results || (pc.Loop? && r == pc.c);
    }
  }

  /** New calls have seen every page handed out before. */
  lemma AcquireKeepsReasons(s: State, c: Choice)
    requires Inv(s) && HandedOut(s) && TopsOk(s) && ReasonsOk(s) && !c.Run?
    ensures HandedOut(Act(s, c)) && TopsOk(Act(s, c)) && ReasonsOk(Act(s, c))
  {
    hide Passed, Untouched, EverOk, ResultsOk, Apart, Offset, ArenaOf, Met, PcOk, WatermarksOk;
    var s' := Act(s, c);
    assert forall k: nat :: ZeroedBase(s', k) == ZeroedBase(s, k);
    assert forall a | a in s.ever :: a in s'.ever;
    forall k: nat ensures TopOk(s', k) {
      assert TopOk(s, k);
    }
    forall t, a: nat | 0 <= t < |s'.threads| && Claims(s'.threads[t], a) ensures a in s'.ever {
      if c.Acquire? && t == c.t && s' != s {
        assert a in Pages(c.base, c.npage);
      } else {
        assert Claims(s.threads[t], a);
      }
    }
  }

  lemma {:induction false} RunsKeepReasons(n: nat, choices: seq<Choice>)
    ensures var s := Exec(n, choices); HandedOut(s) && TopsOk(s) && ReasonsOk(s)
  {
    hide Step, Inv, TopOk, ReasonsOk;
    if |choices| == 0 {
      NoReasons(n);
    } else {
      var s, c := Exec(n, choices[..|choices| - 1]), choices[|choices| - 1];
      RunsKeepInv(n, choices[..|choices| - 1]);
      RunsKeepReasons(n, choices[..|choices| - 1]);
      if c.Run? {
        if c.t < n {
          Reachable(s, c.t);
          Effect(s, c.t);
          StepKeepsReasons(s, c.t);
          forall k: nat ensures TopOk(Step(s, c.t), k) {
            TopMoves(s, c.t, k);
          }
        }
      } else {
        AcquireKeepsReasons(s, c);
      }
    }
  }

  lemma NoReasons(n: nat)
    ensures var s := Exec(n, []); HandedOut(s) && TopsOk(s) && ReasonsOk(s)
  {
  }

  /**
   However the calls interleave: a call that says its pages need zeroing met, in one of its arenas, a page handed
   out to another call at or above where its own part of that arena begins.
  */
  lemma ZeroedForAReason(n: nat, choices: seq<Choice>, r: Call)
    requires r in Exec(n, choices).results && r.needZero
    ensures exists a :: a in Exec(n, choices).ever && Met(r, a)
  {
    RunsKeepReasons(n, choices);
    hide Exec, Met;
    assert HasReason(Exec(n, choices), r);
  }

  /** In the arenas that a call has pages in, every other page that was handed out lies below the call. */
  ghost predicate Beyond(r: Call, ever: set<nat>) {
    && Pages(r.first, r.count) !! r.seen
    && forall a, b: nat | a in ever && InRange(b, r.first, r.count) && ArenaOf(a) == ArenaOf(b) ::
         a < r.first || InRange(a, r.first, r.count)
  }

  /** So a call beyond every page that others were ever handed in its arenas is told not to zero. */
  lemma FreshPagesAreZero(n: nat, choices: seq<Choice>, r: Call)
    requires r in Exec(n, choices).results && Beyond(r, Exec(n, choices).ever)
    ensures !r.needZero
  {
    NothingMet(r, Exec(n, choices).ever);
    if r.needZero {
      ZeroedForAReason(n, choices, r);
    }
  }

  lemma NothingMet(r: Call, ever: set<nat>)
    requires Beyond(r, ever)
    ensures forall a | a in ever :: !Met(r, a)
  {
    hide ArenaOf;
    forall a | a in ever ensures !Met(r, a) {
      assert InRange(a, r.first, r.count) ==> a in Pages(r.first, r.count);
    }
  }

  /** No watermark ever goes down. */
  lemma {:induction false} Monotone(n: nat, choices: seq<Choice>, more: seq<Choice>, k: nat)
    ensures ZeroedBase(Exec(n, choices), k) <= ZeroedBase(Exec(n, choices + more), k)
    decreases |more|
  {
    hide Step, Inv;
    if |more| == 0 {
      assert choices + more == choices;
    } else {
      var init, c := more[..|more| - 1], more[|more| - 1];
      assert (choices + more)[..|choices + more| - 1] == choices + init;
      Monotone(n, choices, init, k);
      var s := Exec(n, choices + init);
      RunsKeepInv(n, choices + init);
      if c.Run? && c.t < n {
        Reachable(s, c.t);
        StaysCovered(s, c.t);
      }
    }
  }

  lemma Reachable(s: State, t: nat)
    requires Inv(s) && t < |s.threads|
    ensures PcOk(s, s.threads[t]) && WatermarksOk(s)
  {
  }

  /** An upper bound on the steps a thread still takes in its call. */
  function Work(pc: Pc): nat {
    match pc
    case Idle => 0
    case Loop(c) => c.npage * (2 * ARENA + 3) + 2 * ARENA + 3
    case Cas(c, zb) => c.npage * (2 * ARENA + 3) + if zb <= ARENA then 2 * (ARENA - zb) + 2 else 0
    case Reload(c, zb) => c.npage * (2 * ARENA + 3) + if zb <= ARENA then 2 * (ARENA - zb) + 1 else 0
    case Thrown(c) => 0
  }

  /**
   The multi-arena loop and its compare-and-swap loop end, whatever other threads do in between:
   every step of a thread in a call leaves it less to do, and nothing else changes how much that is.
  */
  lemma Progress(n: nat, choices: seq<Choice>, c: Choice, t: nat)
    requires t < n && !Exec(n, choices).threads[t].Idle?
    ensures var pc, pc' := Exec(n, choices).threads[t], Exec(n, choices + [c]).threads[t];
            if c == Run(t) then Work(pc') < Work(pc) else pc' == pc
  {
    hide Step, Work, Inv;
    assert (choices + [c])[..|choices|] == choices;
    RunsKeepInv(n, choices);
    var s := Exec(n, choices);
    Reachable(s, t);
    if c == Run(t) {
      StepWorks(s, t);
    } else if c.Run? && c.t < n {
      Reachable(s, c.t);
      Effect(s, c.t);
    }
  }

  lemma StepWorks(s: State, t: nat)
    requires t < |s.threads| && PcOk(s, s.threads[t]) && WatermarksOk(s) && !s.threads[t].Idle?
    ensures Work(Step(s, t).threads[t]) < Work(s.threads[t])
  {
    hide Passed, Offset, ArenaOf, Limit;
    var pc := s.threads[t];
    if pc.Cas? {
      Segment(pc.c);
      assert Advance(pc.c).npage + 1 <= pc.c.npage;
    }
  }
}
