/**
 The lock-free mark bit arenas as a state machine: any number of threads run newMarkBits, one atomic
 access at a time, in any order. The arenas' bump pointers are shared; the lists are under a lock
 that growing drops while memory comes from the operating system.
*/
module MarkBits {
  import opened Options

  /** Bytes in an arena: 64 KB less two words of header, which leave the bits 8-byte aligned. */
  const ARENA_BITS: nat := 65536 - 16

  /** A range of an arena's bits handed to a caller that asked for nelems mark bits. */
  datatype Range = Range(arena: nat, start: nat, nelems: nat)

  function End(r: Range): nat { r.start + BytesNeeded(r.nelems) }

  /** Which of the four calls of tryAlloc; the last two come with an arena that is not yet linked. */
  datatype Site = First | Locked | Again(own: nat) | Fresh(own: nat)

  /** Where a thread stands in a call for nelems mark bits. */
  datatype Pc =
    | Idle
    | LoadHead(nelems: nat)
    | Check(site: Site, arena: Option<nat>, nelems: nat)
    | Add(site: Site, head: nat, nelems: nat)
    | WantLock(nelems: nat)
    | NewArena(nelems: nat)
    | Map(nelems: nat)
    | Relock(own: nat, nelems: nat)
    | Thrown(own: nat, nelems: nat)

  datatype State = State(
    free: seq<nat>,           // the bump pointer of every arena ever mapped
    next: seq<nat>,           // the list of arenas in use, current one first
    freeList: seq<nat>,       // the list of arenas set aside
    lock: Option<nat>,        // who holds the lock
    threads: seq<Pc>,
    ranges: seq<Range>)       // what has been handed out, oldest first

  function BytesNeeded(nelems: nat): nat { (nelems + 63) / 64 * 8 }

  function Head(list: seq<nat>): Option<nat> { if |list| == 0 then None else Some(list[0]) }

  function FreeOf(s: State, a: nat): nat { if a < |s.free| then s.free[a] else 0 }

  function Bump(s: State, a: nat, to: nat): State {
    if a < |s.free| then s.(free := s.free[a := to]) else s
  }

  function Goto(s: State, t: nat, pc: Pc): State
    requires t < |s.threads|
  {
    s.(threads := s.threads[t := pc])
  }

  /** tryAlloc returned nil. */
  function Fail(s: State, t: nat, site: Site, n: nat): State
    requires t < |s.threads|
  {
    match site
    case First => Goto(s, t, WantLock(n))
    case Locked => Goto(s, t, NewArena(n))
    case Again(f) => Goto(s, t, Check(Fresh(f), Some(f), n))
    case Fresh(f) => Goto(s, t, Thrown(f, n))
  }

  /** tryAlloc returned a range; what is left to do depends on the call. */
  function Succeed(s: State, t: nat, site: Site, r: Range): State
    requires t < |s.threads|
  {
    var s := Goto(s.(ranges := s.ranges + [r]), t, Idle);
    match site
    case First => s
    case Locked => s.(lock := None)
    case Again(f) => s.(freeList := [f] + s.freeList, lock := None)
    case Fresh(f) => s.(next := [f] + s.next, lock := None)
  }

  /** One atomic step of thread t; a thread that waits for the lock stays where it is. */
  function Step(s: State, t: nat, nelems: nat): State
    requires t < |s.threads|
  {
    match s.threads[t]
    case Idle => Goto(s, t, LoadHead(nelems))
    case LoadHead(n) => Goto(s, t, Check(First, Head(s.next), n))
    case Check(site, a, n) =>
      if a.None? || FreeOf(s, a.value) + BytesNeeded(n) > ARENA_BITS then Fail(s, t, site, n)
      else Goto(s, t, Add(site, a.value, n))
    case Add(site, a, n) =>
      var end := FreeOf(s, a) + BytesNeeded(n);
      if end > ARENA_BITS then Fail(Bump(s, a, end), t, site, n)
      else Succeed(Bump(s, a, end), t, site, Range(a, FreeOf(s, a), n))
    case WantLock(n) =>
      if s.lock.Some? then s else Goto(s.(lock := Some(t)), t, Check(Locked, Head(s.next), n))
    case NewArena(n) =>
      if |s.freeList| == 0 then Goto(s.(lock := None), t, Map(n))
      else
        var f := s.freeList[0];
        Goto(Bump(s.(freeList := s.freeList[1..]), f, 0), t, Check(Again(f), Head(s.next), n))
    case Map(n) => Goto(s.(free := s.free + [0]), t, Relock(|s.free|, n))
    case Relock(f, n) =>
      if s.lock.Some? then s else Goto(s.(lock := Some(t)), t, Check(Again(f), Head(s.next), n))
    case Thrown(_, _) => s
  }

  /** The arena a thread has obtained and not yet put on a list. */
  function Holds(pc: Pc): Option<nat> {
    match pc
    case Relock(f, _) => Some(f)
    case Thrown(f, _) => Some(f)
    case Check(Again(f), _, _) => Some(f)
    case Check(Fresh(f), _, _) => Some(f)
    case Add(Again(f), _, _) => Some(f)
    case Add(Fresh(f), _, _) => Some(f)
    case _ => None
  }

  predicate LockHeld(pc: Pc) {
    pc.NewArena? || pc.Thrown? || (pc.Check? && !pc.site.First?) || (pc.Add? && !pc.site.First?)
  }

  // ---------------------------------------------------------------- the invariant

  /** Lists hold mapped arenas, each at most once; bump pointers are aligned. */
  predicate ListsOk(s: State) {
    && NoDup(s.next) && NoDup(s.freeList)
    && (forall a | a in s.next :: a < |s.free| && a !in s.freeList)
    && (forall a | a in s.freeList :: a < |s.free|)
    && (forall a | 0 <= a < |s.free| :: s.free[a] % 8 == 0)
  }

  predicate NoDup(list: seq<nat>) { forall i, j | 0 <= i < j < |list| :: list[i] != list[j] }

  /** An arena that is not linked yet belongs to its thread alone and is empty. */
  predicate PcOk(s: State, pc: Pc) {
    && (Holds(pc).Some? ==>
          var f := Holds(pc).value;
          f < |s.free| && s.free[f] == 0 && f !in s.next && f !in s.freeList)
    && (pc.Check? && pc.arena.Some?
        ==> if pc.site.Fresh? then pc.arena.value == pc.site.own else pc.arena.value in s.next)
    && (pc.Check? && pc.site.Fresh? ==> pc.arena.Some?)
    && (pc.Add? ==> if pc.site.Fresh? then pc.head == pc.site.own else pc.head in s.next)
    && (pc.Add? && pc.site.Fresh? ==> BytesNeeded(pc.nelems) <= ARENA_BITS)
    && (pc.Thrown? ==> BytesNeeded(pc.nelems) > ARENA_BITS)
  }

  predicate ThreadsOk(s: State) { forall t | 0 <= t < |s.threads| :: PcOk(s, s.threads[t]) }

  predicate Owned(s: State) {
    forall t, u | 0 <= t < |s.threads| && 0 <= u < |s.threads| && t != u && Holds(s.threads[t]).Some? ::
      Holds(s.threads[t]) != Holds(s.threads[u])
  }

  predicate Exclusive(s: State) {
    && (forall t | 0 <= t < |s.threads| :: LockHeld(s.threads[t]) <==> s.lock == Some(t))
    && (s.lock.Some? ==> s.lock.value < |s.threads|)
  }

  /** Every range lies below its arena's bump pointer, and above all older ranges of that arena. */
  predicate RangesOk(s: State) {
    && (forall i | 0 <= i < |s.ranges| ::
          var r := s.ranges[i];
          r.arena in s.next && r.start % 8 == 0 && End(r) <= ARENA_BITS && End(r) <= FreeOf(s, r.arena))
    && forall i, j | 0 <= i < j < |s.ranges| && s.ranges[i].arena == s.ranges[j].arena ::
         End(s.ranges[i]) <= s.ranges[j].start
  }

  ghost predicate Held(s: State, a: nat) { exists t | 0 <= t < |s.threads| :: Holds(s.threads[t]) == Some(a) }

  /** No arena is lost. */
  ghost predicate Accounted(s: State) {
    forall a: nat | a < |s.free| :: a in s.next || a in s.freeList || Held(s, a)
  }

  ghost predicate Inv(s: State) {
    ListsOk(s) && ThreadsOk(s) && Owned(s) && Exclusive(s) && RangesOk(s) && Accounted(s)
  }

  // ---------------------------------------------------------------- runs

  datatype Choice = Choice(thread: nat, nelems: nat)

  /** The state after the scheduler's choices; n threads, none of them in newMarkBits at first. */
  function Exec(n: nat, schedule: seq<Choice>): (s: State)
    ensures |s.threads| == n
  {
    if |schedule| == 0 then State([], [], [], None, seq(n, _ => Idle), [])
    else
      var s, c := Exec(n, schedule[..|schedule| - 1]), schedule[|schedule| - 1];
      if c.thread < n then Step(s, c.thread, c.nelems) else s
  }

  // ---------------------------------------------------------------- one step

  /** What a step does to the lists. */
  lemma ListShapes(s: State, t: nat, nelems: nat)
    requires t < |s.threads|
    ensures var s', h := Step(s, t, nelems), Holds(s.threads[t]);
            || (s'.next == s.next && s'.freeList == s.freeList)
            || (|s.freeList| > 0 && s'.next == s.next && s'.freeList == s.freeList[1..])
            || (h.Some? && s'.next == [h.value] + s.next && s'.freeList == s.freeList)
            || (h.Some? && s'.next == s.next && s'.freeList == [h.value] + s.freeList)
  {
  }

  /** What a step does to the bump pointers. */
  lemma FreeShapes(s: State, t: nat, nelems: nat)
    requires t < |s.threads|
    ensures var s', pc := Step(s, t, nelems), s.threads[t];
            || s'.free == s.free
            || s'.free == s.free + [0]
            || (pc.Add? && s'.free == Bump(s, pc.head, FreeOf(s, pc.head) + BytesNeeded(pc.nelems)).free)
            || (pc.NewArena? && |s.freeList| > 0 && s'.free == Bump(s, s.freeList[0], 0).free)
  {
  }

  /** Bump pointers stay aligned. */
  lemma StaysAligned(s: State, t: nat, nelems: nat)
    requires t < |s.threads| && ListsOk(s)
    ensures var s' := Step(s, t, nelems);
            |s.free| <= |s'.free| && forall a | 0 <= a < |s'.free| :: s'.free[a] % 8 == 0
  {
    hide NoDup, Step;
    FreeShapes(s, t, nelems);
  }

  lemma ArenaShapes(s: State, t: nat, nelems: nat)
    requires t < |s.threads| && PcOk(s, s.threads[t])
    ensures var s', pc := Step(s, t, nelems), s.threads[t];
            && |s'.threads| == |s.threads|
            && (forall u | 0 <= u < |s.threads| && u != t :: s'.threads[u] == s.threads[u])
            && |s.free| <= |s'.free|
            && (forall a | 0 <= a < |s.free| :: s'.free[a] == s.free[a] || (pc.Add? && a == pc.head)
                  || (pc.NewArena? && |s.freeList| > 0 && a == s.freeList[0]))
  {
  }

  /** What a step does to the other threads, the arenas and the lists. */
  lemma Effect(s: State, t: nat, nelems: nat)
    requires t < |s.threads| && PcOk(s, s.threads[t]) && ListsOk(s)
    ensures var s', pc := Step(s, t, nelems), s.threads[t];
            && |s'.threads| == |s.threads|
            && (forall u | 0 <= u < |s.threads| && u != t :: s'.threads[u] == s.threads[u])
            && |s.free| <= |s'.free|
            && (forall a | 0 <= a < |s.free| :: s'.free[a] == s.free[a] || (pc.Add? && a == pc.head)
                  || (pc.NewArena? && |s.freeList| > 0 && a == s.freeList[0]))
            && (forall a | a in s.next :: a in s'.next)
            && (forall a | a in s'.next :: a in s.next || Holds(pc) == Some(a))
            && (forall a | a in s'.freeList :: a in s.freeList || Holds(pc) == Some(a))
  {
    hide Step, PcOk;
    ArenaShapes(s, t, nelems);
    ListShapes(s, t, nelems);
    assert |s.freeList| > 0 ==> forall a | a in s.freeList[1..] :: a in s.freeList;
  }

  /** An arena that is obtained is a thread's own until it is on a list, and then stays there. */
  lemma Handover(s: State, t: nat, nelems: nat, a: nat)
    requires t < |s.threads| && PcOk(s, s.threads[t]) && ListsOk(s)
    ensures var s' := Step(s, t, nelems);
            (a in s.freeList || Holds(s.threads[t]) == Some(a) || |s.free| <= a < |s'.free|) ==>
              a in s'.next || a in s'.freeList || Holds(s'.threads[t]) == Some(a)
  {
    assert a in s.freeList ==> a == s.freeList[0] || a in s.freeList[1..];
  }

  /** What a step hands out. */
  lemma HandedOut(s: State, t: nat, nelems: nat)
    requires t < |s.threads| && PcOk(s, s.threads[t]) && ListsOk(s)
    ensures var s', pc := Step(s, t, nelems), s.threads[t];
            s'.ranges == s.ranges ||
            (&& pc.Add? && s'.ranges == s.ranges + [Range(pc.head, FreeOf(s, pc.head), pc.nelems)]
             && FreeOf(s', pc.head) == FreeOf(s, pc.head) + BytesNeeded(pc.nelems) <= ARENA_BITS
             && pc.head in s'.next && FreeOf(s, pc.head) % 8 == 0)
    ensures forall a | a in s.next :: FreeOf(s, a) <= FreeOf(Step(s, t, nelems), a)
  {
    assert |s.freeList| > 0 ==> s.freeList[0] in s.freeList;
  }

  lemma StepKeepsLists(s: State, t: nat, nelems: nat)
    requires Inv(s) && t < |s.threads|
    ensures ListsOk(Step(s, t, nelems))
  {
    hide Owned, Exclusive, RangesOk, Accounted, Step;
    assert PcOk(s, s.threads[t]);
    ListShapes(s, t, nelems);
    StaysAligned(s, t, nelems);
    assert |s.freeList| > 0 ==> forall a | a in s.freeList[1..] :: a in s.freeList;
  }

  lemma StepKeepsThreads(s: State, t: nat, nelems: nat)
    requires Inv(s) && t < |s.threads|
    ensures ThreadsOk(Step(s, t, nelems))
  {
    hide Exclusive, RangesOk, Accounted, Step;
    var s' := Step(s, t, nelems);
    Effect(s, t, nelems);
    OwnPc(s, t, nelems);
    forall u | 0 <= u < |s.threads| && u != t ensures PcOk(s', s'.threads[u]) {
      OtherPc(s, t, nelems, u);
    }
  }

  lemma OwnPc(s: State, t: nat, nelems: nat)
    requires ListsOk(s) && t < |s.threads| && PcOk(s, s.threads[t])
    ensures PcOk(Step(s, t, nelems), Step(s, t, nelems).threads[t])
  {
    hide *;
    if s.threads[t].NewArena? {
      OwnPcNewArena(s, t, nelems);
    } else {
      OwnPcElsewhere(s, t, nelems);
    }
  }

  lemma OwnPcElsewhere(s: State, t: nat, nelems: nat)
    requires ListsOk(s) && t < |s.threads| && PcOk(s, s.threads[t]) && !s.threads[t].NewArena?
    ensures PcOk(Step(s, t, nelems), Step(s, t, nelems).threads[t])
  {
    hide ListsOk;
    BoundedLists(s);
  }

  lemma BoundedLists(s: State)
    requires ListsOk(s)
    ensures forall a | a in s.next || a in s.freeList :: a < |s.free|
    ensures |s.next| > 0 ==> s.next[0] in s.next
  {
  }

  lemma OwnPcNewArena(s: State, t: nat, nelems: nat)
    requires ListsOk(s) && t < |s.threads| && PcOk(s, s.threads[t]) && s.threads[t].NewArena?
    ensures PcOk(Step(s, t, nelems), Step(s, t, nelems).threads[t])
  {
    assert |s.freeList| > 0 ==> s.freeList[0] in s.freeList && s.freeList[0] !in s.freeList[1..];
    assert |s.next| > 0 ==> s.next[0] in s.next;
  }

  lemma OtherPc(s: State, t: nat, nelems: nat, u: nat)
    requires ListsOk(s) && Owned(s) && t < |s.threads| && u < |s.threads| && t != u
    requires PcOk(s, s.threads[t]) && PcOk(s, s.threads[u])
    ensures PcOk(Step(s, t, nelems), s.threads[u])
  {
    hide Step;
    Effect(s, t, nelems);
    assert |s.freeList| > 0 ==> s.freeList[0] in s.freeList;
    var s' := Step(s, t, nelems);
    assert Holds(s.threads[u]).Some? ==> Holds(s.threads[u]) != Holds(s.threads[t]);
  }

  lemma StepKeepsOwned(s: State, t: nat, nelems: nat)
    requires Inv(s) && t < |s.threads|
    ensures Owned(Step(s, t, nelems))
  {
    hide Exclusive, RangesOk, Accounted, Step;
    Effect(s, t, nelems);
    forall u | 0 <= u < |s.threads| && u != t
      ensures Holds(s.threads[u]).Some? ==> Holds(Step(s, t, nelems).threads[t]) != Holds(s.threads[u])
    {
      StillApart(s, t, nelems, u);
    }
  }

  lemma StillApart(s: State, t: nat, nelems: nat, u: nat)
    requires ListsOk(s) && Owned(s) && t < |s.threads| && u < |s.threads| && t != u
    requires PcOk(s, s.threads[t]) && PcOk(s, s.threads[u])
    ensures Holds(s.threads[u]).Some? ==> Holds(Step(s, t, nelems).threads[t]) != Holds(s.threads[u])
  {
    assert |s.freeList| > 0 ==> s.freeList[0] in s.freeList;
    assert Holds(s.threads[u]).Some? ==> Holds(s.threads[u]) != Holds(s.threads[t]);
  }

  /** Only the thread that holds the lock gives it up, and only a free lock is taken. */
  lemma LockMoves(s: State, t: nat, nelems: nat)
    requires t < |s.threads| && (LockHeld(s.threads[t]) <==> s.lock == Some(t))
    ensures var s' := Step(s, t, nelems);
            && |s'.threads| == |s.threads|
            && (forall u | 0 <= u < |s.threads| && u != t :: s'.threads[u] == s.threads[u])
            && (LockHeld(s'.threads[t]) <==> s'.lock == Some(t))
            && (s'.lock == s.lock || (s.lock in {None, Some(t)} && s'.lock in {None, Some(t)}))
  {
  }

  lemma StepKeepsExclusive(s: State, t: nat, nelems: nat)
    requires Inv(s) && t < |s.threads|
    ensures Exclusive(Step(s, t, nelems))
  {
    hide Owned, ListsOk, ThreadsOk, RangesOk, Accounted, Step, LockHeld;
    LockMoves(s, t, nelems);
  }

  lemma StepKeepsRanges(s: State, t: nat, nelems: nat)
    requires Inv(s) && t < |s.threads|
    ensures RangesOk(Step(s, t, nelems))
  {
    hide Owned, Exclusive, Accounted, Step, ListsOk;
    assert PcOk(s, s.threads[t]);
    Effect(s, t, nelems);
    HandedOut(s, t, nelems);
  }

  lemma StepKeepsAccounted(s: State, t: nat, nelems: nat)
    requires Inv(s) && t < |s.threads|
    ensures Accounted(Step(s, t, nelems))
  {
    hide Owned, Exclusive, RangesOk, Step, ListsOk;
    assert PcOk(s, s.threads[t]);
    var s' := Step(s, t, nelems);
    Effect(s, t, nelems);
    forall a: nat | a < |s'.free| ensures a in s'.next || a in s'.freeList || Held(s', a) {
      Handover(s, t, nelems, a);
      if Holds(s'.threads[t]) == Some(a) {
        assert Held(s', a);
      } else if a < |s.free| && a !in s.next && a !in s.freeList {
        assert Held(s, a);
        var u :| 0 <= u < |s.threads| && Holds(s.threads[u]) == Some(a);
        assert u != t ==> Holds(s'.threads[u]) == Some(a);
      }
    }
  }

  // ---------------------------------------------------------------- every run

  lemma {:induction false} RunsKeepInv(n: nat, schedule: seq<Choice>)
    ensures Inv(Exec(n, schedule))
  {
    hide Step, ListsOk, ThreadsOk, Owned, Exclusive, RangesOk, Accounted;
    if |schedule| == 0 {
      StartInv(n);
    } else {
      var s, c := Exec(n, schedule[..|schedule| - 1]), schedule[|schedule| - 1];
      RunsKeepInv(n, schedule[..|schedule| - 1]);
      if c.thread < n {
        StepKeepsLists(s, c.thread, c.nelems);
        StepKeepsThreads(s, c.thread, c.nelems);
        StepKeepsOwned(s, c.thread, c.nelems);
        StepKeepsExclusive(s, c.thread, c.nelems);
        StepKeepsRanges(s, c.thread, c.nelems);
        StepKeepsAccounted(s, c.thread, c.nelems);
      }
    }
  }

  lemma StartInv(n: nat)
    ensures Inv(Exec(n, []))
  {
  }

  predicate Disjoint(r: Range, q: Range) {
    r.arena != q.arena || End(r) <= q.start || End(q) <= r.start
  }

  /**
   However the threads interleave: the ranges handed out are aligned, lie inside their arenas and do
   not overlap, a range for any elements at all starts inside its arena, and the allocation from an
   arena of one's own fails only if the request is larger than a whole arena.
  */
  lemma Safety(n: nat, schedule: seq<Choice>)
    ensures var s := Exec(n, schedule);
            && (forall i, j | 0 <= i < j < |s.ranges| :: Disjoint(s.ranges[i], s.ranges[j]))
            && (forall r | r in s.ranges :: r.arena in s.next && r.start % 8 == 0 && End(r) <= ARENA_BITS)
            && (forall r | r in s.ranges && r.nelems > 0 :: r.start < ARENA_BITS)
            && (forall t | 0 <= t < n && s.threads[t].Thrown? :: s.threads[t].nelems > 8 * ARENA_BITS)
  {
    RunsKeepInv(n, schedule);
    hide Exec;
    var s := Exec(n, schedule);
    forall t | 0 <= t < n && s.threads[t].Thrown? ensures s.threads[t].nelems > 8 * ARENA_BITS {
      assert PcOk(s, s.threads[t]);
    }
  }

  /** Bytes and the bits asked for: whole words, and fewer than 64 bits to spare. */
  lemma WholeWords(nelems: nat)
    ensures BytesNeeded(nelems) % 8 == 0 && nelems <= 8 * BytesNeeded(nelems) < nelems + 64
  {
  }

  /** Bit i of range r, as a bit of its arena. */
  function BitOf(r: Range, i: nat): nat { 8 * r.start + i }

  /**
   However the threads interleave, no bit of an arena belongs to two callers, and every bit asked for
   lies inside its arena.
  */
  lemma BitsApart(n: nat, schedule: seq<Choice>, i: nat, j: nat, x: nat, y: nat)
    requires var rs := Exec(n, schedule).ranges;
             i < |rs| && j < |rs| && i != j && rs[i].arena == rs[j].arena && x < rs[i].nelems && y < rs[j].nelems
    ensures var rs := Exec(n, schedule).ranges;
            BitOf(rs[i], x) != BitOf(rs[j], y) && BitOf(rs[i], x) < 8 * ARENA_BITS
  {
    Safety(n, schedule);
    hide Exec, BytesNeeded;
    var rs := Exec(n, schedule).ranges;
    WholeWords(rs[i].nelems);
    WholeWords(rs[j].nelems);
    assert Disjoint(rs[if i < j then i else j], rs[if i < j then j else i]);
    assert rs[i] in rs;
  }

  /** n more bits do not fit into the arena. */
  predicate NoRoom(s: State, a: nat, n: nat) { 8 * FreeOf(s, a) + n > 8 * ARENA_BITS }

  lemma RoomInBits(s: State, a: nat, n: nat)
    requires FreeOf(s, a) % 8 == 0
    ensures NoRoom(s, a, n) <==> FreeOf(s, a) + BytesNeeded(n) > ARENA_BITS
  {
  }

  /**
   In every run, a thread that adds to an arena's bump pointer is handed a range if and only if the bits it asked
   for fit. The range begins where the pointer stood, and the pointer moves on by whole words with
   fewer than 64 bits to spare.
  */
  lemma GrantedIff(n: nat, schedule: seq<Choice>, t: nat, nelems: nat)
    requires t < n && Exec(n, schedule).threads[t].Add?
    ensures var s := Exec(n, schedule);
            var s', pc := Step(s, t, nelems), s.threads[t];
            if NoRoom(s, pc.head, pc.nelems) then s'.ranges == s.ranges
            else
              var moved := FreeOf(s', pc.head) - FreeOf(s, pc.head);
              && s'.ranges == s.ranges + [Range(pc.head, FreeOf(s, pc.head), pc.nelems)]
              && moved % 8 == 0 && pc.nelems <= 8 * moved < pc.nelems + 64
  {
    RunsKeepInv(n, schedule);
    hide Exec;
    var s := Exec(n, schedule);
    var pc := s.threads[t];
    assert PcOk(s, pc);
    RoomInBits(s, pc.head, pc.nelems);
    WholeWords(pc.nelems);
    HandedOut(s, t, nelems);
  }

  /** In every run, the first try is with the current arena, and a try gives up early only if the bits do not fit. */
  lemma TriedIff(n: nat, schedule: seq<Choice>, t: nat, nelems: nat)
    requires t < n
    ensures var s := Exec(n, schedule);
            var pc, pc' := s.threads[t], Step(s, t, nelems).threads[t];
            && (pc.LoadHead? ==> pc' == Check(First, if s.next == [] then None else Some(s.next[0]), pc.nelems))
            && (pc.Check? ==> (pc'.Add? <==> pc.arena.Some? && !NoRoom(s, pc.arena.value, pc.nelems)))
  {
    RunsKeepInv(n, schedule);
    hide Exec;
    var s := Exec(n, schedule);
    var pc := s.threads[t];
    assert PcOk(s, pc);
    if pc.Check? && pc.arena.Some? {
      RoomInBits(s, pc.arena.value, pc.nelems);
    }
  }

  // ---------------------------------------------------------------- no arena is taken without need

  /** The current arena, if there is one, has no room for n more bits. */
  predicate Full(s: State, n: nat) { s.next == [] || NoRoom(s, s.next[0], n) }

  predicate OnFresh(pc: Pc) { pc.Thrown? || ((pc.Check? || pc.Add?) && pc.site.Fresh?) }

  /** What a thread that holds the lock has seen of the current arena is still so. */
  predicate Seen(s: State, pc: Pc) {
    && (pc.Check? && (pc.site.Locked? || pc.site.Again?) ==> pc.arena == Head(s.next))
    && (pc.Add? && (pc.site.Locked? || pc.site.Again?) ==> Some(pc.head) == Head(s.next))
    && (pc.NewArena? || OnFresh(pc) ==> Full(s, pc.nelems))
  }

  /** A thread's own step. */
  lemma OwnSeen(s: State, t: nat, nelems: nat)
    requires t < |s.threads| && ListsOk(s) && PcOk(s, s.threads[t]) && Seen(s, s.threads[t])
    ensures Seen(Step(s, t, nelems), Step(s, t, nelems).threads[t])
  {
    hide NoDup;
    var pc := s.threads[t];
    if pc.Check? && pc.arena.Some? {
      RoomInBits(s, pc.arena.value, pc.nelems);
    }
    if pc.Add? {
      RoomInBits(s, pc.head, pc.nelems);
    }
    assert |s.freeList| > 0 && |s.next| > 0 ==> s.next[0] in s.next && s.freeList[0] in s.freeList;
  }

  /** Another thread's step: it does not have the lock, so the list of arenas in use stays. */
  lemma OtherSeen(s: State, t: nat, nelems: nat, u: nat)
    requires t < |s.threads| && u < |s.threads| && t != u && ListsOk(s) && PcOk(s, s.threads[t]) && Exclusive(s)
    requires Seen(s, s.threads[u])
    ensures Seen(Step(s, t, nelems), s.threads[u])
  {
    var pc := s.threads[u];
    if pc.NewArena? || OnFresh(pc) || ((pc.Check? || pc.Add?) && !pc.site.First?) {
      assert LockHeld(pc) && !LockHeld(s.threads[t]);
      UnlockedStep(s, t, nelems);
    }
  }

  /** Without the lock a step changes no list, and moves bump pointers up only. */
  lemma UnlockedStep(s: State, t: nat, nelems: nat)
    requires t < |s.threads| && !LockHeld(s.threads[t])
    ensures var s' := Step(s, t, nelems);
            s'.next == s.next && forall a: nat :: FreeOf(s, a) <= FreeOf(s', a)
  {
  }

  lemma {:induction false} RunsKeepSeen(n: nat, schedule: seq<Choice>, u: nat)
    requires u < n
    ensures Seen(Exec(n, schedule), Exec(n, schedule).threads[u])
  {
    hide Step, Seen, PcOk, ListsOk, Owned, RangesOk, Accounted;
    if |schedule| == 0 {
      IdleSeen(Exec(n, schedule));
    } else {
      var s, c := Exec(n, schedule[..|schedule| - 1]), schedule[|schedule| - 1];
      RunsKeepInv(n, schedule[..|schedule| - 1]);
      RunsKeepSeen(n, schedule[..|schedule| - 1], u);
      if c.thread < n {
        assert PcOk(s, s.threads[c.thread]);
        if c.thread == u {
          OwnSeen(s, u, c.nelems);
        } else {
          OtherSeen(s, c.thread, c.nelems, u);
          LockMoves(s, c.thread, c.nelems);
        }
      }
    }
  }

  lemma IdleSeen(s: State)
    ensures Seen(s, Idle)
  {
  }

  /**
   In every run, an arena is put to use only if the current one has no room for the bits asked for, and
   one is mapped only if none is set aside.
  */
  lemma ArenasNeeded(n: nat, schedule: seq<Choice>, t: nat, nelems: nat)
    requires t < n
    ensures var s := Exec(n, schedule);
            var s', pc := Step(s, t, nelems), s.threads[t];
            && (s'.next != s.next ==> Full(s, pc.nelems))
            && (s'.threads[t].Map? ==> s.freeList == [] && Full(s, pc.nelems))
            && (|s'.free| > |s.free| ==> pc.Map?)
  {
    RunsKeepSeen(n, schedule, t);
    hide Exec;
  }

  /** How many steps a thread still takes in its call, waiting for the lock aside. */
  function Work(pc: Pc): nat {
    match pc
    case Idle => 0
    case Thrown(_, _) => 0
    case LoadHead(_) => 13
    case Check(First, _, _) => 12
    case Add(First, _, _) => 11
    case WantLock(_) => 10
    case Check(Locked, _, _) => 9
    case Add(Locked, _, _) => 8
    case NewArena(_) => 7
    case Map(_) => 6
    case Relock(_, _) => 5
    case Check(Again(_), _, _) => 4
    case Add(Again(_), _, _) => 3
    case Check(Fresh(_), _, _) => 2
    case Add(Fresh(_), _, _) => 1
  }

  /**
   Every call ends: each step of a thread in a call leaves it less to do and changes no other thread's work, unless
   it waits for the lock; and then another thread holds it and does not wait itself.
  */
  lemma Progress(n: nat, schedule: seq<Choice>, t: nat, nelems: nat)
    requires t < n && Work(Exec(n, schedule).threads[t]) > 0
    ensures var s := Exec(n, schedule);
            var s' := Step(s, t, nelems);
            && (forall u | 0 <= u < n && u != t :: s'.threads[u] == s.threads[u])
            && (Work(s'.threads[t]) < Work(s.threads[t]) ||
                (s' == s && s.lock.Some? && s.lock.value != t && s.lock.value < n
                 && LockHeld(s.threads[s.lock.value])))
  {
    RunsKeepInv(n, schedule);
    hide Exec;
    var s := Exec(n, schedule);
    LockMoves(s, t, nelems);
  }

  /**
   In every run: a step hands out a range that starts one past the last byte of its arena if and only
   if the call asked for no elements and the arena it allocates from is full. The index expression of
   the code would not survive that.
  */
  lemma StartsAtTheEndIff(n: nat, schedule: seq<Choice>, t: nat, nelems: nat)
    requires t < n
    ensures var s := Exec(n, schedule);
            var s', pc := Step(s, t, nelems), s.threads[t];
            (|s'.ranges| > |s.ranges| && s'.ranges[|s'.ranges| - 1].start == ARENA_BITS)
            <==> pc.Add? && pc.nelems == 0 && FreeOf(s, pc.head) == ARENA_BITS
  {
    RunsKeepInv(n, schedule);
    hide Exec;
    var s := Exec(n, schedule);
    assert PcOk(s, s.threads[t]);
    HandedOut(s, t, nelems);
  }

  function Rep(nelems: nat, k: nat): seq<Choice> { seq(k, _ => Choice(0, nelems)) }

  /** One more choice. */
  lemma ExecNext(n: nat, schedule: seq<Choice>, c: Choice)
    ensures Exec(n, schedule + [c]) ==
            if c.thread < n then Step(Exec(n, schedule), c.thread, c.nelems) else Exec(n, schedule)
  {
    assert (schedule + [c])[..|schedule|] == schedule;
  }

  lemma After(e: nat, k: nat, s: State, s': State)
    requires Exec(1, Rep(e, k)) == s && |s.threads| == 1 && Step(s, 0, e) == s'
    ensures Exec(1, Rep(e, k + 1)) == s'
  {
    hide Step, Exec;
    assert Rep(e, k + 1) == Rep(e, k) + [Choice(0, e)];
    ExecNext(1, Rep(e, k), Choice(0, e));
  }

  /** One thread finds no arena and maps one, in six steps. */
  lemma FirstArena(e: nat)
    ensures Exec(1, Rep(e, 6)) == State([], [], [], None, [Map(e)], [])
  {
    hide Exec, Rep;
    StartState(e);
    After(e, 0, State([], [], [], None, [Idle], []), State([], [], [], None, [LoadHead(e)], []));
    After(e, 1, State([], [], [], None, [LoadHead(e)], []), State([], [], [], None, [Check(First, None, e)], []));
    After(e, 2, State([], [], [], None, [Check(First, None, e)], []), State([], [], [], None, [WantLock(e)], []));
    After(e, 3, State([], [], [], None, [WantLock(e)], []), State([], [], [], Some(0), [Check(Locked, None, e)], []));
    After(e, 4, State([], [], [], Some(0), [Check(Locked, None, e)], []),
        State([], [], [], Some(0), [NewArena(e)], []));
    After(e, 5, State([], [], [], Some(0), [NewArena(e)], []), State([], [], [], None, [Map(e)], []));
  }

  /** Having asked for all the bits of an arena, it gets them in five more. */
  lemma FullArena(e: nat)
    requires BytesNeeded(e) == ARENA_BITS
    ensures Exec(1, Rep(e, 11)) == State([ARENA_BITS], [0], [], None, [Idle], [Range(0, 0, e)])
  {
    hide Exec, Rep, BytesNeeded;
    FirstArena(e);
    After(e, 6, State([], [], [], None, [Map(e)], []), State([0], [], [], None, [Relock(0, e)], []));
    After(e, 7, State([0], [], [], None, [Relock(0, e)], []),
        State([0], [], [], Some(0), [Check(Again(0), None, e)], []));
    After(e, 8, State([0], [], [], Some(0), [Check(Again(0), None, e)], []),
        State([0], [], [], Some(0), [Check(Fresh(0), Some(0), e)], []));
    After(e, 9, State([0], [], [], Some(0), [Check(Fresh(0), Some(0), e)], []),
        State([0], [], [], Some(0), [Add(Fresh(0), 0, e)], []));
    After(e, 10, State([0], [], [], Some(0), [Add(Fresh(0), 0, e)], []),
        State([ARENA_BITS], [0], [], None, [Idle], [Range(0, 0, e)]));
  }

  lemma StartState(e: nat)
    ensures Exec(1, Rep(e, 0)) == State([], [], [], None, [Idle], [])
  {
  }

  /** And then for no bits at all, in four more: the range starts past the end. */
  lemma EmptyRequestAtTheEnd()
    ensures Exec(1, Rep(524160, 11) + Rep(0, 4)).ranges == [Range(0, 0, 524160), Range(0, ARENA_BITS, 0)]
  {
    hide Exec;
    FullArena(524160);
    var a, c := Rep(524160, 11), Choice(0, 0);
    ExecNext(1, a, c);
    ExecNext(1, a + [c], c);
    ExecNext(1, a + [c] + [c], c);
    ExecNext(1, a + [c] + [c] + [c], c);
    assert a + Rep(0, 4) == a + [c] + [c] + [c] + [c];
    assert Exec(1, a + [c] + [c]) == State([ARENA_BITS], [0], [], None, [Check(First, Some(0), 0)],
        [Range(0, 0, 524160)]);
  }

  /**
   When no thread is in newMarkBits, every arena obtained is on the next list or on the free list, on one of
   them and once.
  */
  lemma NoArenaLost(n: nat, schedule: seq<Choice>, a: nat)
    requires var s := Exec(n, schedule); (forall t | 0 <= t < n :: s.threads[t].Idle?) && a < |s.free|
    ensures var s := Exec(n, schedule); multiset(s.next + s.freeList)[a] == 1
  {
    RunsKeepInv(n, schedule);
    var s := Exec(n, schedule);
    assert !Held(s, a);
    CountsOnce(s, a);
  }

  lemma CountsOnce(s: State, a: nat)
    requires ListsOk(s) && (a in s.next || a in s.freeList)
    ensures multiset(s.next + s.freeList)[a] == 1
  {
    Multiplicity(s.next, a);
    Multiplicity(s.freeList, a);
  }

  lemma {:induction false} Multiplicity(list: seq<nat>, a: nat)
    requires NoDup(list)
    ensures multiset(list)[a] == if a in list then 1 else 0
  {
    if |list| > 0 {
      var init := list[..|list| - 1];
      Multiplicity(init, a);
      assert list == init + [list[|list| - 1]];
      assert list[|list| - 1] !in init;
    }
  }
}
