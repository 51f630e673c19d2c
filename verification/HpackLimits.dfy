/**
 The limits that are set on the encoder's side, and what they make of the two dynamic tables.
*/
module HpackLimits {
  import opened HeaderTable
  import opened DynamicTables
  import opened Hpack

  // ---------------------------------------------------------------- limits

  /** A call of SetMaxDynamicTableSize or of SetMaxDynamicTableSizeLimit. */
  datatype LimitCall = SetSize(v: nat) | SetLimit(v: nat)

  /** The encoder's state, apart from its buffer. */
  datatype Limits = Limits(minSize: nat, maxSize: nat, maxSizeLimit: nat, update: bool, ents: seq<HeaderField>)

  function Called(s: Limits, c: LimitCall): Limits {
    match c
    case SetSize(v0) =>
      var v := Min(v0, s.maxSizeLimit);
      Limits(Min(s.minSize, v), v, s.maxSizeLimit, true, EvictTo(s.ents, v))
    case SetLimit(v) =>
      if s.maxSize > v then Limits(s.minSize, v, v, true, EvictTo(s.ents, v)) else s.(maxSizeLimit := v)
  }

  function CallAll(s: Limits, cs: seq<LimitCall>): Limits
    decreases |cs|
  {
    if |cs| == 0 then s else CallAll(Called(s, cs[0]), cs[1..])
  }

  /** The call evicts to the limit it sets. */
  predicate Evicts(s: Limits, c: LimitCall) { c.SetSize? || s.maxSize > c.v }

  /** The smallest limit that the calls evict to, if it is below m. */
  function Lowest(s: Limits, cs: seq<LimitCall>, m: nat): nat
    decreases |cs|
  {
    if |cs| == 0 then m
    else
      var s' := Called(s, cs[0]);
      Lowest(s', cs[1..], if Evicts(s, cs[0]) then Min(m, s'.maxSize) else m)
  }

  /** What the decoder makes of its table once it has taken the updates that are pending. */
  function Announced(s: Limits, dyn: seq<HeaderField>): seq<HeaderField> {
    if s.update then EvictTo(dyn, Min(s.minSize, s.maxSize)) else dyn
  }

  /** The encoder's table is the one evicted to the smallest limit. */
  lemma {:induction false} TableAtLowest(s: Limits, cs: seq<LimitCall>, dyn: seq<HeaderField>, m: nat)
    requires s.ents == EvictTo(dyn, m)
    ensures CallAll(s, cs).ents == EvictTo(dyn, Lowest(s, cs, m))
    ensures !CallAll(s, cs).update ==> !s.update && CallAll(s, cs).ents == s.ents
    decreases |cs|
  {
    hide EvictTo;
    if |cs| > 0 {
      var s' := Called(s, cs[0]);
      EvictTwice(dyn, m, s'.maxSize);
      TableAtLowest(s', cs[1..], dyn, if Evicts(s, cs[0]) then Min(m, s'.maxSize) else m);
    }
  }

  /** What is announced is never below what was in force. */
  lemma {:induction false} LowestIsLow(s: Limits, cs: seq<LimitCall>, m: nat)
    requires m <= s.minSize && (s.update ==> m <= s.maxSize)
    ensures var e, low := CallAll(s, cs), Lowest(s, cs, m); low <= e.minSize && (e.update ==> low <= e.maxSize)
    decreases |cs|
  {
    if |cs| > 0 {
      var s' := Called(s, cs[0]);
      LowestIsLow(s', cs[1..], if Evicts(s, cs[0]) then Min(m, s'.maxSize) else m);
    }
  }

  /**
   From equal tables with nothing pending, whatever they hold: after any calls the tables agree once
   the decoder has taken the updates, if and only if what it keeps also fits the smallest limit the
   encoder evicted to. A limit forced by SetMaxDynamicTableSizeLimit is such a one without being announced.
  */
  lemma AgreesIff(s: Limits, cs: seq<LimitCall>)
    requires s.minSize == U32 - 1 && !s.update
    ensures
      var e, low := CallAll(s, cs), Lowest(s, cs, U32 - 1);
      var decoded := Announced(e, s.ents);
      decoded == e.ents <==> Counted(decoded) <= low
  {
    hide EvictTo, Counted, Called;
    Unlimited(s.ents);
    TableAtLowest(s, cs, s.ents, U32 - 1);
    LowestIsLow(s, cs, U32 - 1);
    var e, low := CallAll(s, cs), Lowest(s, cs, U32 - 1);
    if e.update {
      EvictTwice(s.ents, Min(e.minSize, e.maxSize), low);
      Evicted(EvictTo(s.ents, Min(e.minSize, e.maxSize)), low);
    }
  }

  predicate OnlySizes(cs: seq<LimitCall>) { forall c | c in cs :: c.SetSize? }

  /** Allowing no less than the limit in force announces nothing and evicts nothing. */
  lemma LimitAbove(s: Limits, v: nat)
    requires s.maxSize <= v
    ensures Called(s, SetLimit(v)) == s.(maxSizeLimit := v)
  {
  }

  /** What the peer allows holds for every size set later, and a size within it is the one that counts. */
  lemma {:induction false} LimitHolds(s: Limits, cs: seq<LimitCall>, v: nat, x: nat)
    requires OnlySizes(cs)
    ensures var e := CallAll(Called(s, SetLimit(v)), cs);
            e.maxSize <= v && Called(e, SetSize(x)).maxSize == Min(x, v)
    decreases |cs|
  {
    hide EvictTo;
    SizesWithin(Called(s, SetLimit(v)), cs);
  }

  lemma {:induction false} SizesWithin(s: Limits, cs: seq<LimitCall>)
    requires OnlySizes(cs) && s.maxSize <= s.maxSizeLimit
    ensures var e := CallAll(s, cs); e.maxSize <= e.maxSizeLimit == s.maxSizeLimit
    decreases |cs|
  {
    hide EvictTo;
    if |cs| > 0 {
      assert cs[0] in cs;
      SizesWithin(Called(s, cs[0]), cs[1..]);
    }
  }

  /** No call cuts the limit down without announcing it. */
  predicate NothingForced(s: Limits, cs: seq<LimitCall>)
    decreases |cs|
  {
    |cs| == 0 || (!(cs[0].SetLimit? && Evicts(s, cs[0])) && NothingForced(Called(s, cs[0]), cs[1..]))
  }

  /** As long as no limit is forced on the table, what is announced is enough: the tables agree. */
  lemma AnnouncedAgree(s: Limits, cs: seq<LimitCall>)
    requires s.minSize == U32 - 1 && !s.update && NothingForced(s, cs)
    ensures Announced(CallAll(s, cs), s.ents) == CallAll(s, cs).ents
  {
    hide EvictTo, Counted, Called;
    Unlimited(s.ents);
    TableAtLowest(s, cs, s.ents, U32 - 1);
    LowestIsLow(s, cs, U32 - 1);
    LowestIsRemembered(s, cs);
  }

  lemma {:induction false} LowestIsRemembered(s: Limits, cs: seq<LimitCall>)
    requires NothingForced(s, cs)
    ensures Lowest(s, cs, s.minSize) == CallAll(s, cs).minSize
    decreases |cs|
  {
    hide EvictTo;
    if |cs| > 0 {
      LowestIsRemembered(Called(s, cs[0]), cs[1..]);
    }
  }

  lemma Unlimited(ents: seq<HeaderField>)
    ensures EvictTo(ents, U32 - 1) == ents
  {
  }

  lemma Evicted(ents: seq<HeaderField>, m: nat)
    ensures EvictTo(ents, m) == ents <==> Counted(ents) <= m
  {
  }

  /** A limit forced down to 0 and raised again: the encoder's table is empty and the decoder keeps its entry. */
  lemma ForcedLimitDisagrees(f: HeaderField)
    requires f.name == [] && f.value == []
    ensures
      var s := Limits(U32 - 1, 4096, 4096, false, [f]);
      var e := CallAll(s, [SetLimit(0), SetLimit(4096), SetSize(4096)]);
      e.update && e.ents == [] && EvictTo([f], Min(e.minSize, e.maxSize)) == [f]
  {
    var s := Limits(U32 - 1, 4096, 4096, false, [f]);
    assert Total([f]) == Size(f) + Total([]) == 32;
    var cs := [SetLimit(0), SetLimit(4096), SetSize(4096)];
    assert cs[1..] == [SetLimit(4096), SetSize(4096)] && cs[1..][1..] == [SetSize(4096)] && cs[1..][1..][1..] == [];
    var a := Called(s, cs[0]);
    assert a == Limits(U32 - 1, 0, 0, true, []) by {
      assert [f][1..] == [];
    }
    var b := Called(a, cs[1]);
    assert b == Limits(U32 - 1, 0, 4096, true, []);
    assert Called(b, cs[2]) == Limits(4096, 4096, 4096, true, []);
    assert CallAll(s, cs) == CallAll(a, cs[1..]) == CallAll(b, cs[1..][1..]) == CallAll(Called(b, cs[2]), []);
  }

  // ---------------------------------------------------------------- tables that came apart

  lemma TailOfTail(a: seq<HeaderField>, b: seq<HeaderField>, c: seq<HeaderField>)
    requires Tail(a, b) && Tail(b, c)
    ensures Tail(a, c)
  {
    assert c[|c| - |b|..][|b| - |a|..] == c[|c| - |a|..];
  }

  lemma {:induction false} EvictedIsTail(ents: seq<HeaderField>, v: nat)
    ensures Tail(EvictTo(ents, v), ents)
    decreases |ents|
  {
    hide Counted;
    NothingCounted();
    if Counted(ents) > v {
      EvictedIsTail(ents[1..], v);
      TailOfTail(EvictTo(ents, v), ents[1..], ents);
    }
  }

  /** Eviction to the same limit keeps the one table a tail of the other. */
  lemma {:induction false} EvictTails(a: seq<HeaderField>, b: seq<HeaderField>, v: nat)
    requires Tail(a, b)
    ensures Tail(EvictTo(a, v), EvictTo(b, v))
    decreases |b|
  {
    hide EvictTo, Counted;
    EvictedIsTail(a, v);
    if a != b {
      EvictsOne(b, v);
      if Counted(b) <= v {
        TailOfTail(EvictTo(a, v), a, b);
      } else {
        assert b[1..][|b[1..]| - |a|..] == b[|b| - |a|..];
        EvictTails(a, b[1..], v);
      }
    }
  }

  lemma EvictsOne(ents: seq<HeaderField>, v: nat)
    ensures EvictTo(ents, v) == if Counted(ents) <= v then ents else EvictTo(ents[1..], v)
  {
  }
}
