/**
 Encoder and decoder over whole runs: limits are set at any time, fields are sent, blocks end. The
 tables of the two may come apart, and yet no field is ever read wrongly.
*/
module HpackRuns {
  import opened BitStrings
  import opened HuffmanCode
  import opened VarInt
  import opened HeaderTable
  import opened DynamicTables
  import opened Hpack
  import opened HpackLimits
  import opened HpackStream

  // ---------------------------------------------------------------- one field after any limits

  /** What WriteField writes: the updates that are pending, and the representation. */
  function Sent(t: CodeTable, st: seq<HeaderField>, s: Limits, f: HeaderField): seq<Byte>
    requires Shape(t)
  {
    (if s.update then PendingOctets(s.minSize, s.maxSize) else []) + Representation(t, st, s.ents, s.maxSize, f)
  }

  /** The encoder after WriteField. */
  function Wrote(st: seq<HeaderField>, s: Limits, f: HeaderField): Limits {
    Limits(if s.update then U32 - 1 else s.minSize, s.maxSize, s.maxSizeLimit, false,
           NextTable(st, s.ents, s.maxSize, f))
  }

  /** Both ends: the encoder, the decoder's table, and whether the decoder is at the start of a block. */
  datatype Ends = Ends(enc: Limits, dyn: seq<HeaderField>, first: bool)

  /**
   The encoder's table is what the decoder's will be once the updates are taken, less some of its
   oldest entries, and the encoder keeps to what the decoder allows.
  */
  predicate InStep(w: Setup, p: Ends) {
    && Tail(p.enc.ents, EvictTo(p.dyn, p.enc.minSize))
    && (if p.enc.update then Counted(p.enc.ents) <= p.enc.maxSize else p.enc.minSize == U32 - 1)
    && p.enc.maxSize <= w.allowed < U32 && p.enc.maxSizeLimit <= w.allowed
  }

  /** The decoder refuses an update: it does not come first, or it is the second one, and the table is not empty. */
  predicate Refused(p: Ends) {
    && p.enc.update
    && (|| (!p.first && Counted(p.dyn) > 0)
        || (p.enc.minSize < p.enc.maxSize && Counted(EvictTo(p.dyn, p.enc.minSize)) > 0))
  }

  /** What the decoder reports of a field. */
  function Verdict(w: Setup, p: Ends, f: HeaderField): Status {
    if Refused(p) then Error(UpdateNotAtStart)
    else if w.drops && Indexes(w.st, p.enc.ents, p.enc.maxSize, f) then Error(InvalidEncoding) else Done
  }

  /** Both ends after a field that was not refused. */
  function Delivered(w: Setup, p: Ends, f: HeaderField): Ends {
    var dyn := Announced(p.enc, p.dyn);
    Ends(Wrote(w.st, p.enc, f), if Indexes(w.st, p.enc.ents, p.enc.maxSize, f) then dyn + [f] else dyn, false)
  }

  /** Limits that are set keep both ends in step. */
  lemma CallKeepsStep(w: Setup, p: Ends, c: LimitCall)
    requires InStep(w, p) && (c.SetLimit? ==> c.v <= w.allowed)
    ensures InStep(w, p.(enc := Called(p.enc, c)))
  {
    hide EvictTo, Counted, Tail;
    var s, s' := p.enc, Called(p.enc, c);
    if Evicts(s, c) {
      EvictTails(s.ents, EvictTo(p.dyn, s.minSize), s'.maxSize);
      EvictTwice(p.dyn, s.minSize, s'.maxSize);
      EvictTwice(p.dyn, s'.minSize, s.minSize);
      FurtherTail(p.dyn, s'.minSize, Min(s.minSize, s'.maxSize));
      TailOfTail(s'.ents, EvictTo(p.dyn, Min(s.minSize, s'.maxSize)), EvictTo(p.dyn, s'.minSize));
    }
  }

  /** A smaller limit leaves a tail. */
  lemma FurtherTail(dyn: seq<HeaderField>, a: nat, b: nat)
    requires b <= a
    ensures Tail(EvictTo(dyn, b), EvictTo(dyn, a))
  {
    hide EvictTo, Tail;
    EvictTwice(dyn, a, b);
    EvictedIsTail(EvictTo(dyn, a), b);
  }

  /** When the field is written, the encoder's table is a tail of what the decoder's becomes. */
  lemma AnnouncedTail(w: Setup, p: Ends)
    requires InStep(w, p)
    ensures Tail(p.enc.ents, Announced(p.enc, p.dyn))
  {
    hide EvictTo, Counted, Tail;
    var s := p.enc;
    if s.update {
      EvictTails(s.ents, EvictTo(p.dyn, s.minSize), s.maxSize);
      EvictTwice(p.dyn, s.minSize, s.maxSize);
      Evicted(s.ents, s.maxSize);
    } else {
      Unlimited(p.dyn);
    }
  }

  lemma DeliveredInStep(w: Setup, p: Ends, f: HeaderField)
    requires InStep(w, p)
    ensures InStep(w, Delivered(w, p, f))
  {
    hide EvictTo, Counted, SearchBoth, TypeOf;
    AnnouncedTail(w, p);
    Unlimited(Delivered(w, p, f).dyn);
    var dyn := Announced(p.enc, p.dyn);
    assert (dyn + [f])[|dyn| - |p.enc.ents|..] == dyn[|dyn| - |p.enc.ents|..] + [f];
  }

  /** The decoder takes a size update off the front, or refuses it and changes nothing. */
  lemma UpdateRead(t: CodeTable, w: Setup, first: bool, dyn: seq<HeaderField>, v: nat, rest: seq<Byte>)
    requires Shape(t) && Fits(v)
    ensures
      ReadAll(t, w, first, dyn, UpdateOctets(v) + rest)
      == if !first && Counted(dyn) > 0 then Received(Error(UpdateNotAtStart), [], dyn, [], false)
         else if v <= w.allowed then ReadAll(t, w, false, EvictTo(dyn, v), rest)
         else Received(Error(UpdateTooLarge), [], dyn, [], false)
  {
    hide Encoded, ReadSpec, ReadAll, EvictTo, Counted, Shape, ParseField;
    FlagKept(5, v, 0x20);
    var buf := UpdateOctets(v) + rest;
    assert buf[0] == UpdateOctets(v)[0];
    OneRead(t, w, first, dyn, buf);
    UpdateBack(dyn, w.allowed, first, v, rest);
  }

  /** The decoder takes a field off the front. */
  lemma FieldRead(t: CodeTable, w: Setup, first: bool, dyn: seq<HeaderField>, mine: seq<HeaderField>, maxSize: nat,
                  f: HeaderField, rest: seq<Byte>)
    requires CompleteTable(t) && Admits(w.c, f) && Reasonable(w.st, dyn, f) && Tail(dyn, mine)
    ensures
      var r := ReadAll(t, w, first, mine, Representation(t, w.st, dyn, maxSize, f) + rest);
      var mine' := if Indexes(w.st, dyn, maxSize, f) then mine + [f] else mine;
      r == if w.drops && Indexes(w.st, dyn, maxSize, f)
           then Received(Error(InvalidEncoding), [], mine', Shown(w.c, [f]), false)
           else Behind(Shown(w.c, [f]), ReadAll(t, w, false, mine', rest))
  {
    hide Representation, ReadAll, ParseField, Tail, Shape, PrefixFree, PaddingIsNoCode, PaddingLeadsSomewhere;
    var r := Representation(t, w.st, dyn, maxSize, f);
    IndexingShows(t, w.st, dyn, maxSize, f);
    assert (r + rest)[0] == r[0];
    FieldBack(t, w.st, dyn, mine, maxSize, w.c, f, rest);
    OneRead(t, w, first, mine, r + rest);
  }

  /**
   One field in step, whatever limits were set before: unless an update is refused, the field comes out as it
   was sent, whether or not the tables agree. A dispatch that drops the result for an indexed field
   hands it out all the same and reports an error.
  */
  lemma SendBack(t: CodeTable, w: Setup, p: Ends, f: HeaderField, rest: seq<Byte>)
    requires CompleteTable(t) && InStep(w, p) && Admits(w.c, f) && Reasonable(w.st, p.enc.ents, f)
    ensures
      var r, p' := ReadAll(t, w, p.first, p.dyn, Sent(t, w.st, p.enc, f) + rest), Delivered(w, p, f);
      var v := Verdict(w, p, f);
      if Refused(p) then r.status == v && r.emitted == []
      else if v.Error? then r == Received(v, [], p'.dyn, Shown(w.c, [f]), false)
      else r == Behind(Shown(w.c, [f]), ReadAll(t, w, false, p'.dyn, rest))
  {
    hide Representation, ReadAll, Indexes, UpdateOctets, EvictTo, Counted, Tail, Shape, PrefixFree, PaddingIsNoCode,
      PaddingLeadsSomewhere;
    AnnouncedTail(w, p);
    var s, repr := p.enc, Representation(t, w.st, p.enc.ents, p.enc.maxSize, f);
    FieldRead(t, w, p.first && !s.update, s.ents, Announced(s, p.dyn), s.maxSize, f, rest);
    if s.update {
      PendingRead(t, w, p, repr + rest);
      assert Sent(t, w.st, s, f) + rest == PendingOctets(s.minSize, s.maxSize) + (repr + rest);
    } else {
      assert [] + repr + rest == repr + rest;
    }
  }

  /** The pending updates are taken off the front, or refused. */
  lemma PendingRead(t: CodeTable, w: Setup, p: Ends, rest: seq<Byte>)
    requires Shape(t) && InStep(w, p) && p.enc.update
    ensures
      var r := ReadAll(t, w, p.first, p.dyn, PendingOctets(p.enc.minSize, p.enc.maxSize) + rest);
      if Refused(p) then r.status == Error(UpdateNotAtStart) && r.emitted == []
      else r == ReadAll(t, w, false, Announced(p.enc, p.dyn), rest)
  {
    hide ReadAll, UpdateOctets, EvictTo, Counted, Tail, Shape;
    var a, b := p.enc.minSize, p.enc.maxSize;
    if a < b {
      assert UpdateOctets(a) + UpdateOctets(b) + rest == UpdateOctets(a) + (UpdateOctets(b) + rest);
      UpdateRead(t, w, p.first, p.dyn, a, UpdateOctets(b) + rest);
      UpdateRead(t, w, false, EvictTo(p.dyn, a), b, rest);
      EvictTwice(p.dyn, a, b);
    } else {
      assert [] + UpdateOctets(b) + rest == UpdateOctets(b) + rest;
      UpdateRead(t, w, p.first, p.dyn, b, rest);
    }
  }

  /** With equal tables before the calls, they are equal after the first field if and only if `AgreesIff` says so. */
  lemma EqualAgain(w: Setup, p: Ends, cs: seq<LimitCall>, f: HeaderField)
    requires p.enc.ents == p.dyn && p.enc.minSize == U32 - 1 && !p.enc.update
    ensures
      var e := CallAll(p.enc, cs);
      var p' := Delivered(w, p.(enc := e), f);
      p'.dyn == p'.enc.ents <==> Counted(Announced(e, p.dyn)) <= Lowest(p.enc, cs, U32 - 1)
  {
    hide EvictTo, Counted, Indexes, Announced, Lowest, CallAll;
    AgreesIff(p.enc, cs);
    var e := CallAll(p.enc, cs);
    SameEnd(Announced(e, p.dyn), e.ents, f);
  }

  lemma SameEnd(a: seq<HeaderField>, b: seq<HeaderField>, f: HeaderField)
    ensures a + [f] == b + [f] <==> a == b
  {
    assert (a + [f])[..|a|] == a && (b + [f])[..|b|] == b;
  }

  // ---------------------------------------------------------------- whole blocks and runs

  /** What happens on the encoder's side: a limit is set, or a field is written. */
  datatype Act = Call(c: LimitCall) | Send(f: HeaderField)

  /** Everything written for the acts. */
  function Octets(t: CodeTable, st: seq<HeaderField>, s: Limits, acts: seq<Act>): seq<Byte>
    requires Shape(t)
    decreases |acts|
  {
    if |acts| == 0 then []
    else
      match acts[0]
      case Call(c) => Octets(t, st, Called(s, c), acts[1..])
      case Send(f) => Sent(t, st, s, f) + Octets(t, st, Wrote(st, s, f), acts[1..])
  }

  /** Both ends after one act. */
  function Next(w: Setup, p: Ends, a: Act): Ends {
    match a
    case Call(c) => p.(enc := Called(p.enc, c))
    case Send(f) => Delivered(w, p, f)
  }

  function After(w: Setup, p: Ends, acts: seq<Act>): Ends
    decreases |acts|
  {
    if |acts| == 0 then p else After(w, Next(w, p, acts[0]), acts[1..])
  }

  /** The first error that a field meets, if any does. */
  function Fate(w: Setup, p: Ends, acts: seq<Act>): Status
    decreases |acts|
  {
    if |acts| == 0 then Done
    else if acts[0].Send? && Verdict(w, p, acts[0].f).Error? then Verdict(w, p, acts[0].f)
    else Fate(w, Next(w, p, acts[0]), acts[1..])
  }

  /** The fields up to the first error. One whose result is dropped was handed out, one that is refused was not. */
  function Handed(w: Setup, p: Ends, acts: seq<Act>): (r: seq<HeaderField>)
    ensures Fate(w, p, acts).Done? ==> r == FieldsOf(acts)
    decreases |acts|
  {
    if |acts| == 0 || (acts[0].Send? && Refused(p)) then []
    else if acts[0].Send? && Verdict(w, p, acts[0].f).Error? then [acts[0].f]
    else (if acts[0].Send? then [acts[0].f] else []) + Handed(w, Next(w, p, acts[0]), acts[1..])
  }

  lemma FirstAct(w: Setup, p: Ends, acts: seq<Act>)
    requires |acts| > 0
    ensures
      var p', rest := Next(w, p, acts[0]), acts[1..];
      if acts[0].Send? && Verdict(w, p, acts[0].f).Error? then
        && Fate(w, p, acts) == Verdict(w, p, acts[0].f)
        && Handed(w, p, acts) == if Refused(p) then [] else [acts[0].f]
      else
        && Fate(w, p, acts) == Fate(w, p', rest) && After(w, p, acts) == After(w, p', rest)
        && Handed(w, p, acts) == (if acts[0].Send? then [acts[0].f] else []) + Handed(w, p', rest)
  {
  }

  lemma NoActs(w: Setup, p: Ends)
    ensures Fate(w, p, []) == Done && After(w, p, []) == p && Handed(w, p, []) == []
  {
  }

  function FieldsOf(acts: seq<Act>): seq<HeaderField> {
    if |acts| == 0 then [] else (if acts[0].Send? then [acts[0].f] else []) + FieldsOf(acts[1..])
  }

  /** Limits, and then one field. */
  function CallsThenField(cs: seq<LimitCall>, f: HeaderField): seq<Act> {
    if |cs| == 0 then [Send(f)] else [Call(cs[0])] + CallsThenField(cs[1..], f)
  }

  lemma {:induction false} AfterCalls(w: Setup, p: Ends, cs: seq<LimitCall>, f: HeaderField)
    ensures
      var acts, p' := CallsThenField(cs, f), p.(enc := CallAll(p.enc, cs));
      && Fate(w, p, acts) == Verdict(w, p', f)
      && (Verdict(w, p', f).Done? ==> After(w, p, acts) == Delivered(w, p', f) && Handed(w, p, acts) == [f])
    decreases |cs|
  {
    hide Called, Verdict, Delivered;
    if |cs| == 0 {
      FirstAct(w, p, [Send(f)]);
    } else {
      AfterCalls(w, p.(enc := Called(p.enc, cs[0])), cs[1..], f);
      FirstAct(w, p, CallsThenField(cs, f));
    }
  }

  /** No limit exceeds what the decoder allows, and no field or table outgrows what an integer can say. */
  predicate Sound(w: Setup, p: Ends, acts: seq<Act>) {
    && Fits(|w.st| + |p.enc.ents| + |acts|)
    && forall a | a in acts ::
         match a
         case Call(c) => c.SetLimit? ==> c.v <= w.allowed
         case Send(f) => Admits(w.c, f) && Fits(|f.name|) && Fits(|f.value|)
  }

  lemma NextSound(w: Setup, p: Ends, acts: seq<Act>)
    requires InStep(w, p) && Sound(w, p, acts) && |acts| > 0
    ensures InStep(w, Next(w, p, acts[0])) && Sound(w, Next(w, p, acts[0]), acts[1..])
    ensures acts[0].Send? ==> Admits(w.c, acts[0].f) && Reasonable(w.st, p.enc.ents, acts[0].f)
  {
    hide EvictTo, Indexes, InStep;
    assert acts[0] in acts;
    assert forall a | a in acts[1..] :: a in acts;
    match acts[0] {
      case Call(c) => CallKeepsStep(w, p, c);
      case Send(f) => DeliveredInStep(w, p, f);
    }
  }

  /**
   A whole block comes back, whatever limits are set before it or inside it: all its fields, in
   order, up to the first error. Without one the tables are in step again.
  */
  lemma {:induction false} BlockBack(t: CodeTable, w: Setup, p: Ends, acts: seq<Act>)
    requires CompleteTable(t) && InStep(w, p) && Sound(w, p, acts)
    ensures
      var r, p' := ReadAll(t, w, p.first, p.dyn, Octets(t, w.st, p.enc, acts)), After(w, p, acts);
      && r.status == Fate(w, p, acts) && r.emitted == Shown(w.c, Handed(w, p, acts))
      && (r.status == Done ==>
            InStep(w, p') && r == Received(Done, [], p'.dyn, Shown(w.c, FieldsOf(acts)), p'.first))
    decreases |acts|
  {
    hide ReadAll, Sent, InStep, Sound, Refused, Called, Delivered, Shape, PrefixFree, PaddingIsNoCode,
      PaddingLeadsSomewhere;
    if |acts| == 0 {
      NothingRead(t, w, p.first, p.dyn);
    } else {
      NextSound(w, p, acts);
      BlockBack(t, w, Next(w, p, acts[0]), acts[1..]);
      if acts[0].Send? {
        NextEnds(w, p, acts[0].f);
        SendBack(t, w, p, acts[0].f, Octets(t, w.st, Wrote(w.st, p.enc, acts[0].f), acts[1..]));
      }
    }
  }

  lemma SomethingSent(t: CodeTable, st: seq<HeaderField>, s: Limits, f: HeaderField)
    requires Shape(t)
    ensures |Sent(t, st, s, f)| > 0
  {
    hide Representation, PendingOctets;
    SomethingWritten(t, st, s.ents, s.maxSize, f);
  }

  lemma NextEnds(w: Setup, p: Ends, f: HeaderField)
    ensures Delivered(w, p, f).enc == Wrote(w.st, p.enc, f) && !Delivered(w, p, f).first
  {
  }

  // ---------------------------------------------------------------- blocks in pieces

  /** i takes at most k groups. */
  lemma {:induction false} GroupsShort(i: nat, k: nat)
    requires 1 <= k <= 9 && i < Weight(k)
    ensures |Groups(i)| <= k
  {
    if i >= 128 {
      GroupsShort(i / 128, k - 1);
    }
  }

  lemma EncodedShort(n: nat, i: nat, k: nat)
    requires 1 <= n <= 8 && 1 <= k <= 9 && i < Weight(k)
    ensures |Encoded(n, i)| <= k + 1
  {
    if i >= PrefixMax(n) {
      GroupsShort(i - PrefixMax(n), k);
    }
  }

  /** A string within the limit takes at most eight octets more than the limit. */
  lemma StringShort(t: CodeTable, s: Str, maxStrLen: nat)
    requires Shape(t) && |s| <= maxStrLen < Weight(7)
    ensures |StringOctets(t, s)| <= maxStrLen + 8
  {
    hide Encoded, HuffmanString, Shape;
    EncodedShort(7, |s|, 7);
    EncodedShort(7, if |HuffmanString(t, s)| < |s| then |HuffmanString(t, s)| else |s|, 7);
  }

  /** A field within the limit is never too much to keep, as long as an octet is missing. */
  lemma FieldShort(t: CodeTable, st: seq<HeaderField>, dyn: seq<HeaderField>, maxSize: nat, c: Config, f: HeaderField)
    requires Shape(t) && 0 < c.maxStrLen < Weight(7) && Admits(c, f) && Fits(|st| + |dyn|)
    ensures |Representation(t, st, dyn, maxSize, f)| <= 2 * (c.maxStrLen + 8) + 1
  {
    hide Encoded, StringOctets, SearchBoth, Shape;
    SearchIsAt(st, dyn, f);
    Weights();
    var i := SearchBoth(st, dyn, f).index;
    EncodedShort(7, i, 9);
    EncodedShort(PrefixOf(TypeOf(maxSize, f)), i, 9);
    StringShort(t, f.name, c.maxStrLen);
    StringShort(t, f.value, c.maxStrLen);
  }

  lemma PendingShort(a: nat, b: nat)
    requires b < U32
    ensures |PendingOctets(a, b)| <= 12
  {
    hide Encoded;
    assert Weight(5) == 0x8_0000_0000;
    if a < b {
      EncodedShort(5, a, 5);
    }
    EncodedShort(5, b, 5);
  }

  lemma {:induction false} OverflowIsLong(t: CodeTable, w: Setup, first: bool, dyn: seq<HeaderField>, buf: seq<Byte>)
    requires Shape(t) && Overflows(t, w, first, dyn, buf)
    ensures TooMuch(w.c, buf)
    decreases |buf|
  {
    hide ParseNext, Shape;
    NextExtends(t, w, first, dyn, buf, []);
    var o := ParseNext(t, w, first, dyn, buf);
    if o.status.Done? {
      OverflowIsLong(t, w, false, o.dyn, o.rest);
    }
  }

  /** What is written for one field can be cut off anywhere. */
  lemma SentKeepsLittle(t: CodeTable, w: Setup, p: Ends, f: HeaderField, m: nat)
    requires CompleteTable(t) && InStep(w, p) && Admits(w.c, f) && Reasonable(w.st, p.enc.ents, f) && !Refused(p)
    requires w.c.maxStrLen < Weight(7) && m < |Sent(t, w.st, p.enc, f)|
    ensures !Overflows(t, w, p.first, p.dyn, Sent(t, w.st, p.enc, f)[..m])
  {
    hide Representation, PendingOctets, ReadAll, Overflows, Refused, InStep, Weight, Shape, PrefixFree, PaddingIsNoCode,
      PaddingLeadsSomewhere;
    if w.c.maxStrLen > 0 {
      FieldShort(t, w.st, p.enc.ents, p.enc.maxSize, w.c, f);
    }
    var s, repr := p.enc, Representation(t, w.st, p.enc.ents, p.enc.maxSize, f);
    var pending := if s.update then PendingOctets(s.minSize, s.maxSize) else [];
    var part := (pending + repr)[..m];
    if Overflows(t, w, p.first, p.dyn, part) {
      OverflowIsLong(t, w, p.first, p.dyn, part);
      if s.update {
        AllowedSmall(w, p);
        PendingShort(s.minSize, s.maxSize);
        assert m > |pending|;
        assert part == pending + repr[..m - |pending|];
        PendingRead(t, w, p, []);
        assert pending + [] == pending;
        NothingRead(t, w, false, Announced(s, p.dyn));
        TwoWrites(t, w, p.first, p.dyn, pending, repr[..m - |pending|]);
        assert [] + repr[..m - |pending|] == repr[..m - |pending|];
        OverflowIsLong(t, w, false, Announced(s, p.dyn), repr[..m - |pending|]);
      }
    }
  }

  lemma AllowedSmall(w: Setup, p: Ends)
    requires InStep(w, p)
    ensures p.enc.maxSize <= w.allowed < U32
  {
  }

  /** What is written for a block can be cut off anywhere. */
  lemma {:induction false} BlockKeepsLittle(t: CodeTable, w: Setup, p: Ends, acts: seq<Act>, m: nat)
    requires CompleteTable(t) && InStep(w, p) && Sound(w, p, acts) && Fate(w, p, acts) == Done
    requires w.c.maxStrLen < Weight(7) && m <= |Octets(t, w.st, p.enc, acts)|
    ensures !Overflows(t, w, p.first, p.dyn, Octets(t, w.st, p.enc, acts)[..m])
    decreases |acts|
  {
    hide Sent, ReadAll, InStep, Sound, Refused, Called, Delivered, Weight, ParseNext, Shape, PrefixFree,
      PaddingIsNoCode, PaddingLeadsSomewhere;
    if |acts| > 0 {
      NextSound(w, p, acts);
      match acts[0] {
        case Call(c) => BlockKeepsLittle(t, w, Next(w, p, acts[0]), acts[1..], m);
        case Send(f) =>
          NextEnds(w, p, f);
          var sent, more := Sent(t, w.st, p.enc, f), Octets(t, w.st, Wrote(w.st, p.enc, f), acts[1..]);
          if m < |sent| {
            SentKeepsLittle(t, w, p, f, m);
            assert (sent + more)[..m] == sent[..m];
          } else {
            SendBack(t, w, p, f, []);
            assert sent + [] == sent;
            NothingRead(t, w, false, Delivered(w, p, f).dyn);
            TwoWrites(t, w, p.first, p.dyn, sent, more[..m - |sent|]);
            assert (sent + more)[..m] == sent + more[..m - |sent|];
            assert [] + more[..m - |sent|] == more[..m - |sent|];
            BlockKeepsLittle(t, w, Next(w, p, acts[0]), acts[1..], m - |sent|);
          }
      }
    }
  }

  lemma {:induction false} JoinedPrefix(chunks: seq<seq<Byte>>, k: nat)
    requires k <= |chunks|
    ensures Joined(chunks[..k]) <= Joined(chunks)
  {
    if k > 0 {
      JoinedPrefix(chunks[1..], k - 1);
      assert chunks[..k][1..] == chunks[1..][..k - 1];
    }
  }

  /** A whole block comes back however it is split into writes. */
  lemma BlockInPieces(t: CodeTable, w: Setup, p: Ends, acts: seq<Act>, chunks: seq<seq<Byte>>)
    requires CompleteTable(t) && InStep(w, p) && Sound(w, p, acts) && Fate(w, p, acts) == Done
    requires w.c.maxStrLen < Weight(7) && Joined(chunks) == Octets(t, w.st, p.enc, acts)
    ensures var p' := After(w, p, acts);
            && InStep(w, p')
            && ReadChunks(t, w, p.first, p.dyn, [], chunks)
               == Received(Done, [], p'.dyn, Shown(w.c, FieldsOf(acts)), p'.first)
  {
    hide Octets, ReadAll, ReadChunks, Overflows, Fate, InStep, Sound, Weight, After, Handed, Shape, PrefixFree,
      PaddingIsNoCode, PaddingLeadsSomewhere;
    BlockBack(t, w, p, acts);
    NothingRead(t, w, p.first, p.dyn);
    forall k | 0 <= k <= |chunks| ensures !Overflows(t, w, p.first, p.dyn, [] + Joined(chunks[..k])) {
      JoinedPrefix(chunks, k);
      var all, part := Joined(chunks), Joined(chunks[..k]);
      assert [] + part == all[..|part|];
      BlockKeepsLittle(t, w, p, acts, |part|);
    }
    AnySplit(t, w, p.first, p.dyn, [], chunks);
    assert [] + Joined(chunks) == Joined(chunks);
  }

  // ---------------------------------------------------------------- runs of blocks

  /** Block after block, each in pieces; a block that ends in the middle of something is an error. */
  ghost function ReadBlocks(t: CodeTable, w: Setup, dyn: seq<HeaderField>, blocks: seq<seq<seq<Byte>>>): Received
    requires Shape(t)
    decreases |blocks|
  {
    if |blocks| == 0 then Received(Done, [], dyn, [], true)
    else
      var r := ReadChunks(t, w, true, dyn, [], blocks[0]);
      if r.status.Error? then r
      else if |r.saved| > 0 then r.(status := Error(Truncated))
      else Behind(r.emitted, ReadBlocks(t, w, r.dyn, blocks[1..]))
  }

  /** Both ends after a block, at the start of the next one. */
  function AfterBlock(w: Setup, p: Ends, acts: seq<Act>): Ends { After(w, p, acts).(first := true) }

  function AfterBlocks(w: Setup, p: Ends, run: seq<seq<Act>>): Ends
    decreases |run|
  {
    if |run| == 0 then p else AfterBlocks(w, AfterBlock(w, p, run[0]), run[1..])
  }

  /** The pieces are those of what is written for each block; every block is sound and meets no error. */
  predicate PiecesOf(t: CodeTable, w: Setup, p: Ends, run: seq<seq<Act>>, blocks: seq<seq<seq<Byte>>>)
    requires Shape(t)
    decreases |run|
  {
    if |run| == 0 then |blocks| == 0
    else
      && |blocks| > 0 && Joined(blocks[0]) == Octets(t, w.st, p.enc, run[0])
      && Sound(w, p, run[0]) && Fate(w, p, run[0]) == Done
      && PiecesOf(t, w, AfterBlock(w, p, run[0]), run[1..], blocks[1..])
  }

  function AllFields(run: seq<seq<Act>>): seq<HeaderField> {
    if |run| == 0 then [] else FieldsOf(run[0]) + AllFields(run[1..])
  }

  /**
   Encoder and decoder over a whole run: limits are set between blocks and inside them, every block
   arrives in any pieces. All fields come out, in order and with their flags, even while the tables differ.
  */
  lemma {:induction false} Lockstep(t: CodeTable, w: Setup, p: Ends, run: seq<seq<Act>>, blocks: seq<seq<seq<Byte>>>)
    requires CompleteTable(t) && InStep(w, p) && p.first && w.c.maxStrLen < Weight(7)
    requires PiecesOf(t, w, p, run, blocks)
    ensures var p' := AfterBlocks(w, p, run);
            && InStep(w, p')
            && ReadBlocks(t, w, p.dyn, blocks) == Received(Done, [], p'.dyn, Shown(w.c, AllFields(run)), true)
    decreases |run|
  {
    hide ReadChunks, Fate, Sound, After, Octets, Weight, Shape, PrefixFree, PaddingIsNoCode, PaddingLeadsSomewhere;
    if |run| > 0 {
      BlockInPieces(t, w, p, run[0], blocks[0]);
      Lockstep(t, w, AfterBlock(w, p, run[0]), run[1..], blocks[1..]);
    }
  }
}
