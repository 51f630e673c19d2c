/**
 A header block as a stream: what the decoder makes of any input, however it is split into writes.
*/
module HpackStream {
  import opened BitStrings
  import opened HuffmanCode
  import opened VarInt
  import opened HeaderTable
  import opened DynamicTables
  import opened Hpack

  /**
   What a decoder goes by: its static table, the limit it allows, how it hands fields out, and
   whether its dispatch drops the result of the parser for incremental indexing, as it does today.
  */
  datatype Setup = Setup(st: seq<HeaderField>, allowed: nat, drops: bool, c: Config)

  function UpdateOutcome(u: UpdateResult, buf: seq<Byte>, dyn: seq<HeaderField>): Outcome {
    if u.Updated? then Outcome(Done, u.rest, u.dyn, []) else Outcome(UpdateStatus(u), buf, dyn, [])
  }

  /** The next thing in a block: a size update or a field. */
  ghost function ParseNext(t: CodeTable, w: Setup, first: bool, dyn: seq<HeaderField>, buf: seq<Byte>): Outcome
    requires Shape(t) && |buf| > 0
  {
    if buf[0] / 32 == 1 then UpdateOutcome(ParseUpdate(dyn, w.allowed, first, buf), buf, dyn)
    else
      var o := ParseField(t, w.st, dyn, w.c, buf);
      if w.drops && buf[0] / 64 == 1 then o.(status := Error(InvalidEncoding)) else o
  }

  // ---------------------------------------------------------------- one more input

  /** With more input behind it, what was read stays read and what was refused stays refused. */
  predicate Continues(o: Outcome, more: Outcome, q: seq<Byte>) {
    && (o.status.Done? ==> more == o.(rest := o.rest + q))
    && (o.status.Error? && o.status.error != NeedMoreData ==> more.status == o.status)
  }

  lemma StringExtends(maxStrLen: nat, p: seq<Byte>, q: seq<Byte>)
    ensures var r, more := ReadString(maxStrLen, p), ReadString(maxStrLen, p + q);
            && (r.Raw? ==> |r.rest| < |p| && more == r.(rest := r.rest + q))
            && (r.StringError? && r.error != NeedMoreData ==> more == r)
  {
    hide ReadSpec;
    if |p| > 0 {
      ReadExtends(7, p, q);
      var r := ReadSpec(7, p);
      if r.Read? && r.value <= |r.rest| {
        assert (r.rest + q)[..r.value] == r.rest[..r.value] && (r.rest + q)[r.value..] == r.rest[r.value..] + q;
      }
    }
  }

  lemma ValueExtends(t: CodeTable, dyn: seq<HeaderField>, c: Config, it: IndexType, buf: seq<Byte>, name: Str,
                     rest: seq<Byte>, q: seq<Byte>)
    requires Shape(t)
    ensures var o := ParseValue(t, dyn, c, it, buf, name, rest);
            && Continues(o, ParseValue(t, dyn, c, it, buf + q, name, rest + q), q)
            && (o.status.Done? ==> |o.rest| < |rest|)
            && (o.status == Error(NeedMoreData) ==> o == Outcome(Error(NeedMoreData), buf, dyn, []))
  {
    hide ReadString, Text, Shape;
    StringExtends(c.maxStrLen, rest, q);
  }

  lemma LiteralExtends(t: CodeTable, st: seq<HeaderField>, dyn: seq<HeaderField>, c: Config, it: IndexType,
                       buf: seq<Byte>, q: seq<Byte>)
    requires Shape(t)
    ensures var o := ParseLiteral(t, st, dyn, c, it, buf);
            && Continues(o, ParseLiteral(t, st, dyn, c, it, buf + q), q)
            && (o.status.Done? ==> |o.rest| < |buf|)
            && (o.status == Error(NeedMoreData) ==> o == Outcome(Error(NeedMoreData), buf, dyn, []))
  {
    hide ReadSpec, ReadString, Text, ParseValue, At, Shape;
    ReadExtends(PrefixOf(it), buf, q);
    var r := ReadSpec(PrefixOf(it), buf);
    if r.Read? {
      if r.value == 0 {
        StringExtends(c.maxStrLen, r.rest, q);
        var s := ReadString(c.maxStrLen, r.rest);
        if s.Raw? {
          var name := if Wanted(c, it) then Text(t, c.maxStrLen, s.isHuff, s.b) else [];
          ValueExtends(t, dyn, c, it, buf, name, s.rest, q);
        }
      } else if At(st, dyn, r.value).Entry? {
        ValueExtends(t, dyn, c, it, buf, At(st, dyn, r.value).field.name, r.rest, q);
      }
    }
  }

  lemma IndexedExtends(st: seq<HeaderField>, dyn: seq<HeaderField>, c: Config, buf: seq<Byte>, q: seq<Byte>)
    ensures var o := ParseIndexed(st, dyn, c, buf);
            && Continues(o, ParseIndexed(st, dyn, c, buf + q), q)
            && (o.status.Done? ==> |o.rest| < |buf|)
            && (o.status == Error(NeedMoreData) ==> o == Outcome(Error(NeedMoreData), buf, dyn, []))
  {
    hide ReadSpec, At;
    ReadExtends(7, buf, q);
  }

  lemma UpdateExtends(dyn: seq<HeaderField>, allowed: nat, first: bool, buf: seq<Byte>, q: seq<Byte>)
    ensures var o := UpdateOutcome(ParseUpdate(dyn, allowed, first, buf), buf, dyn);
            && Continues(o, UpdateOutcome(ParseUpdate(dyn, allowed, first, buf + q), buf + q, dyn), q)
            && (o.status.Done? ==> |o.rest| < |buf|)
            && (o.status == Error(NeedMoreData) ==> o == Outcome(Error(NeedMoreData), buf, dyn, []))
  {
    hide ReadSpec, EvictTo, Counted;
    ReadExtends(5, buf, q);
  }

  /** Each thing read takes something off the input, and one that is cut off has no effect at all. */
  lemma NextExtends(t: CodeTable, w: Setup, first: bool, dyn: seq<HeaderField>, buf: seq<Byte>, q: seq<Byte>)
    requires Shape(t) && |buf| > 0
    ensures var o := ParseNext(t, w, first, dyn, buf);
            && Continues(o, ParseNext(t, w, first, dyn, buf + q), q)
            && (o.status.Done? ==> |o.rest| < |buf|)
            && (o.status == Error(NeedMoreData) ==> o == Outcome(Error(NeedMoreData), buf, dyn, []))
  {
    hide ParseUpdate, ParseLiteral, ParseIndexed, Shape;
    assert (buf + q)[0] == buf[0];
    UpdateExtends(dyn, w.allowed, first, buf, q);
    IndexedExtends(w.st, dyn, w.c, buf, q);
    LiteralExtends(t, w.st, dyn, w.c, IndexedTrue, buf, q);
    LiteralExtends(t, w.st, dyn, w.c, IndexedFalse, buf, q);
    LiteralExtends(t, w.st, dyn, w.c, IndexedNever, buf, q);
  }

  // ---------------------------------------------------------------- any number of writes

  /** What is kept for later outgrows any field the limit on strings admits. */
  predicate TooMuch(c: Config, buf: seq<Byte>) { c.maxStrLen != 0 && |buf| > 2 * (c.maxStrLen + 8) }

  /** After a write: status, what is kept for the next one, table, fields handed out, whether the block is new. */
  datatype Received = Received(status: Status, saved: seq<Byte>, dyn: seq<HeaderField>, emitted: seq<HeaderField>,
                               first: bool)

  /** Reads until the input ends, what is left asks for more, or there is an error. */
  ghost function ReadAll(t: CodeTable, w: Setup, first: bool, dyn: seq<HeaderField>, buf: seq<Byte>): Received
    requires Shape(t)
    decreases |buf|
  {
    if |buf| == 0 then Received(Done, [], dyn, [], first)
    else
      var o := ParseNext(t, w, first, dyn, buf);
      if o.status == Error(NeedMoreData) then
        if TooMuch(w.c, buf) then Received(Error(StringTooLong), [], dyn, [], first)
        else Received(Done, buf, dyn, [], first)
      else if o.status.Error? then Received(o.status, [], o.dyn, o.emitted, false)
      else
        NextExtends(t, w, first, dyn, buf, []);
        var more := ReadAll(t, w, false, o.dyn, o.rest);
        more.(emitted := o.emitted + more.emitted)
  }

  /** A write of buf is refused because what it would have to keep is too much. */
  ghost predicate Overflows(t: CodeTable, w: Setup, first: bool, dyn: seq<HeaderField>, buf: seq<Byte>)
    requires Shape(t)
    decreases |buf|
  {
    && |buf| > 0
    && var o := ParseNext(t, w, first, dyn, buf);
       if o.status == Error(NeedMoreData) then TooMuch(w.c, buf)
       else
         NextExtends(t, w, first, dyn, buf, []);
         o.status.Done? && Overflows(t, w, false, o.dyn, o.rest)
  }

  /** Reading one thing, and then the rest. */
  lemma OneRead(t: CodeTable, w: Setup, first: bool, dyn: seq<HeaderField>, buf: seq<Byte>)
    requires Shape(t) && |buf| > 0
    ensures var o, r := ParseNext(t, w, first, dyn, buf), ReadAll(t, w, first, dyn, buf);
            if o.status.Done? then r == Behind(o.emitted, ReadAll(t, w, false, o.dyn, o.rest))
            else if o.status != Error(NeedMoreData) then r == Received(o.status, [], o.dyn, o.emitted, false)
            else if TooMuch(w.c, buf) then r == Received(Error(StringTooLong), [], dyn, [], first)
            else r == Received(Done, buf, dyn, [], first)
    ensures var o := ParseNext(t, w, first, dyn, buf);
            Overflows(t, w, first, dyn, buf)
            <==> if o.status.Done? then Overflows(t, w, false, o.dyn, o.rest)
                 else o.status == Error(NeedMoreData) && TooMuch(w.c, buf)
  {
    hide ParseNext, Shape, TooMuch;
    NextExtends(t, w, first, dyn, buf, []);
  }

  /** The same, after fields that were handed out before. */
  function Behind(before: seq<HeaderField>, r: Received): Received { r.(emitted := before + r.emitted) }

  lemma BehindTwice(a: seq<HeaderField>, b: seq<HeaderField>, r: Received)
    ensures Behind(a, Behind(b, r)) == Behind(a + b, r)
  {
    assert a + (b + r.emitted) == a + b + r.emitted;
  }

  lemma NothingRead(t: CodeTable, w: Setup, first: bool, dyn: seq<HeaderField>)
    requires Shape(t)
    ensures ReadAll(t, w, first, dyn, []) == Received(Done, [], dyn, [], first)
  {
  }

  /**
   Two writes read as one: after a first write without error, the second one ends as a single write
   of both would have. An error of the first one is that of both, unless it is only about what to keep.
  */
  lemma {:induction false} TwoWrites(t: CodeTable, w: Setup, first: bool, dyn: seq<HeaderField>, p: seq<Byte>,
                                     q: seq<Byte>)
    requires Shape(t)
    ensures var a, whole := ReadAll(t, w, first, dyn, p), ReadAll(t, w, first, dyn, p + q);
            && (a.status.Done? ==> whole == Behind(a.emitted, ReadAll(t, w, a.first, a.dyn, a.saved + q)))
            && (a.status.Error? && !Overflows(t, w, first, dyn, p) ==> whole.status == a.status)
            && (a.status.Done? ==>
                  (Overflows(t, w, first, dyn, p + q) <==> Overflows(t, w, a.first, a.dyn, a.saved + q)))
    decreases |p|
  {
    hide ParseNext, ReadAll, Overflows, TooMuch, Shape;
    if |p| == 0 {
      NothingRead(t, w, first, dyn);
      assert p + q == [] + q == q;
    } else {
      NextExtends(t, w, first, dyn, p, q);
      OneRead(t, w, first, dyn, p);
      OneRead(t, w, first, dyn, p + q);
      var o := ParseNext(t, w, first, dyn, p);
      if o.status.Done? {
        TwoWrites(t, w, false, o.dyn, o.rest, q);
      }
    }
  }

  /** Writes one after the other, until one fails. An empty write does nothing. */
  ghost function ReadChunks(t: CodeTable, w: Setup, first: bool, dyn: seq<HeaderField>, saved: seq<Byte>,
                            chunks: seq<seq<Byte>>): Received
    requires Shape(t)
    decreases |chunks|
  {
    if |chunks| == 0 then Received(Done, saved, dyn, [], first)
    else if |chunks[0]| == 0 then ReadChunks(t, w, first, dyn, saved, chunks[1..])
    else
      var a := ReadAll(t, w, first, dyn, saved + chunks[0]);
      if a.status.Error? then a
      else Behind(a.emitted, ReadChunks(t, w, a.first, a.dyn, a.saved, chunks[1..]))
  }

  function Joined(chunks: seq<seq<Byte>>): seq<Byte> { if |chunks| == 0 then [] else chunks[0] + Joined(chunks[1..]) }

  /** Nothing can be read of what is kept. */
  ghost predicate Waiting(t: CodeTable, w: Setup, first: bool, dyn: seq<HeaderField>, saved: seq<Byte>)
    requires Shape(t)
  {
    ReadAll(t, w, first, dyn, saved) == Received(Done, saved, dyn, [], first)
  }

  /** What a write keeps is waiting for more. */
  lemma {:induction false} SavedWaits(t: CodeTable, w: Setup, first: bool, dyn: seq<HeaderField>, buf: seq<Byte>)
    requires Shape(t)
    ensures var r := ReadAll(t, w, first, dyn, buf); r.status.Done? ==> Waiting(t, w, r.first, r.dyn, r.saved)
    decreases |buf|
  {
    hide ParseNext, Shape;
    if |buf| > 0 {
      NextExtends(t, w, first, dyn, buf, []);
      var o := ParseNext(t, w, first, dyn, buf);
      if o.status.Done? {
        SavedWaits(t, w, false, o.dyn, o.rest);
      }
    }
  }

  /** No write has to keep too much. */
  ghost predicate KeepsLittle(t: CodeTable, w: Setup, first: bool, dyn: seq<HeaderField>, saved: seq<Byte>,
                              chunks: seq<seq<Byte>>)
    requires Shape(t)
  {
    forall k | 0 <= k <= |chunks| :: !Overflows(t, w, first, dyn, saved + Joined(chunks[..k]))
  }

  lemma LittleNext(t: CodeTable, w: Setup, first: bool, dyn: seq<HeaderField>, saved: seq<Byte>,
                   chunks: seq<seq<Byte>>)
    requires Shape(t) && |chunks| > 0 && KeepsLittle(t, w, first, dyn, saved, chunks)
    ensures var a := ReadAll(t, w, first, dyn, saved + chunks[0]);
            a.status.Done? ==> KeepsLittle(t, w, a.first, a.dyn, a.saved, chunks[1..])
    ensures KeepsLittle(t, w, first, dyn, saved + chunks[0], chunks[1..])
    ensures !Overflows(t, w, first, dyn, saved + chunks[0])
  {
    hide ReadAll, Overflows, Shape;
    var a := ReadAll(t, w, first, dyn, saved + chunks[0]);
    forall k | 0 <= k <= |chunks| - 1
      ensures !Overflows(t, w, first, dyn, saved + chunks[0] + Joined(chunks[1..][..k]))
      ensures a.status.Done? ==> !Overflows(t, w, a.first, a.dyn, a.saved + Joined(chunks[1..][..k]))
    {
      TwoWrites(t, w, first, dyn, saved + chunks[0], Joined(chunks[1..][..k]));
      assert chunks[..k + 1][1..] == chunks[1..][..k];
      assert saved + chunks[0] + Joined(chunks[1..][..k]) == saved + Joined(chunks[..k + 1]);
    }
    assert chunks[..1][1..] == [] && saved + Joined(chunks[..1]) == saved + chunks[0];
  }

  /**
   However a block is split into writes, a run of writes without error hands out the same fields and
   leaves the same state as one write of everything. The status is the same as well, unless one of the
   writes is refused because what it would have to keep is too much.
  */
  lemma {:induction false} AnySplit(t: CodeTable, w: Setup, first: bool, dyn: seq<HeaderField>, saved: seq<Byte>,
                                    chunks: seq<seq<Byte>>)
    requires Shape(t) && Waiting(t, w, first, dyn, saved)
    ensures
      var r, whole := ReadChunks(t, w, first, dyn, saved, chunks), ReadAll(t, w, first, dyn, saved + Joined(chunks));
      && (r.status.Done? ==> whole == r)
      && (KeepsLittle(t, w, first, dyn, saved, chunks) ==> whole.status == r.status)
    decreases |chunks|
  {
    hide ReadAll, Overflows, Shape;
    if |chunks| == 0 {
      assert saved + [] == saved;
    } else {
      if KeepsLittle(t, w, first, dyn, saved, chunks) {
        LittleNext(t, w, first, dyn, saved, chunks);
      }
      assert saved + Joined(chunks) == (saved + chunks[0]) + Joined(chunks[1..]);
      if |chunks[0]| == 0 {
        assert saved + chunks[0] == saved;
        AnySplit(t, w, first, dyn, saved, chunks[1..]);
      } else {
        var a := ReadAll(t, w, first, dyn, saved + chunks[0]);
        TwoWrites(t, w, first, dyn, saved + chunks[0], Joined(chunks[1..]));
        if a.status.Done? {
          SavedWaits(t, w, first, dyn, saved + chunks[0]);
          AnySplit(t, w, a.first, a.dyn, a.saved, chunks[1..]);
        }
      }
    }
  }

  // ---------------------------------------------------------------- representations cut off

  /** A representation cut off anywhere leaves the decoder as it was, unless its result is dropped. */
  lemma FieldCutOff(t: CodeTable, w: Setup, dyn: seq<HeaderField>, mine: seq<HeaderField>, maxSize: nat, f: HeaderField,
                    first: bool, m: nat)
    requires CompleteTable(t) && Admits(w.c, f) && Reasonable(w.st, dyn, f) && Tail(dyn, mine)
    requires 0 < m < |Representation(t, w.st, dyn, maxSize, f)|
    ensures var part := Representation(t, w.st, dyn, maxSize, f)[..m];
            ParseNext(t, w, first, mine, part) == Outcome(Error(NeedMoreData), part, mine, [])
            <==> !(w.drops && Indexes(w.st, dyn, maxSize, f))
  {
    hide ParseField, Representation, Shape, PrefixFree, PaddingIsNoCode, PaddingLeadsSomewhere;
    var r := Representation(t, w.st, dyn, maxSize, f);
    FieldBack(t, w.st, dyn, mine, maxSize, w.c, f, []);
    IndexingShows(t, w.st, dyn, maxSize, f);
    assert r + [] == r && r[..m] + r[m..] == r;
    NextExtends(t, w, first, mine, r[..m], r[m..]);
  }

  // ---------------------------------------------------------------- a split that matters

  const OVERLONG: seq<Byte> := [127, 128, 128, 128, 128, 128, 128, 128, 128, 0]

  function Continuations(k: nat): seq<Byte> { seq(k, _ => 128) }

  lemma {:induction false} NothingAdded(v: nat, j: nat, rest: seq<Byte>)
    requires j <= 8 && v < U64
    ensures ReadGroups(v, j, Continuations(8 - j) + [0] + rest) == Read(v, rest)
    decreases 8 - j
  {
    hide Weight;
    var p := Continuations(8 - j) + [0] + rest;
    if j < 8 {
      assert p[1..] == Continuations(8 - (j + 1)) + [0] + rest;
      NothingAdded(v, j + 1, rest);
    } else {
      assert p[1..] == rest;
    }
  }

  /** 127, written in as many octets as a reader takes. */
  lemma OverlongRead(rest: seq<Byte>)
    ensures ReadSpec(7, OVERLONG + rest) == Read(127, rest)
  {
    hide ReadGroups;
    assert (OVERLONG + rest)[1..] == Continuations(8) + [0] + rest;
    NothingAdded(127, 0, rest);
  }

  lemma OverlongString(s: Str, rest: seq<Byte>)
    ensures ReadString(127, OVERLONG + s + rest)
            == if |s + rest| < 127 then StringError(NeedMoreData) else Raw(false, (s + rest)[..127], (s + rest)[127..])
  {
    hide ReadSpec;
    assert OVERLONG + s + rest == OVERLONG + (s + rest);
    OverlongRead(s + rest);
  }

  /** A literal that is not indexed, with both lengths written as long as can be. */
  function LongField(s: Str): seq<Byte> { [0] + (OVERLONG + s + (OVERLONG + s)) }

  /**
   With a limit of 127 on strings a field of two such strings is read when it comes in one write, and
   refused when its last octet comes later.
  */
  lemma SplitCanFail(t: CodeTable, st: seq<HeaderField>, dyn: seq<HeaderField>, s: Str)
    requires Shape(t) && |s| == 127
    ensures var w, buf := Setup(st, 4096, true, Config(true, 127)), LongField(s);
            && ReadAll(t, w, true, dyn, buf) == Received(Done, [], dyn, [HeaderField(s, s, false)], false)
            && ReadAll(t, w, true, dyn, buf[..|buf| - 1]).status == Error(StringTooLong)
  {
    hide ReadAll, ReadString, Overflows, Shape;
    var w, buf := Setup(st, 4096, true, Config(true, 127)), LongField(s);
    var part, cut := buf[..|buf| - 1], s[..126];
    assert buf[1..] == OVERLONG + s + (OVERLONG + s);
    assert part[1..] == OVERLONG + s + (OVERLONG + cut);
    OverlongString(s, OVERLONG + s);
    OverlongString(s, OVERLONG + cut);
    assert (s + (OVERLONG + s))[..127] == s && (s + (OVERLONG + s))[127..] == OVERLONG + s + [];
    assert (s + (OVERLONG + cut))[..127] == s && (s + (OVERLONG + cut))[127..] == OVERLONG + cut + [];
    OverlongString(s, []);
    OverlongString(cut, []);
    assert (s + [])[..127] == s && (s + [])[127..] == [];
    OneRead(t, w, true, dyn, buf);
    OneRead(t, w, true, dyn, part);
    NothingRead(t, w, false, dyn);
  }
}
