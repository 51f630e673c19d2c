/**
 The stateful encoder and decoder. Each method is proved to do what modules Hpack, HpackStream and
 HpackRuns say of values, so the results there are about these two classes.
*/
module HpackCodec {
  import opened BitStrings
  import opened HuffmanCode
  import HuffmanTrie
  import Huffman
  import opened VarInt
  import opened HeaderTable
  import opened DynamicTables
  import opened Hpack
  import opened HpackLimits
  import opened HpackStream
  import opened HpackRuns

  const UINT32_MAX: nat := U32 - 1
  const INITIAL_TABLE_SIZE: nat := 4096

  method SetFlag(e: seq<Byte>, first: nat, flag: nat) returns (r: seq<Byte>)
    requires first < |e| && e[first] + flag < 256
    ensures r == e[..first] + WithFlag(e[first..], flag)
  {
    var b: Byte := e[first] + flag;
    r := e[first := b];
  }

  method AppendHpackString(t: CodeTable, dst: seq<Byte>, s: Str) returns (r: seq<Byte>)
    requires Shape(t) && |s| < U64
    ensures r == dst + StringOctets(t, s)
  {
    hide Shape, HuffmanString, Encoded;
    var huffmanLength := Huffman.HuffmanEncodeLength(t, s);
    if huffmanLength < |s| {
      var first := |dst|;
      r := AppendVarInt(dst, 7, huffmanLength);
      assert r[first..] == Encoded(7, huffmanLength);
      ghost var e := r[first..];
      r := Huffman.AppendHuffmanString(t, r, s);
      assert r[first..] == e + HuffmanString(t, s);
      assert r[..first] == dst;
      r := SetFlag(r, first, 0x80);
      assert WithFlag(e + HuffmanString(t, s), 0x80) == WithFlag(e, 0x80) + HuffmanString(t, s);
    } else {
      r := AppendVarInt(dst, 7, |s|);
      r := r + s;
    }
  }

  method AppendFlagged(dst: seq<Byte>, n: nat, i: nat, flag: nat) returns (r: seq<Byte>)
    requires 1 <= n <= 7 && i < U64 && flag + PrefixMax(n) < 256
    ensures r == dst + WithFlag(Encoded(n, i), flag)
  {
    hide Encoded;
    var first := |dst|;
    r := AppendVarInt(dst, n, i);
    assert r[first..] == Encoded(n, i) && r[..first] == dst;
    r := SetFlag(r, first, flag);
  }

  /** A literal representation: a new name, or the index of a known one, and the value. */
  method AppendLiteral(t: CodeTable, dst: seq<Byte>, index: nat, it: IndexType, f: HeaderField) returns (r: seq<Byte>)
    requires Shape(t) && index < U64 && |f.name| < U64 && |f.value| < U64
    ensures r == dst + if index == 0
      then [TypeByte(it)] + StringOctets(t, f.name) + StringOctets(t, f.value)
      else WithFlag(Encoded(PrefixOf(it), index), TypeByte(it)) + StringOctets(t, f.value)
  {
    hide Shape, Encoded, StringOctets;
    if index == 0 {
      r := dst + [TypeByte(it)];
      r := AppendHpackString(t, r, f.name);
    } else {
      r := AppendFlagged(dst, PrefixOf(it), index, TypeByte(it));
    }
    r := AppendHpackString(t, r, f.value);
  }

  class Encoder {
    const t: CodeTable
    const staticTable: Table
    const dynTab: DynamicTable
    var minSize: nat
    var maxSizeLimit: nat
    var tableSizeUpdate: bool
    var buf: seq<Byte>

    ghost predicate Valid()
      reads this, staticTable, dynTab, dynTab.table
    {
      && Shape(t) && staticTable.Valid() && staticTable.isStatic && dynTab.Valid()
      && minSize < U32 && maxSizeLimit < U32
    }

    constructor (t: CodeTable, staticTable: Table)
      requires Shape(t) && staticTable.Valid() && staticTable.isStatic
      ensures Valid() && dynTab.table.ents == [] && dynTab.maxSize == INITIAL_TABLE_SIZE && !tableSizeUpdate
      ensures this.t == t && this.staticTable == staticTable && fresh(dynTab) && fresh(dynTab.table)
      ensures minSize == UINT32_MAX && maxSizeLimit == INITIAL_TABLE_SIZE
    {
      this.t, this.staticTable := t, staticTable;
      minSize, maxSizeLimit, tableSizeUpdate := UINT32_MAX, INITIAL_TABLE_SIZE, false;
      dynTab := new DynamicTable(INITIAL_TABLE_SIZE);
      buf := [];
    }

    function State(): Limits
      reads this, dynTab, dynTab.table
    {
      Limits(minSize, dynTab.maxSize, maxSizeLimit, tableSizeUpdate, dynTab.table.ents)
    }

    /** Writes the pending size updates and the representation of f, and adds f to the table if it is indexed. */
    method WriteField(f: HeaderField)
      requires Valid() && |staticTable.ents| + |dynTab.table.ents| < U64 && |f.name| < U64 && |f.value| < U64
      modifies this, dynTab, dynTab.table
      ensures Valid() && State() == Wrote(staticTable.ents, old(State()), f)
      ensures buf == Sent(t, staticTable.ents, old(State()), f)
    {
      hide Shape, Encoded, Representation, NextTable, NamesExact, PairsExact;
      buf := [];
      if tableSizeUpdate {
        WriteUpdates();
      }
      WriteRepresentation(f);
    }

    method WriteUpdates()
      requires Valid() && buf == [] && tableSizeUpdate
      modifies this
      ensures Valid() && !tableSizeUpdate && minSize == UINT32_MAX && maxSizeLimit == old(maxSizeLimit)
      ensures buf == PendingOctets(old(minSize), dynTab.maxSize)
    {
      hide Shape, Encoded, NamesExact, PairsExact, Total, Size;
      tableSizeUpdate := false;
      var first := [];
      if minSize < dynTab.maxSize {
        first := AppendFlagged([], 5, minSize, 0x20);
      }
      minSize := UINT32_MAX;
      buf := AppendFlagged(first, 5, dynTab.maxSize, 0x20);
    }

    method WriteRepresentation(f: HeaderField)
      requires Valid() && |staticTable.ents| + |dynTab.table.ents| < U64 && |f.name| < U64 && |f.value| < U64
      modifies this`buf, dynTab, dynTab.table
      ensures Valid() && dynTab.maxSize == old(dynTab.maxSize)
      ensures buf == old(buf) + Representation(t, staticTable.ents, old(dynTab.table.ents), dynTab.maxSize, f)
      ensures dynTab.table.ents == NextTable(staticTable.ents, old(dynTab.table.ents), dynTab.maxSize, f)
    {
      hide Shape, Encoded, StringOctets, Search, SearchBoth, Size, Total, NamesExact, PairsExact;
      var found := SearchTable(f);
      SearchIsAt(staticTable.ents, dynTab.table.ents, f);
      var it := TypeOf(dynTab.maxSize, f);
      if found.full {
        buf := AppendFlagged(buf, 7, found.index, 0x80);
        return;
      }
      if it.IndexedTrue? {
        dynTab.Add(f);
      }
      buf := AppendLiteral(t, buf, found.index, it, f);
    }

    method SearchTable(f: HeaderField) returns (r: Found)
      requires Valid()
      ensures r == SearchBoth(staticTable.ents, dynTab.table.ents, f)
    {
      var a := staticTable.Find(f);
      if a.full {
        return a;
      }
      var b := dynTab.table.Find(f);
      if b.full || (a.index == 0 && b.index != 0) {
        return Found(b.index + |staticTable.ents|, b.full);
      }
      return Found(a.index, false);
    }

    /** Sets the limit of the table, within what the peer allows; the next field announces it. */
    method SetMaxDynamicTableSize(v0: nat)
      requires Valid()
      modifies this, dynTab, dynTab.table
      ensures Valid() && State() == Called(old(State()), SetSize(v0))
    {
      var v := v0;
      if v > maxSizeLimit {
        v := maxSizeLimit;
      }
      if v < minSize {
        minSize := v;
      }
      tableSizeUpdate := true;
      dynTab.SetMaxSize(v);
    }

    /** Sets what the peer allows. A limit above it is cut down, without being remembered as the smallest. */
    method SetMaxDynamicTableSizeLimit(v: nat)
      requires Valid() && v < U32
      modifies this, dynTab, dynTab.table
      ensures Valid() && State() == Called(old(State()), SetLimit(v))
    {
      maxSizeLimit := v;
      if dynTab.maxSize > v {
        tableSizeUpdate := true;
        dynTab.SetMaxSize(v);
      }
    }
  }

  class Decoder {
    ghost const t: CodeTable
    const trie: HuffmanTrie.Trie
    const staticTable: Table
    const dynTab: DynamicTable
    const drops: bool                  // the dispatch drops the result for an indexed literal; it does so today
    var emitEnabled: bool
    var maxStrLen: nat
    var firstField: bool               // still at the beginning of a header block
    var buf: seq<Byte>
    var saveBuf: seq<Byte>             // what the last write could not parse yet
    var emitted: seq<HeaderField>      // the calls of the emit function

    ghost predicate Valid()
      reads trie, staticTable, dynTab, dynTab.table
    {
      && ValidTable(t) && trie.Complete(t)
      && staticTable.Valid() && staticTable.isStatic && dynTab.Valid() && dynTab.allowedMaxSize < U32
    }

    function Configuration(): Config
      reads this
    {
      Config(emitEnabled, maxStrLen)
    }

    function Settings(): Setup
      reads this, staticTable, dynTab
    {
      Setup(staticTable.ents, dynTab.allowedMaxSize, drops, Configuration())
    }

    constructor (ghost t: CodeTable, trie: HuffmanTrie.Trie, staticTable: Table, maxDynamicTableSize: nat, drops: bool)
      requires ValidTable(t) && trie.Complete(t) && staticTable.Valid() && staticTable.isStatic
      requires maxDynamicTableSize < U32
      ensures Valid() && dynTab.table.ents == [] && dynTab.maxSize == maxDynamicTableSize
      ensures Settings() == Setup(staticTable.ents, maxDynamicTableSize, drops, Config(true, 0))
      ensures emitted == [] && buf == [] && saveBuf == [] && firstField
      ensures this.t == t && this.trie == trie && this.staticTable == staticTable
      ensures fresh(dynTab) && fresh(dynTab.table)
    {
      this.t, this.trie, this.staticTable, this.drops := t, trie, staticTable, drops;
      dynTab := new DynamicTable(maxDynamicTableSize);
      emitEnabled, maxStrLen, firstField := true, 0, true;
      buf, saveBuf, emitted := [], [], [];
    }

    /** The decoder is as the outcome says, having handed out `before` earlier. */
    ghost predicate Shows(o: Outcome, before: seq<HeaderField>, c: Config)
      reads this, dynTab, dynTab.table
    {
      && buf == o.rest && dynTab.table.ents == o.dyn
      && emitted == before + o.emitted && Configuration() == c
    }

    method ParseFieldIndexed() returns (status: Status)
      requires Valid()
      modifies this`buf, this`emitted
      ensures Valid()
      ensures
        var o := ParseIndexed(staticTable.ents, dynTab.table.ents, old(Configuration()), old(buf));
        status == o.status && Shows(o, old(emitted), old(Configuration()))
    {
      var r := ReadVarInt(7, buf);
      if r.Failed? {
        return Error(FromRead(r.error));
      }
      var hf := EntryAt(r.value);
      if hf.NoEntry? {
        return Error(InvalidIndex(r.value));
      }
      buf := r.rest;
      status := CallEmit(HeaderField(hf.field.name, hf.field.value, false));
    }

    method EntryAt(i: nat) returns (r: Lookup)
      ensures r == At(staticTable.ents, dynTab.table.ents, i)
    {
      if i == 0 {
        return NoEntry;
      }
      if i <= |staticTable.ents| {
        return Entry(staticTable.ents[i - 1]);
      }
      if i > |dynTab.table.ents| + |staticTable.ents| {
        return NoEntry;
      }
      return Entry(dynTab.table.ents[|dynTab.table.ents| - (i - |staticTable.ents|)]);
    }

    method CallEmit(hf: HeaderField) returns (status: Status)
      modifies this`emitted
      ensures
        var o := Emit(Configuration(), buf, dynTab.table.ents, hf);
        status == o.status && emitted == old(emitted) + o.emitted
    {
      if maxStrLen != 0 {
        if |hf.name| > maxStrLen || |hf.value| > maxStrLen {
          return Error(StringTooLong);
        }
      }
      if emitEnabled {
        emitted := emitted + [hf];
      }
      return Done;
    }

    method ReadStr(p: seq<Byte>) returns (r: StringResult)
      ensures r == ReadString(maxStrLen, p)
    {
      if |p| == 0 {
        return StringError(NeedMoreData);
      }
      var isHuff := p[0] >= 128;
      var n := ReadVarInt(7, p);
      if n.Failed? {
        return StringError(FromRead(n.error));
      }
      if maxStrLen != 0 && n.value > maxStrLen {
        return StringError(StringTooLong);
      }
      if |n.rest| < n.value {
        return StringError(NeedMoreData);
      }
      return Raw(isHuff, n.rest[..n.value], n.rest[n.value..]);
    }

    /** Errors of the Huffman decoder are dropped: the text is then empty. */
    method DecodeString(isHuff: bool, b: seq<Byte>) returns (s: Str)
      requires Valid()
      ensures s == Text(t, maxStrLen, isHuff, b)
    {
      hide HuffmanString, PrefixFree, PaddingIsNoCode, PaddingAccepted, Shape;
      if !isHuff {
        return b;
      }
      var r := Huffman.HuffmanDecode(trie, t, maxStrLen, b);
      s := [];
      if r.Ok? {
        s := r.value;
        HuffTextBack(t, maxStrLen, s);
      }
    }

    /** A table size update; only the first thing in a block may shrink a table that is not empty. */
    method ParseDynamicTableSizeUpdate() returns (r: UpdateResult)
      requires Valid()
      modifies this`buf, this`emitted, dynTab`size, dynTab`maxSize, dynTab.table
      ensures Valid() && emitted == old(emitted) && Configuration() == old(Configuration())
      ensures r == ParseUpdate(old(dynTab.table.ents), old(dynTab.allowedMaxSize), old(firstField), old(buf))
      ensures if r.Updated? then buf == r.rest && dynTab.table.ents == r.dyn && dynTab.maxSize == r.limit
              else
                && buf == old(buf) && dynTab.table.ents == old(dynTab.table.ents)
                && dynTab.maxSize == old(dynTab.maxSize)
    {
      hide ValidTable, HuffmanTrie.TrieFor, Total, EvictTo, ReadSpec, NamesExact, PairsExact;
      if !firstField && dynTab.size > 0 {
        return NotAtStart;
      }
      var n := ReadVarInt(5, buf);
      if n.Failed? {
        return Malformed(FromRead(n.error));
      }
      if n.value > dynTab.allowedMaxSize {
        return TooLarge;
      }
      dynTab.SetMaxSize(n.value);
      buf := n.rest;
      return Updated(buf, dynTab.table.ents, n.value);
    }

    /** A literal field with the prefix and the indexing its first byte announced. */
    method ParseFieldLiteral(it: IndexType) returns (status: Status)
      requires Valid()
      modifies this`buf, this`emitted, dynTab`size, dynTab`maxSize, dynTab.table
      ensures Valid()
      ensures
        var o := ParseLiteral(t, staticTable.ents, old(dynTab.table.ents), old(Configuration()), it, old(buf));
        status == o.status && Shows(o, old(emitted), old(Configuration()))
    {
      hide Text, ReadString, ReadSpec, Shape, PrefixFree, PaddingIsNoCode, HuffmanTrie.TrieFor,
        At, Total, Emit, NamesExact, PairsExact;
      var nameIdx := ReadVarInt(PrefixOf(it), buf);
      if nameIdx.Failed? {
        return Error(FromRead(nameIdx.error));
      }
      var wantStr := emitEnabled || it.IndexedTrue?;
      var name, value, rest := [], [], nameIdx.rest;
      var undecodedName := Raw(false, [], []);
      if nameIdx.value > 0 {
        var ihf := EntryAt(nameIdx.value);
        if ihf.NoEntry? {
          return Error(InvalidIndex(nameIdx.value));
        }
        name := ihf.field.name;
      } else {
        undecodedName := ReadStr(rest);
        if undecodedName.StringError? {
          return Error(undecodedName.error);
        }
        rest := undecodedName.rest;
      }
      var undecodedValue := ReadStr(rest);
      if undecodedValue.StringError? {
        return Error(undecodedValue.error);
      }
      if wantStr {
        if nameIdx.value <= 0 {
          name := DecodeString(undecodedName.isHuff, undecodedName.b);
        }
        value := DecodeString(undecodedValue.isHuff, undecodedValue.b);
      }
      status := Deliver(it, name, value, undecodedValue.rest);
    }

    /** Moves on in the input, indexes the field if it is to be indexed, and hands it out. */
    method Deliver(it: IndexType, name: Str, value: Str, rest: seq<Byte>) returns (status: Status)
      requires Valid()
      modifies this`buf, this`emitted, dynTab`size, dynTab`maxSize, dynTab.table
      ensures Valid()
      ensures
        var dyn := if it.IndexedTrue? then old(dynTab.table.ents) + [HeaderField(name, value, false)]
            else old(dynTab.table.ents);
        var o := Emit(old(Configuration()), rest, dyn, HeaderField(name, value, it.IndexedNever?));
        status == o.status && Shows(o, old(emitted), old(Configuration()))
    {
      hide ValidTable, HuffmanTrie.TrieFor, Total, NamesExact, PairsExact;
      buf := rest;
      if it.IndexedTrue? {
        dynTab.Add(HeaderField(name, value, false));
      }
      status := CallEmit(HeaderField(name, value, it.IndexedNever?));
    }

    /** The parser that the first byte selects. */
    method ParseHeaderFieldRepr() returns (status: Status)
      requires Valid() && |buf| > 0
      modifies this`buf, this`emitted, dynTab`size, dynTab`maxSize, dynTab.table
      ensures Valid()
      ensures
        var o := ParseNext(t, old(Settings()), firstField, old(dynTab.table.ents), old(buf));
        status == o.status && Shows(o, old(emitted), old(Configuration()))
    {
      hide ValidTable, HuffmanTrie.TrieFor, ParseLiteral, ParseIndexed, ParseUpdate, NamesExact, PairsExact;
      var b := buf[0];
      if b >= 128 {
        status := ParseFieldIndexed();
      } else if b / 64 == 1 {
        status := ParseFieldLiteral(IndexedTrue);
        if drops {
          status := Error(InvalidEncoding);
        }
      } else if b / 16 == 0 {
        status := ParseFieldLiteral(IndexedFalse);
      } else if b / 16 == 1 {
        status := ParseFieldLiteral(IndexedNever);
      } else {
        var u := ParseDynamicTableSizeUpdate();
        status := UpdateStatus(u);
      }
    }

    /** The decoder is as a write leaves it, having handed out `before` earlier. */
    ghost predicate Holds(r: Received, before: seq<HeaderField>)
      reads this, dynTab, dynTab.table
    {
      saveBuf == r.saved && firstField == r.first && dynTab.table.ents == r.dyn && emitted == before + r.emitted
    }

    /** What is left to do of a write. */
    ghost function Unread(): Received
      requires Valid()
      reads this, trie, staticTable, dynTab, dynTab.table
    {
      ReadAll(t, Settings(), firstField, dynTab.table.ents, buf)
    }

    /** Takes one thing off the input; `now` is what it hands out. */
    method ParseOne() returns (status: Status, ghost now: seq<HeaderField>)
      requires Valid() && |buf| > 0
      modifies this`buf, this`emitted, dynTab`size, dynTab`maxSize, dynTab.table
      ensures Valid() && Settings() == old(Settings()) && emitted == old(emitted) + now
      ensures
        var dyn := dynTab.table.ents;
        if status.Done? then
          |buf| < |old(buf)| && old(Unread()) == Behind(now, ReadAll(t, Settings(), false, dyn, buf))
        else if status != Error(NeedMoreData) then old(Unread()) == Received(status, [], dyn, now, false)
        else
          && now == [] && buf == old(buf) && dyn == old(dynTab.table.ents)
          && old(Unread()) == if TooMuch(Configuration(), buf)
                              then Received(Error(StringTooLong), [], dyn, [], firstField)
                              else Received(Done, buf, dyn, [], firstField)
    {
      hide Valid, ParseNext, ReadAll, TooMuch, Shape;
      WellMade();
      OneRead(t, Settings(), firstField, dynTab.table.ents, buf);
      NextExtends(t, Settings(), firstField, dynTab.table.ents, buf, []);
      now := ParseNext(t, Settings(), firstField, dynTab.table.ents, buf).emitted;
      status := ParseHeaderFieldRepr();
    }

    /** Reads p behind what was kept from the last write, and keeps what cannot be parsed yet. */
    method Write(p: seq<Byte>) returns (status: Status)
      requires Valid()
      modifies this`buf, this`saveBuf, this`firstField, this`emitted, dynTab`size, dynTab`maxSize, dynTab.table
      ensures Valid()
      ensures
        var r := if |p| == 0 then Received(Done, old(saveBuf), old(dynTab.table.ents), [], old(firstField))
            else ReadAll(t, old(Settings()), old(firstField), old(dynTab.table.ents), old(saveBuf) + p);
        status == r.status && Holds(r, old(emitted))
    {
      hide Valid, ReadAll, Shape;
      if |p| == 0 {
        return Done;
      }
      WellMade();
      buf := saveBuf + p;
      saveBuf := [];
      ghost var r := Unread();
      while |buf| > 0
        invariant Valid() && saveBuf == [] && Behind(old(emitted), r) == Behind(emitted, Unread())
        decreases |buf|
      {
        ghost var before, now := emitted, [];
        status, now := ParseOne();
        if status == Error(NeedMoreData) {
          if maxStrLen != 0 && |buf| > 2 * (maxStrLen + 8) {
            return Error(StringTooLong);
          }
          saveBuf := buf;
          return Done;
        }
        firstField := false;
        if status.Error? {
          return;
        }
        BehindTwice(before, now, Unread());
      }
      NothingRead(t, Settings(), firstField, dynTab.table.ents);
      return Done;
    }

    lemma WellMade()
      requires Valid()
      ensures Shape(t) && staticTable != dynTab.table
    {
    }

    /** Ends a header block, which must not stop in the middle of anything. */
    method Close() returns (status: Status)
      modifies this`saveBuf, this`firstField
      ensures saveBuf == [] && status == (if old(saveBuf) == [] then Done else Error(Truncated))
      ensures firstField == (status == Done || old(firstField))
    {
      if |saveBuf| > 0 {
        saveBuf := [];
        return Error(Truncated);
      }
      firstField := true;
      return Done;
    }
  }

  // ---------------------------------------------------------------- the two together

  function Both(e: Encoder, d: Decoder): Ends
    reads e, e.dynTab, e.dynTab.table, d, d.dynTab, d.dynTab.table
  {
    Ends(e.State(), d.dynTab.table.ents, d.firstField)
  }

  /** An encoder and a decoder that share their constant tables and nothing else, and are in step. */
  ghost predicate Paired(e: Encoder, d: Decoder)
    reads e, e.staticTable, e.dynTab, e.dynTab.table, d, d.trie, d.staticTable, d.dynTab, d.dynTab.table
  {
    && e.Valid() && d.Valid() && CompleteTable(d.t)
    && e.t == d.t && e.staticTable == d.staticTable && e.dynTab != d.dynTab && e.dynTab.table != d.dynTab.table
    && d.saveBuf == [] && InStep(d.Settings(), Both(e, d))
  }

  /** Carries out one act of the encoder and hands what it writes to the decoder. */
  method Carry(e: Encoder, d: Decoder, a: Act) returns (status: Status)
    requires Paired(e, d) && Sound(d.Settings(), Both(e, d), [a])
    modifies e, e.dynTab, e.dynTab.table, d, d.dynTab, d.dynTab.table
    ensures
      var w, p := old(d.Settings()), old(Both(e, d));
      if a.Send? && Verdict(w, p, a.f).Error? then
        && status == Verdict(w, p, a.f)
        && d.emitted == old(d.emitted) + Shown(w.c, if Refused(p) then [] else [a.f])
      else
        && status == Done && Paired(e, d) && d.Settings() == w && Both(e, d) == Next(w, p, a)
        && d.emitted == old(d.emitted) + Shown(w.c, if a.Send? then [a.f] else [])
  {
    hide ValidTable, HuffmanTrie.TrieFor, Sent, ReadAll, InStep, Called, Wrote, Delivered, Refused, Indexes, NamesExact,
      PairsExact, Shape, PaddingLeadsSomewhere;
    ghost var w, p := d.Settings(), Both(e, d);
    NextSound(w, p, [a]);
    AllowedSmall(w, p);
    assert a in [a];
    status := Done;
    match a {
      case Call(SetSize(v)) => e.SetMaxDynamicTableSize(v);
      case Call(SetLimit(v)) => e.SetMaxDynamicTableSizeLimit(v);
      case Send(f) =>
        NextEnds(w, p, f);
        SendBack(e.t, w, p, f, []);
        NothingRead(e.t, w, false, Delivered(w, p, f).dyn);
        SomethingSent(e.t, w.st, p.enc, f);
        e.WriteField(f);
        assert [] + e.buf == e.buf + [] == e.buf;
        status := d.Write(e.buf);
    }
  }

  /**
   Carries out any acts: every field comes out, in order, up to the first error. Without one the decoder
   ends as `After` says, so that `EqualAgain` tells when the tables are equal.
  */
  method Transmit(e: Encoder, d: Decoder, acts: seq<Act>) returns (status: Status)
    requires Paired(e, d) && Sound(d.Settings(), Both(e, d), acts)
    modifies e, e.dynTab, e.dynTab.table, d, d.dynTab, d.dynTab.table
    ensures
      var w, p := old(d.Settings()), old(Both(e, d));
      && status == Fate(w, p, acts) && d.emitted == old(d.emitted) + Shown(w.c, Handed(w, p, acts))
      && (status == Done ==> Paired(e, d) && d.Settings() == w && Both(e, d) == After(w, p, acts))
  {
    hide Paired, Next, Verdict, Refused, Indexes, Sound, InStep, After, Fate, Handed, FieldsOf, Called, Delivered,
      Announced;
    ghost var w, p0, done := d.Settings(), Both(e, d), [];
    for i := 0 to |acts|
      invariant Paired(e, d) && d.Settings() == w && Sound(w, Both(e, d), acts[i..])
      invariant After(w, p0, acts) == After(w, Both(e, d), acts[i..])
      invariant Fate(w, p0, acts) == Fate(w, Both(e, d), acts[i..])
      invariant d.emitted == old(d.emitted) + Shown(w.c, done)
      invariant Handed(w, p0, acts) == done + Handed(w, Both(e, d), acts[i..])
    {
      var rest := acts[i..];
      assert rest[0] == acts[i] && rest[1..] == acts[i + 1..];
      ghost var p := Both(e, d);
      InStepNow(e, d);
      NextSound(w, p, rest);
      SoundOne(w, p, rest);
      FirstAct(w, p, rest);
      status := Carry(e, d, acts[i]);
      if status.Error? {
        return;
      }
      done := done + if acts[i].Send? then [acts[i].f] else [];
    }
    NoActs(w, Both(e, d));
    return Done;
  }

  lemma InStepNow(e: Encoder, d: Decoder)
    requires Paired(e, d)
    ensures InStep(d.Settings(), Both(e, d))
  {
  }

  lemma SoundOne(w: Setup, p: Ends, acts: seq<Act>)
    requires Sound(w, p, acts) && |acts| > 0
    ensures Sound(w, p, [acts[0]])
  {
    assert acts[0] in acts;
  }

  /**
   The first field after any calls that set limits, from equal tables: the decoder's verdict on it, and
   exactly when the tables are equal again.
  */
  method FirstField(e: Encoder, d: Decoder, cs: seq<LimitCall>, f: HeaderField) returns (status: Status)
    requires Paired(e, d) && e.dynTab.table.ents == d.dynTab.table.ents && !e.tableSizeUpdate
    requires Sound(d.Settings(), Both(e, d), CallsThenField(cs, f))
    modifies e, e.dynTab, e.dynTab.table, d, d.dynTab, d.dynTab.table
    ensures
      var w, p := old(d.Settings()), old(Both(e, d));
      var s := CallAll(p.enc, cs);
      && status == Verdict(w, p.(enc := s), f)
      && (status == Done ==>
            && Paired(e, d) && d.emitted == old(d.emitted) + Shown(w.c, [f])
            && (e.dynTab.table.ents == d.dynTab.table.ents
                <==> Counted(Announced(s, p.dyn)) <= Lowest(p.enc, cs, U32 - 1)))
  {
    hide ValidTable, HuffmanTrie.TrieFor, Sound, Fate, After, Handed, Verdict, Delivered, CallAll, Lowest, Announced,
      CallsThenField, NamesExact, PairsExact, Shape, PaddingLeadsSomewhere;
    ghost var w, p := d.Settings(), Both(e, d);
    AfterCalls(w, p, cs, f);
    EqualAgain(w, p, cs, f);
    status := Transmit(e, d, CallsThenField(cs, f));
  }
}
