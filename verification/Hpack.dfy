/**
 Header field representations (section 6 of RFC 7541): what the encoder writes for a field, what
 the decoder makes of a buffer, and that the two stay in step.
*/
module Hpack {
  import opened BitStrings
  import opened HuffmanCode
  import opened VarInt
  import opened HeaderTable
  import opened DynamicTables

  // ---------------------------------------------------------------- writing

  /** Sets flag bits above the prefix of an encoded integer. */
  function WithFlag(e: seq<Byte>, flag: nat): seq<Byte>
    requires |e| > 0 && e[0] + flag < 256
  {
    [e[0] + flag] + e[1..]
  }

  /** The string literal of s: Huffman-coded when that is strictly shorter. */
  function StringOctets(t: CodeTable, s: Str): seq<Byte>
    requires Shape(t)
  {
    var h := HuffmanString(t, s);
    if |h| < |s| then WithFlag(Encoded(7, |h|), 0x80) + h else Encoded(7, |s|) + s
  }

  datatype IndexType = IndexedTrue | IndexedFalse | IndexedNever

  /** Whether and how a literal field is indexed. */
  function TypeOf(maxSize: nat, f: HeaderField): IndexType {
    if f.sensitive then IndexedNever else if Size(f) <= maxSize then IndexedTrue else IndexedFalse
  }

  function TypeByte(it: IndexType): Byte {
    match it
    case IndexedTrue => 0x40
    case IndexedFalse => 0
    case IndexedNever => 0x10
  }

  function PrefixOf(it: IndexType): nat { if it.IndexedTrue? then 6 else 4 }

  /** The representation of f against the two tables. */
  function Representation(t: CodeTable, st: seq<HeaderField>, dyn: seq<HeaderField>, maxSize: nat,
                          f: HeaderField): seq<Byte>
    requires Shape(t)
  {
    var r, it := SearchBoth(st, dyn, f), TypeOf(maxSize, f);
    if r.full then
      WithFlag(Encoded(7, r.index), 0x80)
    else if r.index == 0 then
      [TypeByte(it)] + StringOctets(t, f.name) + StringOctets(t, f.value)
    else
      WithFlag(Encoded(PrefixOf(it), r.index), TypeByte(it)) + StringOctets(t, f.value)
  }

  /** Whether f is sent to be indexed. */
  predicate Indexes(st: seq<HeaderField>, dyn: seq<HeaderField>, maxSize: nat, f: HeaderField) {
    !SearchBoth(st, dyn, f).full && TypeOf(maxSize, f).IndexedTrue?
  }

  /** The dynamic table after f has been written. */
  function NextTable(st: seq<HeaderField>, dyn: seq<HeaderField>, maxSize: nat, f: HeaderField): seq<HeaderField> {
    if Indexes(st, dyn, maxSize, f) then dyn + [f] else dyn
  }

  // ---------------------------------------------------------------- reading

  datatype DecodeError =
    | NeedMoreData | VarintOverflow | InvalidIndex(i: nat) | StringTooLong
    | InvalidEncoding | UpdateNotAtStart | UpdateTooLarge | Truncated

  function FromRead(e: ReadError): DecodeError {
    match e
    case NeedMore => NeedMoreData
    case Overflow => VarintOverflow
  }

  datatype StringResult = Raw(isHuff: bool, b: seq<Byte>, rest: seq<Byte>) | StringError(error: DecodeError)

  /** A string literal, not yet decoded. */
  function ReadString(maxStrLen: nat, p: seq<Byte>): StringResult {
    if |p| == 0 then StringError(NeedMoreData)
    else
      match ReadSpec(7, p)
      case Failed(e) => StringError(FromRead(e))
      case Read(n, rest) =>
        if maxStrLen != 0 && n > maxStrLen then StringError(StringTooLong)
        else if |rest| < n then StringError(NeedMoreData)
        else Raw(p[0] >= 128, rest[..n], rest[n..])
  }

  /** v is the encoding of s, and the decoder takes it. */
  ghost predicate Readable(t: CodeTable, maxLen: nat, v: seq<Byte>, s: Str)
    requires Shape(t)
  {
    v == HuffmanString(t, s) && (maxLen == 0 || |s| <= maxLen) && PaddingAccepted(t, s)
  }

  /** The text v encodes, when the decoder takes it; the empty string otherwise. */
  ghost function HuffText(t: CodeTable, maxLen: nat, v: seq<Byte>): Str
    requires Shape(t)
  {
    if exists s: Str :: Readable(t, maxLen, v, s) then var s: Str :| Readable(t, maxLen, v, s); s else []
  }

  ghost function Text(t: CodeTable, maxStrLen: nat, isHuff: bool, b: seq<Byte>): Str
    requires Shape(t)
  {
    if isHuff then HuffText(t, maxStrLen, b) else b
  }

  datatype Config = Config(emitEnabled: bool, maxStrLen: nat)

  datatype Status = Done | Error(error: DecodeError)

  /** The effect of parsing one representation: status, unread input, dynamic table, field handed out. */
  datatype Outcome = Outcome(status: Status, rest: seq<Byte>, dyn: seq<HeaderField>, emitted: seq<HeaderField>)

  /** Handing a field out, unless it is too long or nobody wants it. */
  function Emit(c: Config, rest: seq<Byte>, dyn: seq<HeaderField>, f: HeaderField): Outcome {
    if c.maxStrLen != 0 && (|f.name| > c.maxStrLen || |f.value| > c.maxStrLen)
    then Outcome(Error(StringTooLong), rest, dyn, [])
    else Outcome(Done, rest, dyn, if c.emitEnabled then [f] else [])
  }

  /** Indexed representation (section 6.1). */
  function ParseIndexed(st: seq<HeaderField>, dyn: seq<HeaderField>, c: Config, buf: seq<Byte>): Outcome {
    match ReadSpec(7, buf)
    case Failed(e) => Outcome(Error(FromRead(e)), buf, dyn, [])
    case Read(idx, rest) =>
      match At(st, dyn, idx)
      case NoEntry => Outcome(Error(InvalidIndex(idx)), buf, dyn, [])
      case Entry(hf) => Emit(c, rest, dyn, HeaderField(hf.name, hf.value, false))
  }

  /** Literal representations (section 6.2), with the prefix length and indexing of the first byte. */
  ghost function ParseLiteral(t: CodeTable, st: seq<HeaderField>, dyn: seq<HeaderField>, c: Config,
                              it: IndexType, buf: seq<Byte>): Outcome
    requires Shape(t)
  {
    match ReadSpec(PrefixOf(it), buf)
    case Failed(e) => Outcome(Error(FromRead(e)), buf, dyn, [])
    case Read(idx, rest) =>
      if idx > 0 then
        match At(st, dyn, idx)
        case NoEntry => Outcome(Error(InvalidIndex(idx)), buf, dyn, [])
        case Entry(hf) => ParseValue(t, dyn, c, it, buf, hf.name, rest)
      else
        match ReadString(c.maxStrLen, rest)
        case StringError(e) => Outcome(Error(e), buf, dyn, [])
        case Raw(isHuff, b, rest') =>
          ParseValue(t, dyn, c, it, buf, if Wanted(c, it) then Text(t, c.maxStrLen, isHuff, b) else [], rest')
  }

  predicate Wanted(c: Config, it: IndexType) { c.emitEnabled || it.IndexedTrue? }

  ghost function ParseValue(t: CodeTable, dyn: seq<HeaderField>, c: Config, it: IndexType, buf: seq<Byte>,
                            name: Str, rest: seq<Byte>): Outcome
    requires Shape(t)
  {
    match ReadString(c.maxStrLen, rest)
    case StringError(e) => Outcome(Error(e), buf, dyn, [])
    case Raw(isHuff, b, rest') =>
      var value := if Wanted(c, it) then Text(t, c.maxStrLen, isHuff, b) else [];
      var dyn' := if it.IndexedTrue? then dyn + [HeaderField(name, value, false)] else dyn;
      Emit(c, rest', dyn', HeaderField(name, value, it.IndexedNever?))
  }

  /** The parser the first byte selects. */
  ghost function ParseField(t: CodeTable, st: seq<HeaderField>, dyn: seq<HeaderField>, c: Config,
                            buf: seq<Byte>): Outcome
    requires Shape(t) && |buf| > 0
  {
    var b := buf[0];
    if b >= 128 then ParseIndexed(st, dyn, c, buf)
    else if b / 64 == 1 then ParseLiteral(t, st, dyn, c, IndexedTrue, buf)
    else if b / 16 == 0 then ParseLiteral(t, st, dyn, c, IndexedFalse, buf)
    else if b / 16 == 1 then ParseLiteral(t, st, dyn, c, IndexedNever, buf)
    else Outcome(Done, buf, dyn, [])       // 001xxxxx: a size update, not a field
  }

  // ---------------------------------------------------------------- strings come back

  /** Different texts have different encodings. */
  lemma HuffmanInjective(t: CodeTable, a: Str, b: Str)
    requires ValidTable(t) && HuffmanString(t, a) == HuffmanString(t, b)
    ensures a == b
  {
    hide Enc, HuffmanString, PrefixFree, PaddingIsNoCode, Shape;
    EncodedPrefix(t, a, b, |a|);
    EncodedPrefix(t, b, a, |b|);
    assert a[..|a|] == a && b[..|b|] == b;
  }

  lemma {:induction false} EncodedPrefix(t: CodeTable, a: Str, b: Str, n: nat)
    requires ValidTable(t) && HuffmanString(t, a) == HuffmanString(t, b) && n <= |a|
    ensures a[..n] <= b
  {
    hide Enc, Code, HuffmanString, PrefixFree, PaddingIsNoCode, Shape;
    if n > 0 {
      EncodedPrefix(t, a, b, n - 1);
      var j := n - 1;
      HuffmanBits(t, a);
      HuffmanBits(t, b);
      EncConcat(t, a[..j], a[j..]);
      EncConcat(t, b[..j], b[j..]);
      assert a == a[..j] + a[j..] && b == b[..j] + b[j..] && a[..j] == b[..j];
      var k, k' := PadLength(|Enc(t, a)|), PadLength(|Enc(t, b)|);
      var ra, rb, pre := Enc(t, a[j..]) + Ones(k), Enc(t, b[j..]) + Ones(k'), Enc(t, a[..j]);
      assert pre + ra == Enc(t, a) + Ones(k);
      assert pre + rb == Enc(t, b) + Ones(k');
      assert ra == (pre + ra)[|pre|..] == rb;
      EncNext(t, a, j);
      NextSymbol(t, b, j, k', a[j]);
    }
  }

  lemma HuffTextBack(t: CodeTable, maxLen: nat, s: Str)
    requires ValidTable(t) && Readable(t, maxLen, HuffmanString(t, s), s)
    ensures HuffText(t, maxLen, HuffmanString(t, s)) == s
  {
    hide HuffmanString, PrefixFree, PaddingIsNoCode, PaddingAccepted, Shape;
    var r := HuffText(t, maxLen, HuffmanString(t, s));
    assert Readable(t, maxLen, HuffmanString(t, s), r);
    HuffmanInjective(t, r, s);
  }

  /** Lengths and indexes stay within what one integer can hold. */
  predicate Fits(n: nat) { n < LIMIT }

  /** Flag bits above the prefix leave the prefix alone. */
  lemma FlagBits(m: nat, e: nat, flag: nat)
    requires e < m && flag % m == 0
    ensures (e + flag) % m == e && (e + flag) / m == flag / m
  {
    var k := flag / m - (e + flag) / m;
    assert flag == m * (flag / m);
    assert (e + flag) % m - e == m * k;
    assert k >= 1 ==> m * k >= m;
    assert k <= -1 ==> m * k <= m * -1;
  }

  lemma FlagKept(n: nat, i: nat, flag: nat)
    requires 1 <= n <= 7 && flag + PrefixMax(n) < 256 && flag % (PrefixMax(n) + 1) == 0
    ensures FlaggedEncoding(n, i, WithFlag(Encoded(n, i), flag))
    ensures WithFlag(Encoded(n, i), flag)[0] / (PrefixMax(n) + 1) == flag / (PrefixMax(n) + 1)
  {
    hide Encoded, PrefixMax;
    FlagBits(PrefixMax(n) + 1, Encoded(n, i)[0], flag);
  }

  /** Reading the octets of a string literal gives its text back and exactly what follows. */
  lemma StringBack(t: CodeTable, maxStrLen: nat, s: Str, suffix: seq<Byte>)
    requires CompleteTable(t) && Fits(|s|) && (maxStrLen == 0 || |s| <= maxStrLen)
    ensures
      var r := ReadString(maxStrLen, StringOctets(t, s) + suffix);
      r.Raw? && r.rest == suffix && Text(t, maxStrLen, r.isHuff, r.b) == s
  {
    hide HuffmanString, HuffText, ReadSpec, Encoded, PrefixFree, PaddingIsNoCode, PaddingAccepted, Shape;
    var h := HuffmanString(t, s);
    var body, n, flag := if |h| < |s| then h else s, if |h| < |s| then |h| else |s|, if |h| < |s| then 0x80 else 0;
    FlagKept(7, n, flag);
    var e := WithFlag(Encoded(7, n), flag);
    assert WithFlag(Encoded(7, n), 0) == Encoded(7, n);
    assert StringOctets(t, s) + suffix == e + (body + suffix);
    RoundTrip(7, n, e, body + suffix);
    assert (body + suffix)[..n] == body && (body + suffix)[n..] == suffix;
    assert PaddingAccepted(t, s);
    HuffTextBack(t, maxStrLen, s);
    assert (e + (body + suffix))[0] == e[0];
  }

  /** Every strict prefix of a string literal asks for more. */
  lemma StringCutOff(t: CodeTable, maxStrLen: nat, s: Str, m: nat)
    requires Shape(t) && Fits(|s|) && (maxStrLen == 0 || |s| <= maxStrLen) && m < |StringOctets(t, s)|
    ensures ReadString(maxStrLen, StringOctets(t, s)[..m]) == StringError(NeedMoreData)
  {
    hide HuffmanString, ReadSpec, Encoded, Shape;
    var h := HuffmanString(t, s);
    var body, n, flag := if |h| < |s| then h else s, if |h| < |s| then |h| else |s|, if |h| < |s| then 0x80 else 0;
    FlagKept(7, n, flag);
    var e := WithFlag(Encoded(7, n), flag);
    assert WithFlag(Encoded(7, n), 0) == Encoded(7, n);
    assert StringOctets(t, s) == e + body;
    if m < |e| {
      assert (e + body)[..m] == e[..m];
      StrictPrefix(7, n, e, m);
    } else {
      assert (e + body)[..m] == e + body[..m - |e|];
      RoundTrip(7, n, e, body[..m - |e|]);
    }
  }

  // ---------------------------------------------------------------- fields come back

  /** The decoder's limit on strings, if any, does not cut the field off. */
  predicate Admits(c: Config, f: HeaderField) {
    c.maxStrLen == 0 || (|f.name| <= c.maxStrLen && |f.value| <= c.maxStrLen)
  }

  predicate Reasonable(st: seq<HeaderField>, dyn: seq<HeaderField>, f: HeaderField) {
    Fits(|st| + |dyn|) && Fits(|f.name|) && Fits(|f.value|)
  }

  /** What is handed out of fields that were read. */
  function Shown(c: Config, fs: seq<HeaderField>): seq<HeaderField> { if c.emitEnabled then fs else [] }

  /**
   The value that follows a literal's name comes back, with the table change and the flag of the type.
   A decoder that neither hands the field out nor indexes it has not decoded the name either.
  */
  lemma ValueBack(t: CodeTable, dyn: seq<HeaderField>, c: Config, it: IndexType, buf: seq<Byte>, name: Str,
                  f: HeaderField, suffix: seq<Byte>)
    requires CompleteTable(t) && Admits(c, f) && Fits(|f.value|) && (it.IndexedNever? <==> f.sensitive)
    requires name == f.name || (!Wanted(c, it) && name == [])
    ensures
      ParseValue(t, dyn, c, it, buf, name, StringOctets(t, f.value) + suffix)
      == Outcome(Done, suffix, if it.IndexedTrue? then dyn + [f] else dyn, Shown(c, [f]))
  {
    hide StringOctets, ReadString, Text, Shape, PrefixFree, PaddingIsNoCode, PaddingLeadsSomewhere;
    StringBack(t, c.maxStrLen, f.value, suffix);
  }

  /**
   One field in lockstep: the representation of f, followed by anything, is consumed exactly, hands
   out f with its flag if anything is handed out at all, and adds to the decoder's table what it adds
   to the encoder's. The decoder's table may hold older entries that the encoder has dropped.
  */
  lemma FieldBack(t: CodeTable, st: seq<HeaderField>, dyn: seq<HeaderField>, mine: seq<HeaderField>, maxSize: nat,
                  c: Config, f: HeaderField, suffix: seq<Byte>)
    requires CompleteTable(t) && Admits(c, f) && Reasonable(st, dyn, f) && Tail(dyn, mine)
    ensures
      ParseField(t, st, mine, c, Representation(t, st, dyn, maxSize, f) + suffix)
      == Outcome(Done, suffix, if Indexes(st, dyn, maxSize, f) then mine + [f] else mine, Shown(c, [f]))
  {
    hide PaddingLeadsSomewhere, Tail;
    SearchIsAt(st, dyn, f);
    var r, it := SearchBoth(st, dyn, f), TypeOf(maxSize, f);
    if r.index > 0 {
      AtTail(st, dyn, mine, r.index);
    }
    if r.full {
      IndexedBack(t, st, mine, c, f, r.index, suffix);
    } else if r.index == 0 {
      NewNameBack(t, st, mine, c, it, f, suffix);
    } else {
      IndexedNameBack(t, st, mine, c, it, f, r.index, suffix);
    }
  }

  lemma IndexedBack(t: CodeTable, st: seq<HeaderField>, dyn: seq<HeaderField>, c: Config, f: HeaderField, i: nat,
                    suffix: seq<Byte>)
    requires Shape(t) && Admits(c, f) && 0 < i && Fits(i) && !f.sensitive
    requires At(st, dyn, i).Entry? && PairOf(At(st, dyn, i).field) == PairOf(f)
    ensures
      ParseField(t, st, dyn, c, WithFlag(Encoded(7, i), 0x80) + suffix) == Outcome(Done, suffix, dyn, Shown(c, [f]))
  {
    hide At, ReadSpec, Encoded, Shape, ParseLiteral;
    FlagKept(7, i, 0x80);
    var e := WithFlag(Encoded(7, i), 0x80);
    RoundTrip(7, i, e, suffix);
    assert (e + suffix)[0] == e[0] >= 128;
  }

  lemma NewNameBack(t: CodeTable, st: seq<HeaderField>, dyn: seq<HeaderField>, c: Config, it: IndexType, f: HeaderField,
                    suffix: seq<Byte>)
    requires CompleteTable(t) && Admits(c, f) && Fits(|f.name|) && Fits(|f.value|)
             && (it.IndexedNever? <==> f.sensitive)
    ensures
      ParseField(t, st, dyn, c, [TypeByte(it)] + StringOctets(t, f.name) + StringOctets(t, f.value) + suffix)
      == Outcome(Done, suffix, if it.IndexedTrue? then dyn + [f] else dyn, Shown(c, [f]))
  {
    hide StringOctets, ReadString, Text, ParseValue, Encoded, Shape, PrefixFree, PaddingIsNoCode, PaddingLeadsSomewhere;
    var rest := StringOctets(t, f.name) + (StringOctets(t, f.value) + suffix);
    var buf := [TypeByte(it)] + StringOctets(t, f.name) + StringOctets(t, f.value) + suffix;
    assert buf == [TypeByte(it)] + rest;
    assert buf[1..] == rest;
    assert ReadSpec(PrefixOf(it), buf) == Read(0, rest);
    StringBack(t, c.maxStrLen, f.name, StringOctets(t, f.value) + suffix);
    ValueBack(t, dyn, c, it, buf, if Wanted(c, it) then f.name else [], f, suffix);
  }

  lemma IndexedNameBack(t: CodeTable, st: seq<HeaderField>, dyn: seq<HeaderField>, c: Config, it: IndexType,
                        f: HeaderField, i: nat, suffix: seq<Byte>)
    requires CompleteTable(t) && Admits(c, f) && 0 < i && Fits(i) && Fits(|f.value|)
             && (it.IndexedNever? <==> f.sensitive)
    requires At(st, dyn, i).Entry? && At(st, dyn, i).field.name == f.name
    ensures
      ParseField(t, st, dyn, c, WithFlag(Encoded(PrefixOf(it), i), TypeByte(it)) + StringOctets(t, f.value) + suffix)
      == Outcome(Done, suffix, if it.IndexedTrue? then dyn + [f] else dyn, Shown(c, [f]))
  {
    hide At, StringOctets, ReadSpec, Encoded, ParseValue, ParseIndexed, Shape, PrefixFree, PaddingIsNoCode,
      PaddingLeadsSomewhere;
    var n, flag := PrefixOf(it), TypeByte(it);
    FlagKept(n, i, flag);
    var e, rest := WithFlag(Encoded(n, i), flag), StringOctets(t, f.value) + suffix;
    var buf := e + StringOctets(t, f.value) + suffix;
    assert buf == e + rest;
    RoundTrip(n, i, e, rest);
    assert buf[0] == e[0];
    ValueBack(t, dyn, c, it, buf, f.name, f, suffix);
  }

  lemma SomethingWritten(t: CodeTable, st: seq<HeaderField>, dyn: seq<HeaderField>, maxSize: nat, f: HeaderField)
    requires Shape(t)
    ensures |Representation(t, st, dyn, maxSize, f)| > 0
  {
    hide Shape, Encoded;
    SearchIsAt(st, dyn, f);
  }

  // ---------------------------------------------------------------- size updates in the stream

  /** A dynamic table size update (section 6.3). */
  function UpdateOctets(v: nat): seq<Byte> { WithFlag(Encoded(5, v), 0x20) }

  /** What the encoder writes for the limits set since it last wrote: the smallest, if it differs, and the last. */
  function PendingOctets(minSize: nat, maxSize: nat): seq<Byte> {
    (if minSize < maxSize then UpdateOctets(minSize) else []) + UpdateOctets(maxSize)
  }

  datatype UpdateResult =
    | Updated(rest: seq<Byte>, dyn: seq<HeaderField>, limit: nat)
    | NotAtStart | TooLarge | Malformed(error: DecodeError)

  /** A representation starts with the bits 01 exactly when the field is sent to be indexed. */
  lemma IndexingShows(t: CodeTable, st: seq<HeaderField>, dyn: seq<HeaderField>, maxSize: nat, f: HeaderField)
    requires Shape(t)
    ensures
      var r := Representation(t, st, dyn, maxSize, f);
      && |r| > 0 && r[0] / 32 != 1
      && (r[0] / 64 == 1 <==> NextTable(st, dyn, maxSize, f) != dyn)
  {
    hide Encoded, StringOctets, Shape;
    SearchIsAt(st, dyn, f);
    assert dyn + [f] != dyn;
  }

  /** The decoder's parser for a size update. */
  function ParseUpdate(dyn: seq<HeaderField>, allowed: nat, firstField: bool, buf: seq<Byte>): UpdateResult {
    if !firstField && Counted(dyn) > 0 then NotAtStart
    else
      match ReadSpec(5, buf)
      case Failed(e) => Malformed(FromRead(e))
      case Read(size, rest) => if size > allowed then TooLarge else Updated(rest, EvictTo(dyn, size), size)
  }

  function UpdateStatus(u: UpdateResult): Status {
    match u
    case Updated(_, _, _) => Done
    case NotAtStart => Error(UpdateNotAtStart)
    case TooLarge => Error(UpdateTooLarge)
    case Malformed(e) => Error(e)
  }

  /** Both updates of a header block: the second one is no longer the first thing in the block. */
  function ParsePending(dyn: seq<HeaderField>, allowed: nat, two: bool, buf: seq<Byte>): UpdateResult {
    var first := ParseUpdate(dyn, allowed, true, buf);
    if two && first.Updated? then ParseUpdate(first.dyn, allowed, false, first.rest) else first
  }

  /**
   A size update is taken if and only if it comes first, or the table is empty, and is within what is
   allowed. A larger one is refused, not cut down.
  */
  lemma UpdateBack(dyn: seq<HeaderField>, allowed: nat, firstField: bool, v: nat, suffix: seq<Byte>)
    requires Fits(v)
    ensures
      ParseUpdate(dyn, allowed, firstField, UpdateOctets(v) + suffix)
      == if !firstField && Counted(dyn) > 0 then NotAtStart
         else if v <= allowed then Updated(suffix, EvictTo(dyn, v), v) else TooLarge
  {
    hide Encoded, ReadSpec;
    FlagKept(5, v, 0x20);
    RoundTrip(5, v, UpdateOctets(v), suffix);
  }

  /**
   The pending updates are accepted exactly when there is only one, or the first one empties the
   table; then the decoder's table is the old one evicted to the smallest limit announced.
  */
  lemma PendingAccepted(dyn: seq<HeaderField>, allowed: nat, minSize: nat, maxSize: nat, suffix: seq<Byte>)
    requires maxSize <= allowed < U32
    ensures
      var r := ParsePending(dyn, allowed, minSize < maxSize, PendingOctets(minSize, maxSize) + suffix);
      if minSize >= maxSize || Counted(EvictTo(dyn, minSize)) == 0
      then r == Updated(suffix, EvictTo(dyn, Min(minSize, maxSize)), maxSize) else r == NotAtStart
  {
    hide UpdateOctets, ReadSpec, Counted, EvictTo;
    if minSize < maxSize {
      assert PendingOctets(minSize, maxSize) + suffix == UpdateOctets(minSize) + (UpdateOctets(maxSize) + suffix);
      UpdateBack(dyn, allowed, true, minSize, UpdateOctets(maxSize) + suffix);
      if Counted(EvictTo(dyn, minSize)) == 0 {
        UpdateBack(EvictTo(dyn, minSize), allowed, false, maxSize, suffix);
        EvictTwice(dyn, minSize, maxSize);
      }
    } else {
      assert [] + UpdateOctets(maxSize) + suffix == UpdateOctets(maxSize) + suffix;
      UpdateBack(dyn, allowed, true, maxSize, suffix);
    }
  }

  /** A table of one small entry, and a limit lowered and raised again within its size: refused. */
  lemma PendingRefused(f: HeaderField, suffix: seq<Byte>)
    requires f.name == [] && f.value == []
    ensures ParsePending([f], 4096, true, PendingOctets(100, 4096) + suffix) == NotAtStart
  {
    hide PendingOctets, ParsePending;
    assert Total([f]) == Size(f) + Total([]) == 32;
    PendingAccepted([f], 4096, 100, 4096, suffix);
  }

  function Min(a: nat, b: nat): nat { if a <= b then a else b }

  /** The smallest of the limits, starting from m. */
  function Smallest(m: nat, vs: seq<nat>): nat { if |vs| == 0 then m else Smallest(Min(m, vs[0]), vs[1..]) }

  /** The encoder's table after setting the limits one after the other. */
  function EvictAll(dyn: seq<HeaderField>, vs: seq<nat>): seq<HeaderField>
    decreases |vs|
  {
    if |vs| == 0 then dyn else EvictAll(EvictTo(dyn, vs[0]), vs[1..])
  }

  /** However many limits were set between two blocks, only the smallest one matters to the table. */
  lemma {:induction false} OnlySmallestMatters(dyn: seq<HeaderField>, m: nat, vs: seq<nat>)
    ensures EvictAll(EvictTo(dyn, m), vs) == EvictTo(dyn, Smallest(m, vs))
    decreases |vs|
  {
    hide EvictTo;
    if |vs| > 0 {
      EvictTwice(dyn, m, vs[0]);
      OnlySmallestMatters(dyn, Min(m, vs[0]), vs[1..]);
    }
  }
}
