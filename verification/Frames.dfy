/**
 HTTP/2 frames (sections 4.1 and 6 of RFC 7540): what the writers put on the wire, what the
 parsers make of a payload, and that the two are inverse. The parsers are proved to accept exactly
 the layouts of section 6; the round trips follow from that.
*/
module Frames {
  import opened BitStrings
  import opened Options

  type Bytes = seq<Byte>

  const FRAME_HEADER_LEN: nat := 9
  const MAX_FRAME_SIZE: nat := 0x100_0000 - 1
  const TOP_BIT: nat := 0x8000_0000
  const U16: nat := 0x1_0000
  const U32: nat := 0x1_0000_0000

  const FRAME_DATA: Byte := 0
  const FRAME_HEADERS: Byte := 1
  const FRAME_PRIORITY: Byte := 2
  const FRAME_RST_STREAM: Byte := 3
  const FRAME_SETTINGS: Byte := 4
  const FRAME_PUSH_PROMISE: Byte := 5
  const FRAME_PING: Byte := 6
  const FRAME_GO_AWAY: Byte := 7
  const FRAME_WINDOW_UPDATE: Byte := 8
  const FRAME_CONTINUATION: Byte := 9

  const END_STREAM: Byte := 0x1
  const ACK: Byte := 0x1
  const END_HEADERS: Byte := 0x4
  const PADDED: Byte := 0x8
  const PRIORITY: Byte := 0x20

  const PROTOCOL_ERROR: nat := 1
  const FLOW_CONTROL_ERROR: nat := 3
  const FRAME_SIZE_ERROR: nat := 6

  const INITIAL_WINDOW_SIZE: nat := 4

  datatype Error =
    | ErrStreamID | ErrDepStreamID | ErrPadLength | ErrPadBytes
    | ErrFrameTooLarge | ErrEof | ErrUnexpectedEof
    | ConnError(code: nat) | StreamError(stream: nat, code: nat)

  datatype Result<T> = Ok(value: T) | Err(error: Error)

  /** Whether f has the flag v, a single bit. */
  predicate Has(f: nat, v: nat) { v > 0 && f / v % 2 == 1 }

  // ---------------------------------------------------------------- numbers

  /** The low n bytes of v, most significant first. */
  function Be(v: nat, n: nat): (r: Bytes)
    ensures |r| == n
  {
    if n == 0 then [] else Be(v / 0x100, n - 1) + [v % 0x100]
  }

  function Be16(v: nat): (r: Bytes)
    ensures |r| == 2
  {
    Be(v, 2)
  }

  function Be32(v: nat): (r: Bytes)
    ensures |r| == 4
  {
    Be(v, 4)
  }

  function FromBe(b: Bytes): nat { if |b| == 0 then 0 else 0x100 * FromBe(b[..|b| - 1]) + b[|b| - 1] }

  /** v has no bits above its low n bytes. */
  predicate Fits(v: nat, n: nat) { if n == 0 then v == 0 else Fits(v / 0x100, n - 1) }

  lemma {:induction false} BeBack(v: nat, n: nat)
    requires Fits(v, n)
    ensures FromBe(Be(v, n)) == v
  {
    if n > 0 {
      BeBack(v / 0x100, n - 1);
      assert Be(v, n)[..n - 1] == Be(v / 0x100, n - 1);
    }
  }

  /** Every n bytes are the big-endian form of the number they are read as. */
  lemma {:induction false} BeOnto(b: Bytes)
    ensures Fits(FromBe(b), |b|) && Be(FromBe(b), |b|) == b
  {
    if |b| > 0 {
      BeOnto(b[..|b| - 1]);
      var low: nat := b[|b| - 1];
      assert (0x100 * FromBe(b[..|b| - 1]) + low) / 0x100 == FromBe(b[..|b| - 1]);
      assert b == b[..|b| - 1] + [b[|b| - 1]];
    }
  }

  lemma FitsWidth(v: nat)
    ensures Fits(v, 2) <==> v < U16
    ensures Fits(v, 3) <==> v <= MAX_FRAME_SIZE
    ensures Fits(v, 4) <==> v < U32
  {
    var v1 := v / 0x100;
    var v2 := v1 / 0x100;
    var v3 := v2 / 0x100;
    assert Fits(v3, 1) <==> v3 < 0x100;
    assert Fits(v2, 1) <==> v2 < 0x100;
    assert Fits(v1, 1) <==> v1 < 0x100;
  }

  lemma Be32Back(v: nat)
    requires v < U32
    ensures FromBe(Be32(v)) == v
  {
    FitsWidth(v);
    BeBack(v, 4);
  }

  lemma Be32Onto(b: Bytes)
    requires |b| == 4
    ensures FromBe(b) < U32 && Be32(FromBe(b)) == b
  {
    BeOnto(b);
    FitsWidth(FromBe(b));
  }

  lemma Be16Back(v: nat)
    requires v < U16
    ensures FromBe(Be16(v)) == v
  {
    FitsWidth(v);
    BeBack(v, 2);
  }

  // ---------------------------------------------------------------- frame header

  datatype FrameHeader = FrameHeader(length: nat, ftype: Byte, flags: Byte, stream: nat)

  /** A whole frame: 24-bit length, type, flags, stream identifier, payload. */
  function FrameBytes(ftype: Byte, flags: Byte, stream: nat, payload: Bytes): Bytes
  {
    Be(|payload|, 3) + [ftype, flags] + Be32(stream) + payload
  }

  function HeaderOf(buf: Bytes): (fh: FrameHeader)
    requires |buf| == FRAME_HEADER_LEN
  {
    FrameHeader(FromBe(buf[..3]), buf[3], buf[4], FromBe(buf[5..]) % TOP_BIT)
  }

  /** `io.ReadFull` of n bytes: what it yields and what is left of the input. */
  function ReadFull(input: Bytes, n: nat): (Result<Bytes>, Bytes) {
    if |input| >= n then (Ok(input[..n]), input[n..])
    else (Err(if |input| == 0 then ErrEof else ErrUnexpectedEof), [])
  }

  /** One frame off the input: header, size limit, payload, parser. */
  function ReadOne(maxReadSize: nat, input: Bytes): (Result<Frame>, Bytes) {
    var (hb, rest) := ReadFull(input, FRAME_HEADER_LEN);
    if hb.Err? then (Err(hb.error), rest)
    else
      var fh := HeaderOf(hb.value);
      if fh.length > maxReadSize then (Err(ErrFrameTooLarge), rest)
      else
        var (pl, rest') := ReadFull(rest, fh.length);
        if pl.Err? then (Err(pl.error), rest') else (Parsed(fh, pl.value), rest')
  }

  /** A written frame is read as its header and its payload, and nothing beyond it is touched. */
  lemma FrameBack(maxReadSize: nat, ftype: Byte, flags: Byte, stream: nat, payload: Bytes, rest: Bytes)
    requires stream < U32 && |payload| <= MAX_FRAME_SIZE
    ensures ReadOne(maxReadSize, FrameBytes(ftype, flags, stream, payload) + rest) ==
            if |payload| > maxReadSize then (Err(ErrFrameTooLarge), payload + rest)
            else (Parsed(FrameHeader(|payload|, ftype, flags, stream % TOP_BIT), payload), rest)
  {
    hide Parsed, FromBe, Be, Fits;
    var b := FrameBytes(ftype, flags, stream, payload);
    assert (b + rest)[..9][5..] == Be32(stream);
    Be32Back(stream);
    assert (b + rest)[..9][..3] == Be(|payload|, 3);
    FitsWidth(|payload|);
    BeBack(|payload|, 3);
    assert HeaderOf((b + rest)[..9]) == FrameHeader(|payload|, ftype, flags, stream % TOP_BIT);
    assert (b + rest)[9..] == payload + rest;
    assert (payload + rest)[..|payload|] == payload && (payload + rest)[|payload|..] == rest;
  }

  // ---------------------------------------------------------------- parsers

  datatype PriorityParam = PriorityParam(streamDep: nat, exclusive: bool, weight: Byte)

  const NO_PRIORITY := PriorityParam(0, false, 0)

  datatype Frame =
    | DataFrame(h: FrameHeader, data: Bytes)
    | HeadersFrame(h: FrameHeader, priority: PriorityParam, fragment: Bytes)
    | PriorityFrame(h: FrameHeader, priority: PriorityParam)
    | RSTStreamFrame(h: FrameHeader, code: nat)
    | SettingsFrame(h: FrameHeader, p: Bytes)
    | PushPromiseFrame(h: FrameHeader, promiseID: nat, fragment: Bytes)
    | PingFrame(h: FrameHeader, data: Bytes)
    | GoAwayFrame(h: FrameHeader, lastStreamID: nat, code: nat, debugData: Bytes)
    | WindowUpdateFrame(h: FrameHeader, increment: nat)
    | ContinuationFrame(h: FrameHeader, fragment: Bytes)
    | UnknownFrame(h: FrameHeader, p: Bytes)

  /** The pad length byte, if the frame is padded, and what follows it. */
  function TakePad(padded: bool, p: Bytes): Result<(Bytes, Byte)> {
    if !padded then Ok((p, 0)) else if |p| == 0 then Err(ErrUnexpectedEof) else Ok((p[1..], p[0]))
  }

  /** A dependency: stream in the low 31 bits, exclusive flag on top, then the weight. */
  function PriorityOf(p: Bytes): PriorityParam
    requires |p| == 5
  {
    var v := FromBe(p[..4]);
    PriorityParam(v % TOP_BIT, v != v % TOP_BIT, p[4])
  }

  function TakePriority(present: bool, p: Bytes): Result<(Bytes, PriorityParam)> {
    if !present then Ok((p, NO_PRIORITY))
    else if |p| < 5 then Err(ErrUnexpectedEof)
    else Ok((p[5..], PriorityOf(p[..5])))
  }

  function ParseData(fh: FrameHeader, payload: Bytes): Result<Frame> {
    if fh.stream == 0 then Err(ConnError(PROTOCOL_ERROR))
    else match TakePad(Has(fh.flags, PADDED), payload)
      case Err(e) => Err(e)
      case Ok((p, padSize)) =>
        if padSize > |p| then Err(ConnError(PROTOCOL_ERROR)) else Ok(DataFrame(fh, p[..|p| - padSize]))
  }

  function ParseHeaders(fh: FrameHeader, payload: Bytes): Result<Frame> {
    if fh.stream == 0 then Err(ConnError(PROTOCOL_ERROR))
    else match TakePad(Has(fh.flags, PADDED), payload)
      case Err(e) => Err(e)
      case Ok((q, padLength)) =>
        match TakePriority(Has(fh.flags, PRIORITY), q)
        case Err(e) => Err(e)
        case Ok((p, prio)) =>
          if padLength > |p| then Err(StreamError(fh.stream, PROTOCOL_ERROR))
          else Ok(HeadersFrame(fh, prio, p[..|p| - padLength]))
  }

  function ParsePriority(fh: FrameHeader, payload: Bytes): Result<Frame> {
    if fh.stream == 0 then Err(ConnError(PROTOCOL_ERROR))
    else if |payload| != 5 then Err(ConnError(FRAME_SIZE_ERROR))
    else Ok(PriorityFrame(fh, PriorityOf(payload)))
  }

  function ParsePushPromise(fh: FrameHeader, payload: Bytes): Result<Frame> {
    if fh.stream == 0 then Err(ConnError(PROTOCOL_ERROR))
    else match TakePad(Has(fh.flags, PADDED), payload)
      case Err(e) => Err(e)
      case Ok((q, padLength)) =>
        if |q| < 4 then Err(ErrUnexpectedEof)
        else
          var p := q[4..];
          if padLength > |p| then Err(ConnError(PROTOCOL_ERROR))
          else Ok(PushPromiseFrame(fh, FromBe(q[..4]) % TOP_BIT, p[..|p| - padLength]))
  }

  datatype Setting = Setting(id: nat, val: nat)

  /** The i-th setting of a payload. */
  function SettingAt(p: Bytes, i: nat): Setting
    requires 6 * i + 6 <= |p|
  {
    Setting(FromBe(p[6 * i..6 * i + 2]), FromBe(p[6 * i + 2..6 * i + 6]))
  }

  /** The value of the first of the settings from i on that is for id, if there is one. */
  function FirstValue(p: Bytes, id: nat, i: nat): (nat, bool)
    decreases |p| - 6 * i
  {
    if 6 * i + 6 > |p| then (0, false)
    else if SettingAt(p, i).id == id then (SettingAt(p, i).val, true)
    else FirstValue(p, id, i + 1)
  }

  function ParseSettings(fh: FrameHeader, p: Bytes): Result<Frame> {
    if Has(fh.flags, ACK) && fh.length > 0 then Err(ConnError(FRAME_SIZE_ERROR))
    else if fh.stream != 0 then Err(ConnError(PROTOCOL_ERROR))
    else if |p| % 6 != 0 then Err(ConnError(FRAME_SIZE_ERROR))
    else
      var (v, ok) := FirstValue(p, INITIAL_WINDOW_SIZE, 0);
      if ok && v > TOP_BIT - 1 then Err(ConnError(FLOW_CONTROL_ERROR)) else Ok(SettingsFrame(fh, p))
  }

  function ParseRSTStream(fh: FrameHeader, p: Bytes): Result<Frame> {
    if |p| != 4 then Err(ConnError(FRAME_SIZE_ERROR))
    else if fh.stream == 0 then Err(ConnError(PROTOCOL_ERROR))
    else Ok(RSTStreamFrame(fh, FromBe(p)))
  }

  function ParsePing(fh: FrameHeader, p: Bytes): Result<Frame> {
    if |p| != 8 then Err(ConnError(FRAME_SIZE_ERROR))
    else if fh.stream != 0 then Err(ConnError(PROTOCOL_ERROR))
    else Ok(PingFrame(fh, p))
  }

  /** The error code is taken from the first four bytes, as the code does. */
  function ParseGoAway(fh: FrameHeader, p: Bytes): Result<Frame> {
    if fh.stream != 0 then Err(ConnError(PROTOCOL_ERROR))
    else if |p| < 8 then Err(ConnError(FRAME_SIZE_ERROR))
    else Ok(GoAwayFrame(fh, FromBe(p[..4]) % TOP_BIT, FromBe(p[..8][..4]), p[8..]))
  }

  function ParseWindowUpdate(fh: FrameHeader, p: Bytes): Result<Frame> {
    if |p| != 4 then Err(ConnError(FRAME_SIZE_ERROR))
    else
      var inc := FromBe(p) % TOP_BIT;
      if inc != 0 then Ok(WindowUpdateFrame(fh, inc))
      else if fh.stream == 0 then Err(ConnError(PROTOCOL_ERROR)) else Err(StreamError(fh.stream, PROTOCOL_ERROR))
  }

  function ParseContinuation(fh: FrameHeader, p: Bytes): Result<Frame> {
    if fh.stream == 0 then Err(ConnError(PROTOCOL_ERROR)) else Ok(ContinuationFrame(fh, p))
  }

  /** The parser for the frame's type. */
  function Parsed(fh: FrameHeader, p: Bytes): Result<Frame> {
    if fh.ftype == FRAME_DATA then ParseData(fh, p)
    else if fh.ftype == FRAME_HEADERS then ParseHeaders(fh, p)
    else if fh.ftype == FRAME_PRIORITY then ParsePriority(fh, p)
    else if fh.ftype == FRAME_RST_STREAM then ParseRSTStream(fh, p)
    else if fh.ftype == FRAME_SETTINGS then ParseSettings(fh, p)
    else if fh.ftype == FRAME_PUSH_PROMISE then ParsePushPromise(fh, p)
    else if fh.ftype == FRAME_PING then ParsePing(fh, p)
    else if fh.ftype == FRAME_GO_AWAY then ParseGoAway(fh, p)
    else if fh.ftype == FRAME_WINDOW_UPDATE then ParseWindowUpdate(fh, p)
    else if fh.ftype == FRAME_CONTINUATION then ParseContinuation(fh, p)
    else Ok(UnknownFrame(fh, p))
  }

  /** A parsed frame carries the header it came with, and header block frames name a stream. */
  lemma ParsedHeader(fh: FrameHeader, p: Bytes)
    requires Parsed(fh, p).Ok?
    ensures Parsed(fh, p).value.h == fh
    ensures fh.ftype == FRAME_HEADERS || fh.ftype == FRAME_CONTINUATION ==> fh.stream != 0
  {
    hide FromBe, FirstValue, Has;
  }

  // ---------------------------------------------------------------- layouts

  /** An optionally padded payload: pad length, body, padding. */
  function Lay(padded: bool, body: Bytes, pad: Bytes): Bytes
    requires |pad| < 256
  {
    (if padded then [|pad|] else []) + body + pad
  }

  /** v with its top bit set if asked for. */
  function OrTop(v: nat, top: bool): nat { if top && v < TOP_BIT then v + TOP_BIT else v }

  function PriorityBytes(prio: PriorityParam): (r: Bytes)
    ensures |r| == 5
  {
    Be32(OrTop(prio.streamDep, prio.exclusive)) + [prio.weight]
  }

  lemma LayTaken(padded: bool, body: Bytes, pad: Bytes)
    requires |pad| < 256 && (padded || pad == [])
    ensures TakePad(padded, Lay(padded, body, pad)) == Ok((body + pad, |pad|))
  {
    if padded {
      assert Lay(padded, body, pad)[1..] == body + pad;
    } else {
      assert Lay(padded, body, pad) == body + pad;
    }
  }

  lemma TakenLaid(padded: bool, payload: Bytes)
    requires TakePad(padded, payload).Ok?
    ensures var (p, n) := TakePad(padded, payload).value;
            (padded || n == 0) &&
            (n <= |p| ==> payload == Lay(padded, p[..|p| - n], p[|p| - n..]))
  {
    var (p, n) := TakePad(padded, payload).value;
    if n <= |p| {
      assert p == p[..|p| - n] + p[|p| - n..];
      assert padded ==> payload == [n as Byte] + p;
    }
  }

  lemma PriorityBack(prio: PriorityParam)
    requires prio.streamDep < TOP_BIT
    ensures PriorityOf(PriorityBytes(prio)) == prio
  {
    var v := OrTop(prio.streamDep, prio.exclusive);
    assert PriorityBytes(prio)[..4] == Be32(v);
    Be32Back(v);
  }

  lemma PriorityOnto(p: Bytes)
    requires |p| == 5
    ensures PriorityOf(p).streamDep < TOP_BIT && PriorityBytes(PriorityOf(p)) == p
  {
    Be32Onto(p[..4]);
    assert p == p[..4] + [p[4]];
  }

  /**
   DATA (section 6.1): accepted with some data exactly when the stream is not 0 and the payload is
   that data, with padding around it if the PADDED flag says so.
  */
  lemma DataLayout(fh: FrameHeader, payload: Bytes, data: Bytes)
    ensures ParseData(fh, payload) == Ok(DataFrame(fh, data)) <==>
            fh.stream != 0 &&
            exists pad: Bytes :: |pad| < 256 && (Has(fh.flags, PADDED) || pad == [])
                && payload == Lay(Has(fh.flags, PADDED), data, pad)
  {
    var padded := Has(fh.flags, PADDED);
    if ParseData(fh, payload) == Ok(DataFrame(fh, data)) {
      TakenLaid(padded, payload);
      var (p, n) := TakePad(padded, payload).value;
      var pad := p[|p| - n..];
      assert payload == Lay(padded, data, pad);
    }
    forall pad: Bytes | fh.stream != 0 && |pad| < 256 && (padded || pad == []) && payload == Lay(padded, data, pad)
      ensures ParseData(fh, payload) == Ok(DataFrame(fh, data))
    {
      LayTaken(padded, data, pad);
      assert (data + pad)[..|data|] == data;
    }
  }

  /** The body of a HEADERS payload. */
  function HeadersBody(present: bool, prio: PriorityParam, fragment: Bytes): Bytes {
    (if present then PriorityBytes(prio) else []) + fragment
  }

  /** HEADERS (section 6.2): accepted exactly when laid out with the fields its flags announce. */
  lemma HeadersLayout(fh: FrameHeader, payload: Bytes, prio: PriorityParam, fragment: Bytes)
    requires prio.streamDep < TOP_BIT
    ensures ParseHeaders(fh, payload) == Ok(HeadersFrame(fh, prio, fragment)) <==>
            fh.stream != 0 && (Has(fh.flags, PRIORITY) || prio == NO_PRIORITY) &&
            exists pad: Bytes :: |pad| < 256 && (Has(fh.flags, PADDED) || pad == []) &&
              payload == Lay(Has(fh.flags, PADDED), HeadersBody(Has(fh.flags, PRIORITY), prio, fragment), pad)
  {
    hide *;
    var padded, present := Has(fh.flags, PADDED), Has(fh.flags, PRIORITY);
    if ParseHeaders(fh, payload) == Ok(HeadersFrame(fh, prio, fragment)) {
      HeadersLaid(fh, payload, prio, fragment);
    }
    forall pad: Bytes | fh.stream != 0 && (present || prio == NO_PRIORITY) && |pad| < 256 && (padded || pad == []) &&
                        payload == Lay(padded, HeadersBody(present, prio, fragment), pad)
      ensures ParseHeaders(fh, payload) == Ok(HeadersFrame(fh, prio, fragment))
    {
      HeadersTaken(fh, prio, fragment, pad);
    }
  }

  lemma HeadersLaid(fh: FrameHeader, payload: Bytes, prio: PriorityParam, fragment: Bytes)
    requires prio.streamDep < TOP_BIT
    requires ParseHeaders(fh, payload) == Ok(HeadersFrame(fh, prio, fragment))
    ensures fh.stream != 0 && (Has(fh.flags, PRIORITY) || prio == NO_PRIORITY)
    ensures exists pad: Bytes :: |pad| < 256 && (Has(fh.flags, PADDED) || pad == []) &&
              payload == Lay(Has(fh.flags, PADDED), HeadersBody(Has(fh.flags, PRIORITY), prio, fragment), pad)
  {
    hide FromBe, Be, PriorityOf, PriorityBytes, Has, Lay, TakePad;
    var padded, present := Has(fh.flags, PADDED), Has(fh.flags, PRIORITY);
    TakenLaid(padded, payload);
    var (q, n) := TakePad(padded, payload).value;
    if present {
      PriorityOnto(q[..5]);
    }
    assert q[..|q| - n] == HeadersBody(present, prio, fragment);
    var pad := q[|q| - n..];
    assert payload == Lay(padded, HeadersBody(present, prio, fragment), pad);
  }

  lemma HeadersTaken(fh: FrameHeader, prio: PriorityParam, fragment: Bytes, pad: Bytes)
    requires prio.streamDep < TOP_BIT && fh.stream != 0 && (Has(fh.flags, PRIORITY) || prio == NO_PRIORITY)
    requires |pad| < 256 && (Has(fh.flags, PADDED) || pad == [])
    ensures ParseHeaders(fh, Lay(Has(fh.flags, PADDED), HeadersBody(Has(fh.flags, PRIORITY), prio, fragment), pad)) ==
            Ok(HeadersFrame(fh, prio, fragment))
  {
    hide FromBe, Be, PriorityOf, PriorityBytes, Has, Lay, TakePad;
    var padded, present := Has(fh.flags, PADDED), Has(fh.flags, PRIORITY);
    var body := HeadersBody(present, prio, fragment);
    LayTaken(padded, body, pad);
    PriorityBack(prio);
    if present {
      assert (body + pad)[..5] == PriorityBytes(prio);
      assert (body + pad)[5..] == fragment + pad;
    } else {
      assert body + pad == fragment + pad;
    }
    assert (fragment + pad)[..|fragment|] == fragment;
  }

  /** PUSH_PROMISE (section 6.6): as HEADERS, with a promised stream whose top bit is ignored. */
  lemma PushPromiseLayout(fh: FrameHeader, payload: Bytes, id: nat, fragment: Bytes)
    requires id < TOP_BIT
    ensures ParsePushPromise(fh, payload) == Ok(PushPromiseFrame(fh, id, fragment)) <==>
            fh.stream != 0 &&
            exists pad: Bytes, v: nat :: |pad| < 256 && (Has(fh.flags, PADDED) || pad == []) && v < U32
                && v % TOP_BIT == id &&
              payload == Lay(Has(fh.flags, PADDED), Be32(v) + fragment, pad)
  {
    hide *;
    var padded := Has(fh.flags, PADDED);
    if ParsePushPromise(fh, payload) == Ok(PushPromiseFrame(fh, id, fragment)) {
      PushPromiseLaid(fh, payload, id, fragment);
    }
    forall pad: Bytes, v: nat | fh.stream != 0 && |pad| < 256 && (padded || pad == []) && v < U32
        && v % TOP_BIT == id &&
                                payload == Lay(padded, Be32(v) + fragment, pad)
      ensures ParsePushPromise(fh, payload) == Ok(PushPromiseFrame(fh, id, fragment))
    {
      PushPromiseTaken(fh, v, fragment, pad);
    }
  }

  lemma PushPromiseLaid(fh: FrameHeader, payload: Bytes, id: nat, fragment: Bytes)
    requires ParsePushPromise(fh, payload) == Ok(PushPromiseFrame(fh, id, fragment))
    ensures fh.stream != 0
    ensures exists pad: Bytes, v: nat ::
              && |pad| < 256 && (Has(fh.flags, PADDED) || pad == []) && v < U32 && v % TOP_BIT == id
              && payload == Lay(Has(fh.flags, PADDED), Be32(v) + fragment, pad)
  {
    hide FromBe, Be, Has, Lay, TakePad;
    var padded := Has(fh.flags, PADDED);
    TakenLaid(padded, payload);
    var (q, n) := TakePad(padded, payload).value;
    Be32Onto(q[..4]);
    var v := FromBe(q[..4]);
    assert q[..|q| - n] == Be32(v) + fragment;
    var pad := q[|q| - n..];
    assert payload == Lay(padded, Be32(v) + fragment, pad);
  }

  lemma PushPromiseTaken(fh: FrameHeader, v: nat, fragment: Bytes, pad: Bytes)
    requires fh.stream != 0 && v < U32 && |pad| < 256 && (Has(fh.flags, PADDED) || pad == [])
    ensures ParsePushPromise(fh, Lay(Has(fh.flags, PADDED), Be32(v) + fragment, pad)) ==
            Ok(PushPromiseFrame(fh, v % TOP_BIT, fragment))
  {
    hide FromBe, Be, Has, Lay, TakePad;
    LayTaken(Has(fh.flags, PADDED), Be32(v) + fragment, pad);
    Be32Back(v);
    var q := Be32(v) + fragment + pad;
    assert q[..4] == Be32(v);
    assert q[4..] == fragment + pad;
    assert (fragment + pad)[..|fragment|] == fragment;
  }

  /** RST_STREAM (section 6.4): accepted exactly when it is one 32-bit code on a stream that is not 0. */
  lemma RSTStreamLayout(fh: FrameHeader, p: Bytes, code: nat)
    ensures ParseRSTStream(fh, p) == Ok(RSTStreamFrame(fh, code)) <==> fh.stream != 0 && code < U32 && p == Be32(code)
  {
    hide FromBe, Be;
    if |p| == 4 {
      Be32Onto(p);
    }
    if code < U32 {
      Be32Back(code);
    }
  }

  /** WINDOW_UPDATE (section 6.9): accepted exactly when it is one 32-bit number that is not 0 in its low 31 bits. */
  lemma WindowUpdateLayout(fh: FrameHeader, p: Bytes, inc: nat)
    ensures ParseWindowUpdate(fh, p) == Ok(WindowUpdateFrame(fh, inc)) <==>
            0 < inc < TOP_BIT && (p == Be32(inc) || p == Be32(inc + TOP_BIT))
  {
    hide FromBe, Be;
    if |p| == 4 {
      Be32Onto(p);
    }
    if inc < TOP_BIT {
      Be32Back(inc);
      Be32Back(inc + TOP_BIT);
    }
  }

  // ---------------------------------------------------------------- what the writers write

  predicate ValidStreamID(id: nat) { 0 < id < TOP_BIT }

  function DataFlags(endStream: bool, padded: bool): Byte {
    (if endStream then END_STREAM else 0) + if padded then PADDED else 0
  }

  function HeadersFlags(padded: bool, endStream: bool, endHeaders: bool, priority: bool): Byte {
    (if padded then PADDED else 0) + (if endStream then END_STREAM else 0) +
    (if endHeaders then END_HEADERS else 0) + if priority then PRIORITY else 0
  }

  lemma FlagsBack(padded: bool, endStream: bool, endHeaders: bool, priority: bool)
    ensures var f := HeadersFlags(padded, endStream, endHeaders, priority);
            (Has(f, PADDED) <==> padded) && (Has(f, END_STREAM) <==> endStream) &&
            (Has(f, END_HEADERS) <==> endHeaders) && (Has(f, PRIORITY) <==> priority)
  {
  }

  function Zeroes(n: nat): (r: Bytes)
    ensures |r| == n && forall i | 0 <= i < n :: r[i] == 0
  {
    seq(n, _ => 0)
  }

  /** The payload of a DATA frame; no padding at all differs from padding of no bytes. */
  function DataPayload(data: Bytes, pad: Option<Bytes>): Bytes
    requires pad.Some? ==> |pad.value| < 256
  {
    Lay(pad.Some?, data, if pad.Some? then pad.value else [])
  }

  datatype HeadersFrameParam = HeadersFrameParam(
    streamID: nat, fragment: Bytes, endStream: bool, endHeaders: bool, padLength: Byte, priority: PriorityParam)

  function HeadersPayload(p: HeadersFrameParam): Bytes {
    Lay(p.padLength != 0, HeadersBody(p.priority != NO_PRIORITY, p.priority, p.fragment), Zeroes(p.padLength))
  }

  function FlagsOf(p: HeadersFrameParam): Byte {
    HeadersFlags(p.padLength != 0, p.endStream, p.endHeaders, p.priority != NO_PRIORITY)
  }

  datatype PushPromiseParam = PushPromiseParam(
    streamID: nat, promiseID: nat, fragment: Bytes, endHeaders: bool, padLength: Byte)

  function PushPromisePayload(p: PushPromiseParam): Bytes {
    Lay(p.padLength != 0, Be32(p.promiseID) + p.fragment, Zeroes(p.padLength))
  }

  function SettingsPayload(ss: seq<Setting>): (r: Bytes)
    ensures |r| == 6 * |ss|
  {
    if |ss| == 0 then [] else SettingsPayload(ss[..|ss| - 1]) + Be16(ss[|ss| - 1].id) + Be32(ss[|ss| - 1].val)
  }

  function GoAwayPayload(maxStreamID: nat, code: nat, debugData: Bytes): Bytes {
    Be32(maxStreamID % TOP_BIT) + Be32(code) + debugData
  }

  // ---------------------------------------------------------------- round trips

  /** A frame that fits both limits comes back as the parser reads its payload. */
  lemma ReadBack(max: nat, ftype: Byte, flags: Byte, stream: nat, payload: Bytes, rest: Bytes, f: Frame)
    requires stream < TOP_BIT && |payload| <= MAX_FRAME_SIZE && |payload| <= max
    requires Parsed(FrameHeader(|payload|, ftype, flags, stream), payload) == Ok(f)
    ensures ReadOne(max, FrameBytes(ftype, flags, stream, payload) + rest) == (Ok(f), rest)
  {
    hide Parsed, FrameBytes, ReadOne;
    FrameBack(max, ftype, flags, stream, payload, rest);
  }

  lemma DataBack(max: nat, stream: nat, endStream: bool, data: Bytes, pad: Option<Bytes>, rest: Bytes)
    requires ValidStreamID(stream) && (pad.Some? ==> |pad.value| < 256)
    requires |DataPayload(data, pad)| <= MAX_FRAME_SIZE && |DataPayload(data, pad)| <= max
    ensures var payload, flags := DataPayload(data, pad), DataFlags(endStream, pad.Some?);
            (Has(flags, END_STREAM) <==> endStream) && (Has(flags, PADDED) <==> pad.Some?) &&
            ReadOne(max, FrameBytes(FRAME_DATA, flags, stream, payload) + rest) ==
            (Ok(DataFrame(FrameHeader(|payload|, FRAME_DATA, flags, stream), data)), rest)
  {
    hide ReadOne, FrameBytes, ParseData;
    var payload, flags := DataPayload(data, pad), DataFlags(endStream, pad.Some?);
    FlagsBack(pad.Some?, endStream, false, false);
    var fh := FrameHeader(|payload|, FRAME_DATA, flags, stream);
    DataLayout(fh, payload, data);
    assert payload == Lay(Has(flags, PADDED), data, if pad.Some? then pad.value else []);
    ReadBack(max, FRAME_DATA, flags, stream, payload, rest, DataFrame(fh, data));
  }

  lemma HeadersBack(max: nat, p: HeadersFrameParam, rest: Bytes)
    requires ValidStreamID(p.streamID) && p.priority.streamDep < TOP_BIT
    requires |HeadersPayload(p)| <= MAX_FRAME_SIZE && |HeadersPayload(p)| <= max
    ensures var payload, flags := HeadersPayload(p), FlagsOf(p);
            (Has(flags, END_STREAM) <==> p.endStream) && (Has(flags, END_HEADERS) <==> p.endHeaders) &&
            ReadOne(max, FrameBytes(FRAME_HEADERS, flags, p.streamID, payload) + rest) ==
            (Ok(HeadersFrame(FrameHeader(|payload|, FRAME_HEADERS, flags, p.streamID), p.priority, p.fragment)), rest)
  {
    hide ReadOne, FrameBytes, ParseHeaders, Has, HeadersFlags, HeadersBody;
    var payload, flags := HeadersPayload(p), FlagsOf(p);
    FlagsBack(p.padLength != 0, p.endStream, p.endHeaders, p.priority != NO_PRIORITY);
    var fh := FrameHeader(|payload|, FRAME_HEADERS, flags, p.streamID);
    HeadersLayout(fh, payload, p.priority, p.fragment);
    assert payload == Lay(Has(flags, PADDED), HeadersBody(Has(flags, PRIORITY), p.priority, p.fragment),
        Zeroes(p.padLength));
    ReadBack(max, FRAME_HEADERS, flags, p.streamID, payload, rest, HeadersFrame(fh, p.priority, p.fragment));
  }

  lemma PushPromiseBack(max: nat, p: PushPromiseParam, rest: Bytes)
    requires ValidStreamID(p.streamID) && ValidStreamID(p.promiseID)
    requires |PushPromisePayload(p)| <= MAX_FRAME_SIZE && |PushPromisePayload(p)| <= max
    ensures var payload, flags := PushPromisePayload(p), HeadersFlags(p.padLength != 0, false, p.endHeaders, false);
            (Has(flags, END_HEADERS) <==> p.endHeaders) &&
            ReadOne(max, FrameBytes(FRAME_PUSH_PROMISE, flags, p.streamID, payload) + rest) ==
            (Ok(PushPromiseFrame(FrameHeader(|payload|, FRAME_PUSH_PROMISE, flags, p.streamID), p.promiseID,
                p.fragment)), rest)
  {
    hide ReadOne, FrameBytes, ParsePushPromise, Has, HeadersFlags, Be32;
    var payload, flags := PushPromisePayload(p), HeadersFlags(p.padLength != 0, false, p.endHeaders, false);
    FlagsBack(p.padLength != 0, false, p.endHeaders, false);
    var fh := FrameHeader(|payload|, FRAME_PUSH_PROMISE, flags, p.streamID);
    PushPromiseLayout(fh, payload, p.promiseID, p.fragment);
    assert payload == Lay(Has(flags, PADDED), Be32(p.promiseID) + p.fragment, Zeroes(p.padLength));
    ReadBack(max, FRAME_PUSH_PROMISE, flags, p.streamID, payload, rest, PushPromiseFrame(fh, p.promiseID, p.fragment));
  }

  lemma PriorityFrameBack(max: nat, stream: nat, prio: PriorityParam, rest: Bytes)
    requires ValidStreamID(stream) && prio.streamDep < TOP_BIT && max >= 5
    ensures ReadOne(max, FrameBytes(FRAME_PRIORITY, 0, stream, PriorityBytes(prio)) + rest) ==
            (Ok(PriorityFrame(FrameHeader(5, FRAME_PRIORITY, 0, stream), prio)), rest)
  {
    hide ReadOne, FrameBytes, PriorityOf, PriorityBytes;
    PriorityBack(prio);
    ReadBack(max, FRAME_PRIORITY, 0, stream, PriorityBytes(prio), rest,
             PriorityFrame(FrameHeader(5, FRAME_PRIORITY, 0, stream), prio));
  }

  /** Every setting is read back at its place. */
  lemma {:induction false} SettingBack(ss: seq<Setting>, i: nat)
    requires i < |ss| && forall s | s in ss :: s.id < U16 && s.val < U32
    ensures SettingAt(SettingsPayload(ss), i) == ss[i]
  {
    hide FromBe, Be;
    var init, p := ss[..|ss| - 1], SettingsPayload(ss);
    if i < |ss| - 1 {
      SettingBack(init, i);
      var q := SettingsPayload(init);
      assert p[..|q|] == q;
      assert p[6 * i..6 * i + 2] == q[6 * i..6 * i + 2];
      assert p[6 * i + 2..6 * i + 6] == q[6 * i + 2..6 * i + 6];
    } else {
      var s := ss[i];
      Be16Back(s.id);
      Be32Back(s.val);
      assert p[6 * i..6 * i + 2] == Be16(s.id);
      assert p[6 * i + 2..6 * i + 6] == Be32(s.val);
    }
  }

  /** The first initial window size among the settings from i on, if any, is one that flow control allows. */
  predicate WindowOk(ss: seq<Setting>, i: nat)
    decreases |ss| - i
  {
    i < |ss| ==> if ss[i].id == INITIAL_WINDOW_SIZE then ss[i].val < TOP_BIT else WindowOk(ss, i + 1)
  }

  lemma {:induction false} WindowFound(ss: seq<Setting>, i: nat)
    requires i <= |ss| && forall s | s in ss :: s.id < U16 && s.val < U32
    ensures var (v, ok) := FirstValue(SettingsPayload(ss), INITIAL_WINDOW_SIZE, i);
            WindowOk(ss, i) <==> !(ok && v > TOP_BIT - 1)
    decreases |ss| - i
  {
    hide SettingAt, SettingsPayload;
    if i < |ss| {
      SettingBack(ss, i);
      WindowFound(ss, i + 1);
    }
  }

  /**
   SETTINGS: read back exactly when the first initial window size is below 2^31, and refused as a
   flow control error otherwise. Later ones are not looked at.
  */
  lemma SettingsBack(max: nat, ss: seq<Setting>, rest: Bytes)
    requires forall s | s in ss :: s.id < U16 && s.val < U32
    requires 6 * |ss| <= MAX_FRAME_SIZE && 6 * |ss| <= max
    ensures var payload := SettingsPayload(ss);
            ReadOne(max, FrameBytes(FRAME_SETTINGS, 0, 0, payload) + rest) ==
            (if WindowOk(ss, 0) then Ok(SettingsFrame(FrameHeader(6 * |ss|, FRAME_SETTINGS, 0, 0), payload))
             else Err(ConnError(FLOW_CONTROL_ERROR)), rest)
    ensures forall i | 0 <= i < |ss| :: SettingAt(SettingsPayload(ss), i) == ss[i]
  {
    hide ReadOne, FrameBytes, SettingAt, SettingsPayload, FirstValue, WindowOk;
    FrameBack(max, FRAME_SETTINGS, 0, 0, SettingsPayload(ss), rest);
    WindowFound(ss, 0);
    forall i | 0 <= i < |ss| ensures SettingAt(SettingsPayload(ss), i) == ss[i] {
      SettingBack(ss, i);
    }
  }

  /** An acknowledgement is an empty frame, and comes back as one. */
  lemma SettingsAckBack(max: nat, rest: Bytes)
    ensures ReadOne(max, FrameBytes(FRAME_SETTINGS, ACK, 0, []) + rest) ==
            (Ok(SettingsFrame(FrameHeader(0, FRAME_SETTINGS, ACK, 0), [])), rest)
  {
    hide ReadOne, FrameBytes, SettingAt;
    FrameBack(max, FRAME_SETTINGS, ACK, 0, [], rest);
  }

  lemma ContinuationBack(max: nat, stream: nat, endHeaders: bool, fragment: Bytes, rest: Bytes)
    requires ValidStreamID(stream) && |fragment| <= MAX_FRAME_SIZE && |fragment| <= max
    ensures var flags := HeadersFlags(false, false, endHeaders, false);
            (Has(flags, END_HEADERS) <==> endHeaders) &&
            ReadOne(max, FrameBytes(FRAME_CONTINUATION, flags, stream, fragment) + rest) ==
            (Ok(ContinuationFrame(FrameHeader(|fragment|, FRAME_CONTINUATION, flags, stream), fragment)), rest)
  {
    hide ReadOne, FrameBytes;
    var flags := HeadersFlags(false, false, endHeaders, false);
    ReadBack(max, FRAME_CONTINUATION, flags, stream, fragment, rest,
             ContinuationFrame(FrameHeader(|fragment|, FRAME_CONTINUATION, flags, stream), fragment));
  }

  /**
   GOAWAY does not come back in general: last stream and debug data do, but the error code only if
   it happens to equal the last stream identifier, whose bytes it is read from.
  */
  lemma GoAwayBack(max: nat, maxStreamID: nat, code: nat, debugData: Bytes, rest: Bytes)
    requires maxStreamID < U32 && code < U32
    requires 8 + |debugData| <= MAX_FRAME_SIZE && 8 + |debugData| <= max
    ensures var payload := GoAwayPayload(maxStreamID, code, debugData);
            var (r, left) := ReadOne(max, FrameBytes(FRAME_GO_AWAY, 0, 0, payload) + rest);
            left == rest && r.Ok? && r.value.GoAwayFrame? &&
            r.value.lastStreamID == maxStreamID % TOP_BIT && r.value.debugData == debugData &&
            (r.value.code == code <==> code == maxStreamID % TOP_BIT)
  {
    hide ReadOne, FrameBytes, FromBe, Be32;
    var payload := GoAwayPayload(maxStreamID, code, debugData);
    FrameBack(max, FRAME_GO_AWAY, 0, 0, payload, rest);
    Be32Back(maxStreamID % TOP_BIT);
    assert payload[..4] == payload[..8][..4] == Be32(maxStreamID % TOP_BIT);
    assert payload[8..] == debugData;
  }
}
