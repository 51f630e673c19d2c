/**
 The layouts of the remaining frames, the octets that everything stands in, and which frames are
 refused with which error.
*/
module FrameForms {
  import opened BitStrings
  import opened Frames

  // ---------------------------------------------------------------- octets

  /** The nine octets of a frame header (section 4.1 of RFC 7540), most significant first. */
  lemma HeaderOctets(ftype: Byte, flags: Byte, stream: nat, payload: Bytes)
    requires |payload| <= MAX_FRAME_SIZE && stream < U32
    ensures FrameBytes(ftype, flags, stream, payload)
            == [|payload| / 65536, |payload| / 256 % 256, |payload| % 256, ftype, flags,
                stream / 16777216, stream / 65536 % 256, stream / 256 % 256, stream % 256] + payload
  {
    Octets24(|payload|);
    Octets32(stream);
    hide Be;
  }

  lemma Octets24(v: nat)
    requires v <= MAX_FRAME_SIZE
    ensures Be(v, 3) == [v / 65536, v / 256 % 256, v % 256]
  {
    assert v / 256 / 256 == v / 65536;
    assert Be(v / 256, 2) == Be(v / 65536, 1) + [v / 256 % 256];
    assert Be(v / 65536, 1) == [v / 65536];
  }

  lemma Octets32(v: nat)
    requires v < U32
    ensures Be32(v) == [v / 16777216, v / 65536 % 256, v / 256 % 256, v % 256]
  {
    Octets24(v / 256);
    hide Be;
    assert Be(v, 4) == Be(v / 256, 3) + [v % 256] by { OneOctet(v); }
  }

  lemma OneOctet(v: nat)
    ensures Be(v, 4) == Be(v / 256, 3) + [v % 256]
  {
  }

  /** A setting is its identifier in two octets and its value in four (section 6.5.1). */
  lemma SettingOctets(s: Setting)
    requires s.id < U16 && s.val < U32
    ensures SettingsPayload([s])
            == [s.id / 256, s.id % 256, s.val / 16777216, s.val / 65536 % 256, s.val / 256 % 256, s.val % 256]
  {
    Octets32(s.val);
    assert Be(s.id, 2) == Be(s.id / 256, 1) + [s.id % 256] == [s.id / 256, s.id % 256];
    hide Be, Be32;
    assert [s][..0] == [];
  }

  /** A priority is the exclusive flag and the stream depended on in four octets, and the weight (section 6.3). */
  lemma PriorityOctets(prio: PriorityParam)
    requires prio.streamDep < TOP_BIT
    ensures PriorityBytes(prio)
            == [prio.streamDep / 16777216 + (if prio.exclusive then 128 else 0), prio.streamDep / 65536 % 256,
                prio.streamDep / 256 % 256, prio.streamDep % 256, prio.weight]
  {
    var v := prio.streamDep;
    Octets32(OrTop(v, prio.exclusive));
    hide Be32;
    TopAside(v);
  }

  /** The top bit is in the first of four octets only. */
  lemma TopAside(v: nat)
    ensures (v + TOP_BIT) / 16777216 == v / 16777216 + 128
    ensures (v + TOP_BIT) / 65536 % 256 == v / 65536 % 256
    ensures (v + TOP_BIT) / 256 % 256 == v / 256 % 256 && (v + TOP_BIT) % 256 == v % 256
  {
    assert (v + TOP_BIT) / 65536 == v / 65536 + 32768;
    assert (v + TOP_BIT) / 256 == v / 256 + 8388608;
    Aside(v / 65536, 128);
    Aside(v / 256, 32768);
    Aside(v, 8388608);
  }

  lemma Aside(x: nat, k: nat)
    ensures (x + 256 * k) % 256 == x % 256
  {
  }

  /** END_STREAM is bit 0 of the flags, END_HEADERS bit 2, PADDED bit 3 and PRIORITY bit 5 (section 6.2). */
  lemma FlagBits(padded: bool, endStream: bool, endHeaders: bool, priority: bool)
    ensures HeadersFlags(padded, endStream, endHeaders, priority)
            == (if endStream then 1 else 0) + (if endHeaders then 4 else 0) + (if padded then 8 else 0)
               + (if priority then 32 else 0)
    ensures DataFlags(endStream, padded) == (if endStream then 1 else 0) + if padded then 8 else 0
  {
  }

  // ---------------------------------------------------------------- layouts

  /** PRIORITY (section 6.3): accepted exactly when it is five octets that say so, on a stream other than 0. */
  lemma PriorityLayout(fh: FrameHeader, p: Bytes, prio: PriorityParam)
    requires prio.streamDep < TOP_BIT
    ensures ParsePriority(fh, p) == Ok(PriorityFrame(fh, prio)) <==> fh.stream != 0 && p == PriorityBytes(prio)
  {
    hide PriorityOf, PriorityBytes;
    PriorityBack(prio);
    if |p| == 5 {
      PriorityOnto(p);
    }
  }

  /** Some setting for the initial window size comes first and is too large. */
  ghost predicate WindowTooLarge(p: Bytes) {
    exists i: nat :: 6 * i + 6 <= |p| && SettingAt(p, i).id == 4 && SettingAt(p, i).val >= 0x8000_0000
      && forall j: nat :: j < i ==> SettingAt(p, j).id != 4
  }

  lemma {:induction false} FirstWindow(p: Bytes, i: nat)
    requires forall j: nat :: j < i && 6 * j + 6 <= |p| ==> SettingAt(p, j).id != 4
    ensures var (v, ok) := FirstValue(p, INITIAL_WINDOW_SIZE, i);
            ok && v >= 0x8000_0000 <==> WindowTooLarge(p)
    decreases |p| - 6 * i
  {
    hide SettingAt;
    if 6 * i + 6 <= |p| && SettingAt(p, i).id != 4 {
      FirstWindow(p, i + 1);
    }
  }

  /**
   SETTINGS (section 6.5): accepted exactly when it is on stream 0, a whole number of settings, none if it is an
   acknowledgement, and its first initial window size is not too large.
  */
  lemma SettingsLayout(fh: FrameHeader, p: Bytes, q: Bytes)
    ensures ParseSettings(fh, p) == Ok(SettingsFrame(fh, q)) <==>
            && q == p && fh.stream == 0 && |p| % 6 == 0 && !(Has(fh.flags, ACK) && fh.length > 0)
            && !WindowTooLarge(p)
  {
    hide SettingAt, FirstValue, WindowTooLarge, Has;
    FirstWindow(p, 0);
  }

  /** PING (section 6.7): accepted exactly when it is eight octets on stream 0, which are its data. */
  lemma PingLayout(fh: FrameHeader, p: Bytes, data: Bytes)
    ensures ParsePing(fh, p) == Ok(PingFrame(fh, data)) <==> fh.stream == 0 && p == data && |data| == 8
  {
  }

  /**
   GOAWAY (section 6.8): accepted exactly when it is on stream 0 and is two numbers and debug data; of
   the first number both the last stream and the error code are taken.
  */
  lemma GoAwayLayout(fh: FrameHeader, p: Bytes, last: nat, code: nat, debug: Bytes)
    ensures ParseGoAway(fh, p) == Ok(GoAwayFrame(fh, last, code, debug)) <==>
            && fh.stream == 0 && code < U32 && last == code % TOP_BIT
            && exists w: nat :: w < U32 && p == Be32(code) + Be32(w) + debug
  {
    hide FromBe, Be32, Be;
    if |p| >= 8 {
      Be32Onto(p[..4]);
      Be32Onto(p[4..8]);
      assert p == p[..4] + p[4..8] + p[8..] && p[..8][..4] == p[..4];
    }
    forall w: nat | code < U32 && w < U32 && p == Be32(code) + Be32(w) + debug
      ensures |p| >= 8 && FromBe(p[..4]) == FromBe(p[..8][..4]) == code && p[8..] == debug
    {
      Be32Back(code);
      assert p[..4] == p[..8][..4] == Be32(code);
    }
  }

  /** CONTINUATION (section 6.10): accepted exactly on a stream other than 0, whatever the fragment. */
  lemma ContinuationLayout(fh: FrameHeader, p: Bytes, fragment: Bytes)
    ensures ParseContinuation(fh, p) == Ok(ContinuationFrame(fh, fragment)) <==> fh.stream != 0 && fragment == p
  {
  }

  /** Types 0 to 9 (section 11.2) have parsers of their own; a frame of another type comes back as it is. */
  lemma TypeDecides(fh: FrameHeader, p: Bytes)
    ensures fh.ftype > 9 <==> Parsed(fh, p) == Ok(UnknownFrame(fh, p))
    ensures Parsed(fh, p).Ok? ==>
              var f := Parsed(fh, p).value;
              && (fh.ftype == 0 <==> f.DataFrame?) && (fh.ftype == 1 <==> f.HeadersFrame?)
              && (fh.ftype == 2 <==> f.PriorityFrame?) && (fh.ftype == 3 <==> f.RSTStreamFrame?)
              && (fh.ftype == 4 <==> f.SettingsFrame?) && (fh.ftype == 5 <==> f.PushPromiseFrame?)
              && (fh.ftype == 6 <==> f.PingFrame?) && (fh.ftype == 7 <==> f.GoAwayFrame?)
              && (fh.ftype == 8 <==> f.WindowUpdateFrame?) && (fh.ftype == 9 <==> f.ContinuationFrame?)
  {
    hide FromBe, FirstValue, Has;
  }

  // ---------------------------------------------------------------- the way through the reader

  /** A PING on stream 0 is read with all its eight octets. */
  lemma PingBack(max: nat, flags: Byte, data: Bytes, rest: Bytes)
    requires |data| == 8 && max >= 8
    ensures ReadOne(max, FrameBytes(6, flags, 0, data) + rest)
            == (Ok(PingFrame(FrameHeader(8, 6, flags, 0), data)), rest)
  {
    hide ReadOne, FrameBytes;
    FrameBack(max, 6, flags, 0, data, rest);
    PingLayout(FrameHeader(8, 6, flags, 0), data, data);
  }

  /** A frame of a type nobody knows is read as it is, on any stream. */
  lemma UnknownBack(max: nat, ftype: Byte, flags: Byte, stream: nat, payload: Bytes, rest: Bytes)
    requires ftype > 9 && stream < TOP_BIT && |payload| <= MAX_FRAME_SIZE && |payload| <= max
    ensures ReadOne(max, FrameBytes(ftype, flags, stream, payload) + rest)
            == (Ok(UnknownFrame(FrameHeader(|payload|, ftype, flags, stream), payload)), rest)
  {
    hide ReadOne, FrameBytes;
    FrameBack(max, ftype, flags, stream, payload, rest);
  }

  lemma RSTStreamBack(max: nat, stream: nat, code: nat, rest: Bytes)
    requires ValidStreamID(stream) && code < U32 && max >= 4
    ensures ReadOne(max, FrameBytes(3, 0, stream, Be32(code)) + rest)
            == (Ok(RSTStreamFrame(FrameHeader(4, 3, 0, stream), code)), rest)
  {
    hide ReadOne, FrameBytes, FromBe, Be;
    FrameBack(max, 3, 0, stream, Be32(code), rest);
    Be32Back(code);
  }

  lemma WindowUpdateBack(max: nat, stream: nat, inc: nat, rest: Bytes)
    requires stream < TOP_BIT && 0 < inc < TOP_BIT && max >= 4
    ensures ReadOne(max, FrameBytes(8, 0, stream, Be32(inc)) + rest)
            == (Ok(WindowUpdateFrame(FrameHeader(4, 8, 0, stream), inc)), rest)
  {
    hide ReadOne, FrameBytes, FromBe, Be;
    FrameBack(max, 8, 0, stream, Be32(inc), rest);
    Be32Back(inc);
  }

  /**
   A frame that is cut off: no octet at all is the end of the input, and so is a frame that ends behind
   its header; everything else is an unexpected end. Nothing is left either way.
  */
  lemma FrameCutOff(max: nat, ftype: Byte, flags: Byte, stream: nat, payload: Bytes, m: nat)
    requires stream < U32 && |payload| <= MAX_FRAME_SIZE && |payload| <= max && m < 9 + |payload|
    ensures ReadOne(max, FrameBytes(ftype, flags, stream, payload)[..m])
            == (Err(if m == 0 || m == 9 then ErrEof else ErrUnexpectedEof), [])
  {
    hide Parsed, FromBe, Be, Fits;
    if m >= 9 {
      var b := FrameBytes(ftype, flags, stream, payload);
      assert b[..m][..9][..3] == Be(|payload|, 3);
      FitsWidth(|payload|);
      BeBack(|payload|, 3);
      assert b[..m][9..] == payload[..m - 9];
    }
  }

  // ---------------------------------------------------------------- refusals

  /** The pad length octet, if there is one. */
  function PadOctets(fh: FrameHeader): nat { if Has(fh.flags, PADDED) then 1 else 0 }

  /** The pad length. */
  function PadLength(fh: FrameHeader, p: Bytes): nat { if Has(fh.flags, PADDED) && |p| > 0 then p[0] else 0 }

  /** The octets in front of the padded part: pad length, and what the type demands. */
  function Fixed(fh: FrameHeader): nat {
    PadOctets(fh) + if fh.ftype == 1 && Has(fh.flags, PRIORITY) then 5 else if fh.ftype == 5 then 4 else 0
  }

  predicate Padding(fh: FrameHeader) { fh.ftype == 0 || fh.ftype == 1 || fh.ftype == 5 }

  /** The payload is longer than its padding and what comes in front of it allow. */
  predicate PadTooLong(fh: FrameHeader, p: Bytes) { |p| >= Fixed(fh) && PadLength(fh, p) > |p| - Fixed(fh) }

  predicate OnStream(fh: FrameHeader) { fh.ftype in {0, 1, 2, 3, 5, 9} }

  predicate OffStream(fh: FrameHeader) { fh.ftype in {4, 6, 7} }

  /** The length is not one that the type admits. */
  predicate WrongSize(fh: FrameHeader, p: Bytes) {
    || (fh.ftype == 2 && |p| != 5) || (fh.ftype == 3 && |p| != 4) || (fh.ftype == 4 && |p| % 6 != 0)
    || (fh.ftype == 6 && |p| != 8) || (fh.ftype == 7 && |p| < 8) || (fh.ftype == 8 && |p| != 4)
  }

  predicate WrongStream(fh: FrameHeader) { (OnStream(fh) && fh.stream == 0) || (OffStream(fh) && fh.stream != 0) }

  /** RST_STREAM, PING and WINDOW_UPDATE look at the length before the stream, the others after it. */
  predicate SizeFirst(fh: FrameHeader) { fh.ftype in {3, 6, 8} }

  predicate BadAck(fh: FrameHeader) { fh.ftype == 4 && Has(fh.flags, ACK) && fh.length > 0 }

  predicate ZeroIncrement(fh: FrameHeader, p: Bytes) {
    fh.ftype == 8 && |p| == 4 && p[0] % 128 == 0 && p[1] == 0 && p[2] == 0 && p[3] == 0
  }

  lemma ZeroIsZero(p: Bytes)
    requires |p| == 4
    ensures FromBe(p) % TOP_BIT == 0 <==> p[0] % 128 == 0 && p[1] == 0 && p[2] == 0 && p[3] == 0
  {
    Be32Onto(p);
    var v := FromBe(p);
    Octets32(v);
    hide FromBe, Be32;
    assert v % TOP_BIT == 0 ==> v == 0 || v == TOP_BIT;
  }

  /** A frame is refused as of the wrong size, exactly when one of the size rules of section 6 is broken first. */
  lemma SizeErrors(fh: FrameHeader, p: Bytes)
    ensures Parsed(fh, p) == Err(ConnError(6)) <==>
            BadAck(fh) || (WrongSize(fh, p) && (SizeFirst(fh) || !WrongStream(fh)))
  {
    hide FromBe, FirstValue, Has;
  }

  /** Flow control errors come from initial window sizes alone. */
  lemma FlowErrors(fh: FrameHeader, p: Bytes)
    ensures Parsed(fh, p) == Err(ConnError(3)) <==>
            fh.ftype == 4 && !BadAck(fh) && fh.stream == 0 && |p| % 6 == 0 && WindowTooLarge(p)
  {
    hide FromBe, FirstValue, Has, WindowTooLarge;
    FirstWindow(p, 0);
  }

  /** A padded or prioritized payload that is shorter than what has to come in front is an unexpected end. */
  lemma ShortErrors(fh: FrameHeader, p: Bytes)
    ensures Parsed(fh, p) == Err(ErrUnexpectedEof) <==> Padding(fh) && fh.stream != 0 && |p| < Fixed(fh)
  {
    hide FromBe, FirstValue, Has;
  }

  /** Errors of one stream: padding of HEADERS that is too long, and increments of 0. */
  lemma StreamErrors(fh: FrameHeader, p: Bytes)
    ensures Parsed(fh, p) == Err(StreamError(fh.stream, 1)) <==>
            fh.stream != 0 && ((fh.ftype == 1 && PadTooLong(fh, p)) || ZeroIncrement(fh, p))
  {
    if |p| == 4 {
      ZeroIsZero(p);
    }
    hide FromBe, FirstValue, Has;
  }

  /** Protocol errors: the wrong stream, other padding that is too long, and an increment of 0 for the connection. */
  lemma ProtocolErrors(fh: FrameHeader, p: Bytes)
    ensures Parsed(fh, p) == Err(ConnError(1)) <==>
            || (WrongStream(fh) && !BadAck(fh) && !(SizeFirst(fh) && WrongSize(fh, p)))
            || (fh.stream != 0 && (fh.ftype == 0 || fh.ftype == 5) && PadTooLong(fh, p))
            || (fh.stream == 0 && ZeroIncrement(fh, p))
  {
    if |p| == 4 {
      ZeroIsZero(p);
    }
    hide FromBe, FirstValue, Has;
  }

  /** There are no other errors. */
  lemma NoOtherErrors(fh: FrameHeader, p: Bytes)
    ensures Parsed(fh, p).Err? ==>
              var e := Parsed(fh, p).error;
              e in {ConnError(1), ConnError(3), ConnError(6), StreamError(fh.stream, 1), ErrUnexpectedEof}
  {
    hide FromBe, FirstValue, Has;
  }
}
