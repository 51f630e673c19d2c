/**
 The framer: a write buffer patched with its length before it goes out, and a reader that checks
 the order of what it parsed. The underlying writer takes everything it is given.
*/
module Framers {
  import opened BitStrings
  import opened Frames
  import opened FrameOrder
  import opened Options

  predicate AllZero(pad: Bytes) { forall i | 0 <= i < |pad| :: pad[i] == 0 }

  function HeadersOf(fs: seq<Frame>): (r: seq<FrameHeader>)
    ensures |r| == |fs| && forall i | 0 <= i < |fs| :: r[i] == fs[i].h
  {
    if |fs| == 0 then [] else HeadersOf(fs[..|fs| - 1]) + [fs[|fs| - 1].h]
  }

  class Framer {
    const allowIllegalWrites: bool
    const allowIllegalReads: bool
    var wbuf: Bytes
    var w: Bytes                    // everything handed to the underlying writer
    var r: Bytes                    // what is still to be read
    var maxReadSize: nat
    var lastFrame: Option<Frame>
    var lastHeaderStream: nat
    ghost var frames: seq<Frame>    // everything returned by ReadFrame

    /**
     With illegal reads off, the frames returned so far are an accepted sequence of frames that
     name their stream, and there is a last frame to blame whenever a header block is open.
    */
    ghost predicate Valid()
      reads this
    {
      !allowIllegalReads ==>
        && StreamsNamed(HeadersOf(frames)) && Run(HeadersOf(frames)) == Some(lastHeaderStream)
        && (lastHeaderStream != 0 ==> lastFrame.Some?)
    }

    constructor (input: Bytes, allowIllegalWrites: bool, allowIllegalReads: bool)
      ensures Valid() && r == input && w == [] && frames == [] && maxReadSize == MAX_FRAME_SIZE
      ensures this.allowIllegalWrites == allowIllegalWrites && this.allowIllegalReads == allowIllegalReads
    {
      this.allowIllegalWrites, this.allowIllegalReads := allowIllegalWrites, allowIllegalReads;
      wbuf, w, r := [], [], input;
      lastFrame, lastHeaderStream, frames := None, 0, [];
      maxReadSize := MAX_FRAME_SIZE;
    }

    method SetMaxReadFrameSize(v: nat)
      modifies this`maxReadSize
      ensures maxReadSize == if v > MAX_FRAME_SIZE then MAX_FRAME_SIZE else v
    {
      maxReadSize := if v > MAX_FRAME_SIZE then MAX_FRAME_SIZE else v;
    }

    // -------------------------------------------------------------- writing

    /** The frame header, with three bytes of length still to be filled in. */
    method StartWrite(ftype: Byte, flags: Byte, streamID: nat)
      modifies this`wbuf
      ensures wbuf == [0, 0, 0, ftype, flags] + Be32(streamID)
    {
      wbuf := [0, 0, 0, ftype, flags] + Be32(streamID);
    }

    /** Fills in the length and writes the frame out, unless 24 bits cannot hold the length. */
    method EndWrite(ghost ftype: Byte, ghost flags: Byte, ghost streamID: nat, ghost payload: Bytes)
      returns (err: Option<Error>)
      requires wbuf == [0, 0, 0, ftype, flags] + Be32(streamID) + payload
      modifies this`wbuf, this`w
      ensures err == if |payload| > MAX_FRAME_SIZE then Some(ErrFrameTooLarge) else None
      ensures w == if err.None? then old(w) + FrameBytes(ftype, flags, streamID, payload) else old(w)
    {
      hide Be;
      var length := |wbuf| - FRAME_HEADER_LEN;
      if length >= 0x100_0000 {
        return Some(ErrFrameTooLarge);
      }
      wbuf := Be(length, 3) + wbuf[3..];
      assert wbuf == FrameBytes(ftype, flags, streamID, payload);
      w := w + wbuf;
      return None;
    }

    /** A DATA frame goes out whole, or not at all. */
    method WriteDataPadded(streamID: nat, endStream: bool, data: Bytes, pad: Option<Bytes>) returns (err: Option<Error>)
      modifies this`wbuf, this`w
      ensures err == (if !ValidStreamID(streamID) && !allowIllegalWrites then Some(ErrStreamID)
                      else if pad.Some? && |pad.value| > 255 then Some(ErrPadLength)
                      else if pad.Some? && !allowIllegalWrites && !AllZero(pad.value) then Some(ErrPadBytes)
                      else if |DataPayload(data, pad)| > MAX_FRAME_SIZE then Some(ErrFrameTooLarge)
                      else None)
      ensures w == if err.None?
        then old(w) + FrameBytes(FRAME_DATA, DataFlags(endStream, pad.Some?), streamID, DataPayload(data, pad))
        else old(w)
    {
      hide Be, FrameBytes;
      if !ValidStreamID(streamID) && !allowIllegalWrites {
        return Some(ErrStreamID);
      }
      if pad.Some? && |pad.value| > 0 {
        if |pad.value| > 255 {
          return Some(ErrPadLength);
        }
        if !allowIllegalWrites {
          for i := 0 to |pad.value|
            invariant AllZero(pad.value[..i])
          {
            if pad.value[i] != 0 {
              return Some(ErrPadBytes);
            }
          }
          assert pad.value[..|pad.value|] == pad.value;
        }
      }
      var flags: Byte := 0;
      if endStream {
        flags := flags + END_STREAM;
      }
      if pad.Some? {
        flags := flags + PADDED;
      }
      StartWrite(FRAME_DATA, flags, streamID);
      ghost var h := wbuf;
      if pad.Some? {
        wbuf := wbuf + [|pad.value|];
      }
      wbuf := wbuf + data;
      if pad.Some? {
        wbuf := wbuf + pad.value;
      }
      assert wbuf == h + DataPayload(data, pad);
      err := EndWrite(FRAME_DATA, flags, streamID, DataPayload(data, pad));
    }

    method PutPriority(p: PriorityParam)
      modifies this`wbuf
      ensures wbuf == old(wbuf) + PriorityBytes(p)
    {
      hide Be;
      var v := p.streamDep;
      if p.exclusive {
        v := OrTop(v, true);
      }
      wbuf := wbuf + Be32(v);
      wbuf := wbuf + [p.weight];
    }

    static method CollectFlags(p: HeadersFrameParam) returns (flags: Byte)
      ensures flags == FlagsOf(p)
    {
      flags := 0;
      if p.padLength != 0 {
        flags := flags + PADDED;
      }
      if p.endStream {
        flags := flags + END_STREAM;
      }
      if p.endHeaders {
        flags := flags + END_HEADERS;
      }
      if p.priority != NO_PRIORITY {
        flags := flags + PRIORITY;
      }
    }

    method WriteHeaders(p: HeadersFrameParam) returns (err: Option<Error>)
      modifies this`wbuf, this`w
      ensures err == (if !ValidStreamID(p.streamID) && !allowIllegalWrites then Some(ErrStreamID)
                      else if p.priority != NO_PRIORITY && p.priority.streamDep >= TOP_BIT && !allowIllegalWrites
                      then Some(ErrDepStreamID)
                      else if |HeadersPayload(p)| > MAX_FRAME_SIZE then Some(ErrFrameTooLarge)
                      else None)
      ensures w == if err.None?
        then old(w) + FrameBytes(FRAME_HEADERS, FlagsOf(p), p.streamID, HeadersPayload(p))
        else old(w)
    {
      hide Be, FrameBytes, FlagsOf, Zeroes, PriorityBytes;
      if !ValidStreamID(p.streamID) && !allowIllegalWrites {
        return Some(ErrStreamID);
      }
      var flags := CollectFlags(p);
      StartWrite(FRAME_HEADERS, flags, p.streamID);
      ghost var h := wbuf;
      if p.padLength != 0 {
        wbuf := wbuf + [p.padLength];
      }
      if p.priority != NO_PRIORITY {
        if p.priority.streamDep >= TOP_BIT && !allowIllegalWrites {
          return Some(ErrDepStreamID);
        }
        PutPriority(p.priority);
      }
      wbuf := wbuf + p.fragment;
      wbuf := wbuf + Zeroes(p.padLength);
      assert wbuf == h + HeadersPayload(p);
      err := EndWrite(FRAME_HEADERS, flags, p.streamID, HeadersPayload(p));
    }

    method WritePriority(streamID: nat, p: PriorityParam) returns (err: Option<Error>)
      modifies this`wbuf, this`w
      ensures err == (if !ValidStreamID(streamID) && !allowIllegalWrites then Some(ErrStreamID)
                      else if p.streamDep >= TOP_BIT then Some(ErrDepStreamID) else None)
      ensures w == if err.None? then old(w) + FrameBytes(FRAME_PRIORITY, 0, streamID, PriorityBytes(p)) else old(w)
    {
      hide Be, FrameBytes;
      if !ValidStreamID(streamID) && !allowIllegalWrites {
        return Some(ErrStreamID);
      }
      if p.streamDep >= TOP_BIT {
        return Some(ErrDepStreamID);
      }
      StartWrite(FRAME_PRIORITY, 0, streamID);
      PutPriority(p);
      err := EndWrite(FRAME_PRIORITY, 0, streamID, PriorityBytes(p));
    }

    method WriteSettings(settings: seq<Setting>) returns (err: Option<Error>)
      modifies this`wbuf, this`w
      ensures err == if 6 * |settings| > MAX_FRAME_SIZE then Some(ErrFrameTooLarge) else None
      ensures w == if err.None? then old(w) + FrameBytes(FRAME_SETTINGS, 0, 0, SettingsPayload(settings)) else old(w)
    {
      hide Be, FrameBytes;
      StartWrite(FRAME_SETTINGS, 0, 0);
      ghost var h := wbuf;
      for i := 0 to |settings|
        invariant wbuf == h + SettingsPayload(settings[..i]) && w == old(w)
      {
        wbuf := wbuf + Be16(settings[i].id);
        wbuf := wbuf + Be32(settings[i].val);
        assert settings[..i + 1][..i] == settings[..i];
      }
      assert settings[..|settings|] == settings;
      err := EndWrite(FRAME_SETTINGS, 0, 0, SettingsPayload(settings));
    }

    method WriteSettingsAck() returns (err: Option<Error>)
      modifies this`wbuf, this`w
      ensures err == None && w == old(w) + FrameBytes(FRAME_SETTINGS, ACK, 0, [])
    {
      hide Be, FrameBytes;
      StartWrite(FRAME_SETTINGS, ACK, 0);
      assert wbuf == wbuf + [];
      err := EndWrite(FRAME_SETTINGS, ACK, 0, []);
    }

    method WriteContinuation(streamID: nat, endHeaders: bool, fragment: Bytes) returns (err: Option<Error>)
      modifies this`wbuf, this`w
      ensures err == (if !ValidStreamID(streamID) && !allowIllegalWrites then Some(ErrStreamID)
                      else if |fragment| > MAX_FRAME_SIZE then Some(ErrFrameTooLarge) else None)
      ensures w == if err.None?
        then old(w) + FrameBytes(FRAME_CONTINUATION, HeadersFlags(false, false, endHeaders, false), streamID, fragment)
        else old(w)
    {
      hide Be, FrameBytes;
      if !ValidStreamID(streamID) && !allowIllegalWrites {
        return Some(ErrStreamID);
      }
      var flags: Byte := 0;
      if endHeaders {
        flags := flags + END_HEADERS;
      }
      StartWrite(FRAME_CONTINUATION, flags, streamID);
      wbuf := wbuf + fragment;
      err := EndWrite(FRAME_CONTINUATION, flags, streamID, fragment);
    }

    method WritePushPromise(p: PushPromiseParam) returns (err: Option<Error>)
      modifies this`wbuf, this`w
      ensures err == (if (!ValidStreamID(p.streamID) || !ValidStreamID(p.promiseID)) && !allowIllegalWrites
                      then Some(ErrStreamID)
                      else if |PushPromisePayload(p)| > MAX_FRAME_SIZE then Some(ErrFrameTooLarge) else None)
      ensures w == if err.None?
        then old(w) + FrameBytes(FRAME_PUSH_PROMISE, HeadersFlags(p.padLength != 0, false, p.endHeaders, false),
                                 p.streamID, PushPromisePayload(p))
        else old(w)
    {
      hide Be, FrameBytes;
      if !ValidStreamID(p.streamID) && !allowIllegalWrites {
        return Some(ErrStreamID);
      }
      var flags: Byte := 0;
      if p.padLength != 0 {
        flags := flags + PADDED;
      }
      if p.endHeaders {
        flags := flags + END_HEADERS;
      }
      StartWrite(FRAME_PUSH_PROMISE, flags, p.streamID);
      ghost var h := wbuf;
      if p.padLength != 0 {
        wbuf := wbuf + [p.padLength];
      }
      if !ValidStreamID(p.promiseID) && !allowIllegalWrites {
        return Some(ErrStreamID);
      }
      wbuf := wbuf + Be32(p.promiseID);
      wbuf := wbuf + p.fragment;
      wbuf := wbuf + Zeroes(p.padLength);
      assert wbuf == h + PushPromisePayload(p);
      err := EndWrite(FRAME_PUSH_PROMISE, flags, p.streamID, PushPromisePayload(p));
    }

    // -------------------------------------------------------------- reading

    /** The value of the first setting for id. */
    static method Value(p: Bytes, id: nat) returns (v: nat, ok: bool)
      ensures (v, ok) == FirstValue(p, id, 0)
    {
      var i := 0;
      while i < |p| / 6
        invariant 0 <= i <= |p| / 6 && FirstValue(p, id, 0) == FirstValue(p, id, i)
      {
        var s := SettingAt(p, i);
        if s.id == id {
          return s.val, true;
        }
        i := i + 1;
      }
      return 0, false;
    }

    static method ParseSettingsFrame(fh: FrameHeader, p: Bytes) returns (f: Result<Frame>)
      ensures f == ParseSettings(fh, p)
    {
      hide SettingAt, FirstValue;
      if Has(fh.flags, ACK) && fh.length > 0 {
        return Err(ConnError(FRAME_SIZE_ERROR));
      }
      if fh.stream != 0 {
        return Err(ConnError(PROTOCOL_ERROR));
      }
      if |p| % 6 != 0 {
        return Err(ConnError(FRAME_SIZE_ERROR));
      }
      var v, ok := Value(p, INITIAL_WINDOW_SIZE);
      return if ok && v > TOP_BIT - 1 then Err(ConnError(FLOW_CONTROL_ERROR)) else Ok(SettingsFrame(fh, p));
    }

    /** Takes n bytes off the input. */
    method Fill(n: nat) returns (b: Result<Bytes>)
      modifies this`r
      ensures (b, r) == ReadFull(old(r), n)
    {
      b, r := ReadFull(r, n).0, ReadFull(r, n).1;
    }

    /** Refuses a frame that breaks into a header block, or continues one that is not open. */
    method CheckFrameOrder(f: Frame) returns (err: Option<Error>)
      requires !allowIllegalReads && lastHeaderStream != 0 ==> lastFrame.Some?
      modifies this`lastFrame, this`lastHeaderStream
      ensures lastFrame == Some(f)
      ensures err ==
              if allowIllegalReads || NextOrder(old(lastHeaderStream), f.h).Some? then None
              else Some(ConnError(PROTOCOL_ERROR))
      ensures lastHeaderStream ==
              if allowIllegalReads || err.Some? then old(lastHeaderStream)
              else NextOrder(old(lastHeaderStream), f.h).value
    {
      var last := lastFrame;
      lastFrame := Some(f);
      if allowIllegalReads {
        return None;
      }
      var fh := f.h;
      if lastHeaderStream != 0 {
        if fh.ftype != FRAME_CONTINUATION {
          assert last.Some?;
          return Some(ConnError(PROTOCOL_ERROR));
        }
        if fh.stream != lastHeaderStream {
          return Some(ConnError(PROTOCOL_ERROR));
        }
      } else if fh.ftype == FRAME_CONTINUATION {
        return Some(ConnError(PROTOCOL_ERROR));
      }
      if fh.ftype == FRAME_HEADERS || fh.ftype == FRAME_CONTINUATION {
        if Has(fh.flags, END_HEADERS) {
          lastHeaderStream := 0;
        } else {
          lastHeaderStream := fh.stream;
        }
      }
      return None;
    }

    /**
     Reads one frame and checks its order. Whatever comes in, the frames returned so far stay an
     accepted sequence; a refused frame is dropped and changes nothing about that.
    */
    method ReadFrame() returns (res: Result<Frame>)
      requires Valid()
      modifies this`r, this`lastFrame, this`lastHeaderStream, this`frames
      ensures Valid()
      ensures r == ReadOne(maxReadSize, old(r)).1
      ensures var one := ReadOne(maxReadSize, old(r)).0;
              res == if one.Err? || allowIllegalReads || NextOrder(old(lastHeaderStream), one.value.h).Some? then one
                     else Err(ConnError(PROTOCOL_ERROR))
      ensures frames == if res.Ok? then old(frames) + [res.value] else old(frames)
    {
      hide Parsed, ParseSettings, HeaderOf, NextOrder, StreamsNamed, Run, HeadersOf;
      var hb := Fill(FRAME_HEADER_LEN);
      if hb.Err? {
        return Err(hb.error);
      }
      var fh := HeaderOf(hb.value);
      if fh.length > maxReadSize {
        return Err(ErrFrameTooLarge);
      }
      var payload := Fill(fh.length);
      if payload.Err? {
        return Err(payload.error);
      }
      res := Parse(fh, payload.value);
      if res.Err? {
        return;
      }
      var f := res.value;
      var err := CheckFrameOrder(f);
      if err.Some? {
        return Err(err.value);
      }
      frames := frames + [f];
      ParsedHeader(fh, payload.value);
      OneMoreFrame(old(frames), f);
    }

    /** Runs the parser for the frame's type. */
    static method Parse(fh: FrameHeader, p: Bytes) returns (f: Result<Frame>)
      ensures f == Parsed(fh, p)
    {
      hide ParseSettings, ParseData, ParseHeaders, ParsePriority, ParsePushPromise;
      if fh.ftype == FRAME_SETTINGS {
        f := ParseSettingsFrame(fh, p);
      } else {
        f := Parsed(fh, p);
      }
    }
  }

  lemma OneMoreFrame(fs: seq<Frame>, f: Frame)
    ensures HeadersOf(fs + [f]) == HeadersOf(fs) + [f.h]
    ensures Run(HeadersOf(fs)).Some? ==> Run(HeadersOf(fs + [f])) == NextOrder(Run(HeadersOf(fs)).value, f.h)
    ensures StreamsNamed(HeadersOf(fs))
            && (f.h.ftype == FRAME_HEADERS || f.h.ftype == FRAME_CONTINUATION ==> f.h.stream != 0)
            ==> StreamsNamed(HeadersOf(fs + [f]))
  {
    hide NextOrder;
    assert (fs + [f])[..|fs|] == fs;
    assert (HeadersOf(fs) + [f.h])[..|fs|] == HeadersOf(fs);
  }

  /** What a framer has returned splits into single frames and header blocks. */
  lemma ReturnedFramesSplit(fr: Framer)
    requires fr.Valid() && !fr.allowIllegalReads
    ensures exists bs, tail ::
              && Split(bs, tail) && HeadersOf(fr.frames) == Concat(bs) + tail
              && fr.lastHeaderStream == OpenStream(tail)
  {
    var bs, tail := AcceptedSplits(HeadersOf(fr.frames));
    assert Split(bs, tail) && HeadersOf(fr.frames) == Concat(bs) + tail;
  }
}
