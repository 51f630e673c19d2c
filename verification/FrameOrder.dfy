/**
 Header block order (section 6.10 of RFC 7540): which sequences of frames the reader lets through.
*/
module FrameOrder {
  import opened Frames
  import opened Options

  /** The new `lastHeaderStream` once the frame is let through, or None if it is refused. */
  function NextOrder(last: nat, fh: FrameHeader): Option<nat> {
    if last != 0 && (fh.ftype != FRAME_CONTINUATION || fh.stream != last) then None
    else if last == 0 && fh.ftype == FRAME_CONTINUATION then None
    else if fh.ftype == FRAME_HEADERS || fh.ftype == FRAME_CONTINUATION then
      Some(if Has(fh.flags, END_HEADERS) then 0 else fh.stream)
    else Some(last)
  }

  /** `lastHeaderStream` after all of hs has been let through. */
  function Run(hs: seq<FrameHeader>): Option<nat> {
    if |hs| == 0 then Some(0)
    else match Run(hs[..|hs| - 1])
      case None => None
      case Some(last) => NextOrder(last, hs[|hs| - 1])
  }

  /** What the parsers guarantee of a frame: header block frames name a stream. */
  predicate StreamsNamed(hs: seq<FrameHeader>) {
    forall h | h in hs :: h.ftype == FRAME_HEADERS || h.ftype == FRAME_CONTINUATION ==> h.stream != 0
  }

  /** HEADERS CONTINUATION* on one stream; END_HEADERS on the last frame if the block is ended, and nowhere else. */
  predicate HeaderBlock(b: seq<FrameHeader>, ended: bool) {
    && |b| > 0 && b[0].ftype == FRAME_HEADERS && b[0].stream != 0
    && (forall i | 0 < i < |b| :: b[i].ftype == FRAME_CONTINUATION && b[i].stream == b[0].stream)
    && forall i | 0 <= i < |b| :: Has(b[i].flags, END_HEADERS) <==> ended && i == |b| - 1
  }

  /** A frame that belongs to no header block, or a whole header block. */
  predicate Unit(b: seq<FrameHeader>) {
    (|b| == 1 && b[0].ftype != FRAME_HEADERS && b[0].ftype != FRAME_CONTINUATION) || HeaderBlock(b, true)
  }

  function Concat(bs: seq<seq<FrameHeader>>): seq<FrameHeader> {
    if |bs| == 0 then [] else Concat(bs[..|bs| - 1]) + bs[|bs| - 1]
  }

  /** Whole units, then possibly a block that has not ended. */
  predicate Split(bs: seq<seq<FrameHeader>>, tail: seq<FrameHeader>) {
    (forall b | b in bs :: Unit(b)) && (tail == [] || HeaderBlock(tail, false))
  }

  function OpenStream(tail: seq<FrameHeader>): nat { if tail == [] then 0 else tail[0].stream }

  /** One more frame completes a unit or leaves a block open. */
  lemma GrowTail(tail: seq<FrameHeader>, h: FrameHeader)
    requires tail == [] || HeaderBlock(tail, false)
    requires h.ftype == FRAME_HEADERS || h.ftype == FRAME_CONTINUATION ==> h.stream != 0
    requires NextOrder(OpenStream(tail), h).Some?
    ensures Unit(tail + [h]) || HeaderBlock(tail + [h], false)
    ensures NextOrder(OpenStream(tail), h).value == if Unit(tail + [h]) then 0 else OpenStream(tail + [h])
  {
    hide Has;
    var b := tail + [h];
    if h.ftype == FRAME_HEADERS || h.ftype == FRAME_CONTINUATION {
      var ended := Has(h.flags, END_HEADERS);
      assert HeaderBlock(b, ended);
      assert !ended ==> !Has(b[|b| - 1].flags, END_HEADERS);
    }
  }

  lemma Grow(bs: seq<seq<FrameHeader>>, tail: seq<FrameHeader>, h: FrameHeader)
    returns (bs': seq<seq<FrameHeader>>, tail': seq<FrameHeader>)
    requires Split(bs, tail) && NextOrder(OpenStream(tail), h).Some?
    requires h.ftype == FRAME_HEADERS || h.ftype == FRAME_CONTINUATION ==> h.stream != 0
    ensures Split(bs', tail') && Concat(bs') + tail' == Concat(bs) + (tail + [h])
    ensures NextOrder(OpenStream(tail), h) == Some(OpenStream(tail'))
  {
    hide NextOrder, HeaderBlock, Unit;
    GrowTail(tail, h);
    if Unit(tail + [h]) {
      bs', tail' := bs + [tail + [h]], [];
      assert bs'[..|bs|] == bs;
    } else {
      bs', tail' := bs, tail + [h];
    }
  }

  /** Every accepted sequence splits. */
  lemma {:induction false} AcceptedSplits(hs: seq<FrameHeader>)
    returns (bs: seq<seq<FrameHeader>>, tail: seq<FrameHeader>)
    requires StreamsNamed(hs) && Run(hs).Some?
    ensures Split(bs, tail) && hs == Concat(bs) + tail && Run(hs) == Some(OpenStream(tail))
  {
    hide NextOrder, HeaderBlock, Unit, Concat, Split;
    if |hs| == 0 {
      NothingSplits();
      return [], [];
    }
    var init, h := hs[..|hs| - 1], hs[|hs| - 1];
    bs, tail := AcceptedSplits(init);
    assert hs == Concat(bs) + (tail + [h]);
    bs, tail := Grow(bs, tail, h);
  }

  lemma NothingSplits()
    ensures Split([], []) && Concat([]) == []
  {
  }

  /** Frames of a block that are let through one after another. */
  lemma {:induction false} BlockAccepted(hs: seq<FrameHeader>, b: seq<FrameHeader>, ended: bool)
    requires Run(hs) == Some(0) && HeaderBlock(b, ended)
    ensures Run(hs + b) == Some(if ended then 0 else b[0].stream)
  {
    var init := b[..|b| - 1];
    assert (hs + b)[..|hs + b| - 1] == hs + init;
    if |b| > 1 {
      BlockAccepted(hs, init, false);
    } else {
      assert hs + init == hs;
    }
  }

  lemma {:induction false} SplitAccepted(bs: seq<seq<FrameHeader>>, tail: seq<FrameHeader>)
    requires Split(bs, tail)
    ensures Run(Concat(bs) + tail) == Some(OpenStream(tail))
    decreases |bs|, |tail|
  {
    if tail != [] {
      SplitAccepted(bs, []);
      assert Concat(bs) + [] == Concat(bs);
      BlockAccepted(Concat(bs), tail, false);
    } else if |bs| > 0 {
      var init, b := bs[..|bs| - 1], bs[|bs| - 1];
      assert b in bs && Unit(b);
      SplitAccepted(init, []);
      assert Concat(init) + [] == Concat(init);
      assert Concat(bs) + [] == Concat(init) + b;
      if HeaderBlock(b, true) {
        BlockAccepted(Concat(init), b, true);
      } else {
        assert (Concat(init) + b)[..|Concat(init) + b| - 1] == Concat(init);
      }
    }
  }

  /**
   A sequence of parsed frames is let through exactly when it splits into single frames and header
   blocks, the last block possibly unfinished. PUSH_PROMISE counts as a single frame.
  */
  lemma OrderExact(hs: seq<FrameHeader>)
    requires StreamsNamed(hs)
    ensures Run(hs).Some? <==> exists bs, tail :: Split(bs, tail) && hs == Concat(bs) + tail
  {
    if Run(hs).Some? {
      var bs, tail := AcceptedSplits(hs);
    }
    forall bs, tail | Split(bs, tail) && hs == Concat(bs) + tail ensures Run(hs).Some? {
      SplitAccepted(bs, tail);
    }
  }

  /**
   Without the parsers' refusal of stream 0 the order check alone would accept a header block that
   is broken off: this sequence passes and does not split.
  */
  lemma StreamZeroSlipsThrough(length: nat)
    ensures var hs := [FrameHeader(length, FRAME_HEADERS, 0, 0), FrameHeader(length, FRAME_DATA, 0, 1)];
            Run(hs) == Some(0) && !exists bs, tail :: Split(bs, tail) && hs == Concat(bs) + tail
  {
    var hs := [FrameHeader(length, FRAME_HEADERS, 0, 0), FrameHeader(length, FRAME_DATA, 0, 1)];
    assert hs[..1] == [hs[0]] && hs[..1][..0] == [];
    assert Run(hs[..1]) == NextOrder(0, hs[0]);
    forall bs, tail | Split(bs, tail) && hs == Concat(bs) + tail ensures false {
      FirstNamed(bs, tail);
    }
  }

  /** What splits and starts with HEADERS names a stream there. */
  lemma {:induction false} FirstNamed(bs: seq<seq<FrameHeader>>, tail: seq<FrameHeader>)
    requires Split(bs, tail) && Concat(bs) + tail != []
    ensures (Concat(bs) + tail)[0].ftype == FRAME_HEADERS ==> (Concat(bs) + tail)[0].stream != 0
  {
    if |bs| > 0 {
      var init, b := bs[..|bs| - 1], bs[|bs| - 1];
      assert b in bs && Unit(b);
      if Concat(init) != [] {
        FirstNamed(init, []);
        assert Concat(init) + [] == Concat(init);
      }
    }
  }
}
