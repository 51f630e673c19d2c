/**
 The channel core: a ring buffer and two linked queues of parked goroutines. Every method is one
 section run under the channel lock.
*/
module Channel {

  /** A parked goroutine. `val` is the memory its elem pointer points to, `hasElem` whether it is non-nil. */
  class Sudog<T> {
    var next: Sudog?<T>
    var prev: Sudog?<T>
    var hasElem: bool
    var val: T
    var success: bool

    constructor (hasElem: bool, val: T)
      ensures this.hasElem == hasElem && this.val == val && next == null && prev == null && !success
    {
      this.hasElem, this.val := hasElem, val;
      next, prev, success := null, null, false;
    }
  }

  /** What entry i of a list links to. */
  ghost function After<T>(q: seq<Sudog<T>>, i: int): Sudog?<T> { if 0 <= i + 1 < |q| then q[i + 1] else null }

  ghost function Before<T>(q: seq<Sudog<T>>, i: int): Sudog?<T> { if 0 <= i - 1 < |q| then q[i - 1] else null }

  class WaitQ<T> {
    var first: Sudog?<T>
    var last: Sudog?<T>
    ghost var q: seq<Sudog<T>>

    /** The list from `first` to `last` is q, linked both ways. */
    ghost predicate Valid()
      reads this, q`next, q`prev
    {
      && first == After(q, -1) && last == Before(q, |q|)
      && (forall i | 0 <= i < |q| :: q[i].next == After(q, i) && q[i].prev == Before(q, i))
      && forall i, j | 0 <= i < |q| && 0 <= j < |q| && i != j :: q[i] != q[j]
    }

    lemma Entries()
      requires Valid()
      ensures Distinct(q)
    {
    }

    constructor ()
      ensures Valid() && q == []
    {
      first, last := null, null;
      q := [];
    }

    /** Appends to the list. */
    method Enqueue(sg: Sudog<T>)
      requires Valid() && sg !in q
      modifies this, q`next, sg`next, sg`prev
      ensures Valid() && q == old(q) + [sg]
    {
      ghost var q0 := q;
      sg.next := null;
      var x := last;
      if x == null {
        sg.prev := null;
        first, last := sg, sg;
        assert q0 == [];
        q := [sg];
      } else {
        sg.prev := x;
        x.next := sg;
        last := sg;
        q := q + [sg];
        forall i | 0 <= i < |q0| ensures q[i].next == After(q, i) && q[i].prev == Before(q, i) {
          assert q0[i] != sg;
          assert i != |q0| - 1 ==> q0[i] != x;
        }
      }
    }

    /** Takes the front of the list, or nil. */
    method Dequeue() returns (sg: Sudog?<T>)
      requires Valid()
      modifies this, q`next, q`prev
      ensures Valid()
      ensures if old(q) == [] then sg == null && q == [] else sg == old(q)[0] && q == old(q)[1..]
    {
      ghost var q0 := q;
      sg := first;
      if sg == null {
        return;
      }
      var y := sg.next;
      assert y == After(q0, 0);
      if y == null {
        first, last := null, null;
      } else {
        y.prev := null;
        first := y;
        sg.next := null;
      }
      q := q[1..];
      forall i | 0 <= i < |q| ensures q[i].next == After(q, i) && q[i].prev == Before(q, i) {
        assert q[i] == q0[i + 1] != sg;
        assert i != 0 ==> q0[i + 1] != q0[1];
      }
    }
  }

  /** The values parked senders hold, front of the queue first. */
  function Vals<T>(q: seq<Sudog<T>>): (r: seq<T>)
    reads q`val
    ensures |r| == |q| && forall i | 0 <= i < |q| :: r[i] == q[i].val
  {
    if |q| == 0 then [] else [q[0].val] + Vals(q[1..])
  }

  lemma DropFirst<T>(q: seq<Sudog<T>>)
    requires q != []
    ensures Vals(q) == [q[0].val] + Vals(q[1..])
  {
  }

  /** Which entries of a queue have somewhere to put, or to take, a value. */
  function Wants<T>(q: seq<Sudog<T>>): (r: seq<bool>)
    reads q`hasElem
    ensures |r| == |q| && forall i | 0 <= i < |q| :: r[i] == q[i].hasElem
  {
    if |q| == 0 then [] else [q[0].hasElem] + Wants(q[1..])
  }

  predicate Distinct<X(==)>(q: seq<X>) { forall i, j | 0 <= i < j < |q| :: q[i] != q[j] }

  /** A position that is less than two turns around a ring of n slots. */
  function Wrapped(i: nat, n: nat): nat { if i < n then i else i - n }

  lemma WrappedIsModulo(i: nat, n: nat)
    requires i < 2 * n
    ensures Wrapped(i, n) == i % n
  {
  }

  /** The n slots from h on, around the end. */
  function Ring<T>(slots: seq<T>, h: nat, n: nat): (r: seq<T>)
    requires n <= |slots| && (h < |slots| || n == 0)
    ensures |r| == n && forall i | 0 <= i < n :: r[i] == slots[Wrapped(h + i, |slots|)]
  {
    seq(n, i requires 0 <= i < n => slots[Wrapped(h + i, |slots|)])
  }

  /** Clearing the oldest slot takes the oldest value out. */
  lemma RingDrop<T>(slots: seq<T>, h: nat, n: nat, z: T)
    requires h < |slots| && 0 < n <= |slots|
    ensures Ring(slots, h, n) == [slots[h]] + Ring(slots[h := z], Wrapped(h + 1, |slots|), n - 1)
  {
    hide Ring;
    var rest := Ring(slots[h := z], Wrapped(h + 1, |slots|), n - 1);
    forall i | 0 <= i < n - 1 ensures rest[i] == Ring(slots, h, n)[i + 1] {
      assert Wrapped(Wrapped(h + 1, |slots|) + i, |slots|) == Wrapped(h + (i + 1), |slots|) != h;
    }
    assert Ring(slots, h, n)[0] == slots[h];
  }

  /** Filling the slot behind the newest value puts x in last. */
  lemma RingAdd<T>(slots: seq<T>, h: nat, n: nat, x: T)
    requires h < |slots| && n < |slots|
    ensures Ring(slots[Wrapped(h + n, |slots|) := x], h, n + 1) == Ring(slots, h, n) + [x]
  {
    hide Ring;
    forall i | 0 <= i < n ensures Ring(slots[Wrapped(h + n, |slots|) := x], h, n + 1)[i] == Ring(slots, h, n)[i] {
      assert Wrapped(h + i, |slots|) != Wrapped(h + n, |slots|);
    }
  }

  /** Overwriting the oldest slot of a full ring takes the oldest value out and puts x in last. */
  lemma RingSwap<T>(slots: seq<T>, h: nat, x: T)
    requires h < |slots|
    ensures var n := |slots|;
            Ring(slots, h, n) + [x] == [slots[h]] + Ring(slots[h := x], Wrapped(h + 1, n), n)
  {
    hide Ring, Wrapped;
    var n, h' := |slots|, Wrapped(h + 1, |slots|);
    RingDrop(slots, h, n, x);
    WrappedTwice(h, n);
    RingAdd(slots[h := x], h', n - 1, x);
    assert slots[h := x][h := x] == slots[h := x];
  }

  lemma WrappedTwice(h: nat, n: nat)
    requires h < n
    ensures Wrapped(h + 1, n) < n && Wrapped(Wrapped(h + 1, n) + (n - 1), n) == h
  {
  }

  datatype SendOutcome = HandedOff | Queued | SendParked | SendWouldBlock | PanicClosed
  datatype RecvOutcome<T> = Got(v: T) | GotZero | RecvParked | RecvWouldBlock

  // ---------------------------------------------------------------- what unlocked reads can tell

  datatype View = View(cap: nat, qcount: nat, receivers: nat, senders: nat, closed: bool)

  predicate Legal(v: View) {
    && v.qcount <= v.cap
    && (v.senders > 0 ==> v.qcount == v.cap) && (v.receivers > 0 ==> v.qcount == 0)
    && (v.senders == 0 || v.receivers == 0)
    && (v.closed ==> v.senders == 0 && v.receivers == 0)
  }

  predicate NotReadyToSend(v: View) { if v.cap == 0 then v.receivers == 0 else v.qcount == v.cap }

  predicate NotReadyToReceive(v: View) { if v.cap == 0 then v.senders == 0 else v.qcount == 0 }

  /** What one section under the lock can do. */
  predicate Move(a: View, b: View) {
    || b == a
    || (!a.closed && a.receivers > 0 && b == a.(receivers := a.receivers - 1))
    || (!a.closed && a.receivers == 0 && a.qcount < a.cap && b == a.(qcount := a.qcount + 1))
    || (!a.closed && a.receivers == 0 && a.qcount == a.cap && b == a.(senders := a.senders + 1))
    || (!a.closed && a.senders > 0 && b == a.(senders := a.senders - 1))
    || (a.senders == 0 && a.qcount > 0 && b == a.(qcount := a.qcount - 1))
    || (!a.closed && a.senders == 0 && a.qcount == 0 && b == a.(receivers := a.receivers + 1))
    || (!a.closed && b == a.(closed := true, senders := 0, receivers := 0))
  }

  /** The views between the first unlocked read and the last one. */
  ghost predicate Chain(vs: seq<View>) {
    && |vs| > 0 && (forall v | v in vs :: Legal(v))
    && forall i | 0 <= i < |vs| - 1 :: Move(vs[i], vs[i + 1])
  }

  /** A closed channel stays closed, its capacity stays, and once closed it holds no more than before. */
  lemma {:induction false} ChainEnd(vs: seq<View>, i: nat)
    requires Chain(vs) && i < |vs|
    ensures var last := vs[|vs| - 1];
            last.cap == vs[i].cap && (vs[i].closed ==> last.closed && last.qcount <= vs[i].qcount)
    decreases |vs| - i
  {
    if i < |vs| - 1 {
      assert Move(vs[i], vs[i + 1]);
      ChainEnd(vs, i + 1);
    }
  }

  /** Where a channel that was open at first and is closed in the end was closed. */
  lemma {:induction false} ClosingStep(vs: seq<View>) returns (j: nat)
    requires Chain(vs) && !vs[0].closed && vs[|vs| - 1].closed
    ensures j < |vs| - 1 && !vs[j].closed && vs[j + 1].closed && vs[j + 1].qcount == vs[j].qcount
  {
    j := 0;
    while !vs[j + 1].closed
      invariant j < |vs| - 1 && !vs[j].closed
      decreases |vs| - j
    {
      j := j + 1;
    }
    assert Move(vs[j], vs[j + 1]);
  }

  /** At some moment the channel was both open and not ready for sending. */
  ghost predicate BlockedOnce(vs: seq<View>) { exists i | 0 <= i < |vs| :: !vs[i].closed && NotReadyToSend(vs[i]) }

  /** The channel went from view a, at the first unlocked read, to view b, at the last one. */
  ghost predicate From(a: View, b: View, vs: seq<View>) { Chain(vs) && vs[0] == a && vs[|vs| - 1] == b }

  /**
   A non-blocking send that reads "open" in a and "not ready" in b gives up without the lock. The
   comment in the code says that at some moment in between the channel was both. Whatever happened in
   between, that is so if and only if the channel has a buffer, or is still open, or had no receiver
   waiting; so one more look at `closed` would settle it.
  */
  lemma FastSend(a: View, b: View, some: seq<View>)
    requires From(a, b, some) && !a.closed && NotReadyToSend(b)
    ensures (forall vs | From(a, b, vs) :: BlockedOnce(vs)) <==> a.cap > 0 || !b.closed || a.receivers == 0
  {
    if a.cap > 0 || !b.closed || a.receivers == 0 {
      forall vs | From(a, b, vs) ensures BlockedOnce(vs) {
        SeenBlocked(vs);
      }
    } else {
      ChainEnd(some, 0);
      assert a in some && b in some;
      assert b == a.(closed := true, senders := 0, receivers := 0);
      assert From(a, b, [a, b]) && !BlockedOnce([a, b]);
    }
  }

  lemma SeenBlocked(vs: seq<View>)
    requires Chain(vs) && !vs[0].closed && NotReadyToSend(vs[|vs| - 1])
    requires vs[0].cap > 0 || !vs[|vs| - 1].closed || vs[0].receivers == 0
    ensures BlockedOnce(vs)
  {
    var last := vs[|vs| - 1];
    ChainEnd(vs, 0);
    if !last.closed {
      assert NotReadyToSend(vs[|vs| - 1]);
    } else if vs[0].cap == 0 {
      assert NotReadyToSend(vs[0]);
    } else {
      var j := ClosingStep(vs);
      ChainEnd(vs, j);
      ChainEnd(vs, j + 1);
      assert vs[j] in vs && NotReadyToSend(vs[j]);
    }
  }

  /** The closing of an unbuffered channel with one receiver waiting: open and ready, then closed and not ready. */
  lemma FastSendMisled()
    ensures
      var vs := [View(0, 0, 1, 0, false), View(0, 0, 0, 0, true)];
      Chain(vs) && !vs[0].closed && NotReadyToSend(vs[1]) && !BlockedOnce(vs)
  {
  }

  /**
   A non-blocking receive reads "not ready" first and then "open", and gives up: it was both at the
   first read. If it reads "closed", reading "not ready" once more means closed and drained for good.
  */
  lemma FastRecv(vs: seq<View>, j: nat, k: nat)
    requires Chain(vs) && j <= k < |vs| && NotReadyToReceive(vs[0])
    ensures !vs[j].closed ==> !vs[0].closed
    ensures vs[j].closed && NotReadyToReceive(vs[k]) ==>
              forall i | k <= i < |vs| :: vs[i].closed && vs[i].qcount == 0
  {
    ChainPart(vs, 0, j);
    if vs[j].closed && NotReadyToReceive(vs[k]) {
      ChainPart(vs, j, k);
      forall i | k <= i < |vs| ensures vs[i].closed && vs[i].qcount == 0 {
        ChainPart(vs, k, i);
        assert vs[k] in vs && Legal(vs[k]);
      }
    }
  }

  lemma ChainPart(vs: seq<View>, i: nat, j: nat)
    requires Chain(vs) && i <= j < |vs|
    ensures vs[j].cap == vs[i].cap && (vs[i].closed ==> vs[j].closed && vs[j].qcount <= vs[i].qcount)
  {
    var part := vs[..j + 1];
    forall k | 0 <= k < |part| - 1 ensures Move(part[k], part[k + 1]) {
      assert Move(vs[k], vs[k + 1]);
    }
    ChainEnd(part, i);
  }

  class HChan<T> {
    const dataqsiz: nat
    const buf: array<T>
    const recvq: WaitQ<T>
    const sendq: WaitQ<T>
    const zero: T
    var qcount: nat
    var sendx: nat
    var recvx: nat
    var closed: bool

    ghost var sent: seq<T>          // values accepted from senders, parked ones included
    ghost var received: seq<T>      // values handed to receivers
    ghost var lost: seq<T>          // values of senders that were parked when the channel closed

    /** Ring-buffer indices are consistent: sendx = recvx + qcount mod dataqsiz. */
    ghost predicate RingOk()
      reads this`qcount, this`recvx, this`sendx
    {
      && buf.Length == dataqsiz && qcount <= dataqsiz
      && (if dataqsiz == 0 then recvx == sendx == 0
          else recvx < dataqsiz && sendx < dataqsiz && sendx == Wrapped(recvx + qcount, dataqsiz))
    }

    /** The buffered values, oldest first. */
    ghost function Buffered(): (r: seq<T>)
      requires RingOk()
      reads this`qcount, this`recvx, this`sendx, buf
      ensures |r| == qcount
    {
      Ring(buf[..], recvx, qcount)
    }

    /**
     Parked senders imply a full buffer, parked receivers an empty one, and never both; nobody
     stays parked on a closed channel.
    */
    ghost predicate QueuesOk()
      reads this`qcount, this`closed, recvq, sendq
    {
      && (sendq.q != [] ==> qcount == dataqsiz)
      && (recvq.q != [] ==> qcount == 0)
      && (sendq.q == [] || recvq.q == [])
      && (closed ==> sendq.q == [] && recvq.q == [])
    }

    /** Values received, then buffered, then held by parked senders, are the values sent, in order. */
    ghost predicate InOrder()
      requires RingOk()
      reads this, buf, sendq, sendq.q
    {
      sent == received + Buffered() + if closed then lost else Vals(sendq.q)
    }

    ghost predicate Valid()
      reads this, buf, recvq, sendq, recvq.q, sendq.q
    {
      && recvq != sendq && recvq.Valid() && sendq.Valid()
      && RingOk() && QueuesOk() && InOrder()
    }

    /**
     Receivers see a prefix of what was sent, so nothing is reordered, duplicated or dropped on the
     way; on an open channel the rest is buffered or held by a parked sender, and a closed channel
     that has been drained has delivered everything but what its parked senders held.
    */
    lemma Fifo()
      requires Valid()
      ensures received <= sent
      ensures !closed ==> |sent| == |received| + qcount + |sendq.q|
      ensures !closed && qcount + |sendq.q| > 0 ==>
                sent[|received|] == (Buffered() + Vals(sendq.q))[0]
      ensures closed && qcount == 0 ==> sent == received + lost
    {
      hide WaitQ.Valid, Ring, Wrapped, Vals;
      var rest := if closed then lost else Vals(sendq.q);
      assert sent == received + (Buffered() + rest);
      assert closed && qcount == 0 ==> Buffered() + rest == lost;
    }

    constructor (size: nat, zero: T, init: T)
      ensures Valid() && dataqsiz == size && !closed && sent == received == [] && this.zero == zero
      ensures recvq.q == [] && sendq.q == [] && fresh(buf) && fresh(recvq) && fresh(sendq)
    {
      dataqsiz, this.zero := size, zero;
      buf := new T[size](_ => init);
      recvq := new WaitQ<T>();
      sendq := new WaitQ<T>();
      qcount, sendx, recvx, closed := 0, 0, 0, false;
      sent, received, lost := [], [], [];
    }

    /** What the unlocked reads can tell of the channel. */
    ghost function Seen(): View
      reads this`qcount, this`closed, recvq, sendq
    {
      View(dataqsiz, qcount, |recvq.q|, |sendq.q|, closed)
    }

    lemma SeenLegal()
      requires Valid()
      ensures Legal(Seen())
    {
    }

    /** Nobody is parked on a closed channel. */
    lemma ClosedQueues()
      requires Valid() && closed
      ensures recvq.q == [] && sendq.q == []
    {
    }

    /** Whether a send would block, as read without the lock. */
    predicate Full()
      reads this, recvq
    {
      if dataqsiz == 0 then recvq.first == null else qcount == dataqsiz
    }

    /** Whether a receive would block, as read without the lock. */
    predicate Empty()
      reads this, sendq
    {
      if dataqsiz == 0 then sendq.first == null else qcount == 0
    }

    lemma SeenReads()
      requires Valid()
      ensures Full() <==> NotReadyToSend(Seen())
      ensures Empty() <==> NotReadyToReceive(Seen())
    {
    }

    /** `sendx` is where the code says it is: recvx + qcount modulo dataqsiz. */
    lemma IndicesModulo()
      requires Valid() && dataqsiz > 0
      ensures sendx == (recvx + qcount) % dataqsiz
    {
      WrappedIsModulo(recvx + qcount, dataqsiz);
    }

    /** Puts v at the tail of the ring buffer. */
    method Store(v: T)
      requires RingOk() && qcount < dataqsiz
      modifies this`sendx, this`qcount, buf
      ensures RingOk() && qcount == old(qcount) + 1 && Buffered() == old(Buffered()) + [v]
    {
      hide Ring;
      buf[sendx] := v;
      sendx := sendx + 1;
      if sendx == dataqsiz {
        sendx := 0;
      }
      qcount := qcount + 1;
      RingAdd(old(buf[..]), recvx, old(qcount), v);
      assert buf[..] == old(buf[..])[old(sendx) := v];
    }

    /** Takes the value at the head of the ring buffer and clears its slot. */
    method TakeHead() returns (v: T)
      requires RingOk() && qcount > 0
      modifies this`recvx, this`qcount, buf
      ensures RingOk() && qcount == old(qcount) - 1 && old(Buffered()) == [v] + Buffered()
    {
      hide Ring;
      v := buf[recvx];
      buf[recvx] := zero;
      recvx := recvx + 1;
      if recvx == dataqsiz {
        recvx := 0;
      }
      qcount := qcount - 1;
      RingDrop(old(buf[..]), old(recvx), old(qcount), zero);
      assert buf[..] == old(buf[..])[old(recvx) := zero];
    }

    /** On a full buffer head and tail are one slot: the head goes out, x goes in behind all others. */
    method SwapHead(x: T) returns (v: T)
      requires RingOk() && qcount == dataqsiz > 0
      modifies this`recvx, this`sendx, buf
      ensures RingOk() && old(Buffered()) + [x] == [v] + Buffered()
    {
      hide Ring;
      v := buf[recvx];
      buf[recvx] := x;
      recvx := recvx + 1;
      if recvx == dataqsiz {
        recvx := 0;
      }
      sendx := recvx;
      RingSwap(old(buf[..]), old(recvx), x);
      assert buf[..] == old(buf[..])[old(recvx) := x];
    }

    /** Sends into the buffer; no sender is parked then. */
    method SendBuffered(v: T)
      requires Valid() && !closed && recvq.q == [] && qcount < dataqsiz
      modifies this`sendx, this`qcount, this`sent, buf
      ensures Valid() && sent == old(sent) + [v] && Buffered() == old(Buffered()) + [v]
    {
      hide WaitQ.Valid, Ring, Wrapped, After, Before;
      ghost var all := received + Buffered();
      Store(v);
      sent := sent + [v];
      assert received + Buffered() == all + [v];
      assert InOrder();
    }

    /** Receives from the buffer; no sender is parked then, for the buffer is about to have room. */
    method RecvBuffered() returns (v: T)
      requires Valid() && sendq.q == [] && qcount > 0
      modifies this`recvx, this`qcount, this`received, buf
      ensures Valid() && received == old(received) + [v]
    {
      hide WaitQ.Valid, Ring, Wrapped, After, Before;
      ghost var all := received + Buffered();
      v := TakeHead();
      received := received + [v];
      assert received + Buffered() == all;
      assert InOrder();
    }

    /**
     Sends v under the lock: to the first parked receiver, into the buffer, or by parking mysg. Only
     an open channel takes a value, and a value that was handed off overtakes nothing.
    */
    method Send(v: T, block: bool, mysg: Sudog<T>) returns (o: SendOutcome)
      requires Valid() && mysg !in recvq.q && mysg !in sendq.q
      modifies this, buf, recvq, sendq, recvq.q, sendq.q, mysg
      ensures Valid() && closed == old(closed)
      ensures o == (if old(closed) then PanicClosed
                    else if old(recvq.q) != [] then HandedOff
                    else if old(qcount) < dataqsiz then Queued
                    else if block then SendParked else SendWouldBlock)
      ensures sent == (if o.PanicClosed? || o.SendWouldBlock? then old(sent) else old(sent) + [v])
      ensures received == (if o.HandedOff? then old(received) + [v] else old(received))
      ensures o.HandedOff? ==> Completed(old(recvq.q)[0], v, old(FrontWants()))
      ensures recvq.q == (if o.HandedOff? then old(recvq.q)[1..] else old(recvq.q))
      ensures sendq.q == (if o.SendParked? then old(sendq.q) + [mysg] else old(sendq.q))
      ensures o.SendParked? ==> mysg.hasElem && mysg.val == v
      ensures Buffered() == (if o.Queued? then old(Buffered()) + [v] else old(Buffered()))
      ensures Move(old(Seen()), Seen())
    {
      if closed {
        return PanicClosed;
      }
      if recvq.first != null {
        HandOff(v);
        return HandedOff;
      }
      if qcount < dataqsiz {
        SendBuffered(v);
        return Queued;
      }
      if !block {
        return SendWouldBlock;
      }
      ParkSender(v, mysg);
      return SendParked;
    }

    /** The wait of sg has ended with v, which is stored where its elem pointer pointed, if it was not nil. */
    ghost predicate Completed(sg: Sudog<T>, v: T, wanted: bool)
      reads sg
    {
      sg.success && !sg.hasElem && (wanted ==> sg.val == v)
    }

    /** The first parked receiver keeps the value it is waiting for. */
    ghost predicate FrontWants()
      reads this, recvq, recvq.q
    {
      recvq.q != [] && recvq.q[0].hasElem
    }

    /** Passes v straight to the first parked receiver; the buffer is empty then. */
    method HandOff(v: T)
      requires Valid() && !closed && recvq.q != []
      modifies this`sent, this`received, recvq, recvq.q
      ensures Valid() && sent == old(sent) + [v] && received == old(received) + [v]
      ensures recvq.q == old(recvq.q)[1..]
      ensures Completed(old(recvq.q)[0], v, old(FrontWants()))
    {
      hide WaitQ.Valid, Ring, Wrapped, After, Before;
      var sg := recvq.Dequeue();
      if sg.hasElem {
        sg.val := v;
        sg.hasElem := false;
      }
      sg.success := true;
      sent, received := sent + [v], received + [v];
    }

    method ParkSender(v: T, mysg: Sudog<T>)
      requires Valid() && !closed && recvq.q == [] && qcount == dataqsiz && mysg !in sendq.q
      modifies this`sent, sendq, sendq.q, mysg
      ensures Valid() && sent == old(sent) + [v] && sendq.q == old(sendq.q) + [mysg] && mysg.hasElem && mysg.val == v
    {
      hide *;
      OpenUp();
      ghost var vals := Vals(sendq.q);
      mysg.hasElem, mysg.val := true, v;
      sendq.Enqueue(mysg);
      sent := sent + [v];
      assert Vals(sendq.q) == vals + [v];
      CloseUp();
    }

    /**
     Receives under the lock: from the first parked sender by way of the buffer, or from the buffer, or by parking
     mysg. Every value handed out is the oldest one not yet received, and a closed channel hands out
     what is buffered before it reports that it is closed.
    */
    method Recv(wanted: bool, block: bool, mysg: Sudog<T>) returns (o: RecvOutcome<T>)
      requires Valid() && mysg !in recvq.q && mysg !in sendq.q
      modifies this, buf, recvq, sendq, recvq.q, sendq.q, mysg
      ensures Valid() && closed == old(closed) && sent == old(sent)
      ensures o.Got? <==> old(qcount) > 0 || old(sendq.q) != []
      ensures o.GotZero? <==> old(closed) && old(qcount) == 0
      ensures o.RecvParked? ==> block && !old(closed)
      ensures o.RecvWouldBlock? ==> !block && !old(closed)
      ensures received == (if o.Got? then old(received) + [o.v] else old(received))
      ensures sendq.q == (if o.Got? && old(sendq.q) != [] then old(sendq.q)[1..] else old(sendq.q))
      ensures o.Got? && old(sendq.q) != [] ==> old(sendq.q)[0].success && !old(sendq.q)[0].hasElem
      ensures recvq.q == (if o.RecvParked? then old(recvq.q) + [mysg] else old(recvq.q))
      ensures o.RecvParked? ==> mysg.hasElem == wanted
      ensures Move(old(Seen()), Seen())
    {
      if closed {
        if qcount == 0 {
          return GotZero;
        }
      } else if sendq.first != null {
        var v := TakeOver();
        return Got(v);
      }
      if qcount > 0 {
        var v := RecvBuffered();
        return Got(v);
      }
      if !block {
        return RecvWouldBlock;
      }
      ParkReceiver(wanted, mysg);
      return RecvParked;
    }

    /** What a dequeued sender held goes in last, the oldest value comes out, and its wait is over. */
    method RecvFrom(sg: Sudog<T>) returns (v: T)
      requires RingOk() && qcount == dataqsiz
      modifies this`recvx, this`sendx, buf, sg`hasElem, sg`success
      ensures RingOk() && old(Buffered()) + [sg.val] == [v] + Buffered()
      ensures sg.success && !sg.hasElem
    {
      if dataqsiz == 0 {
        v := sg.val;
      } else {
        v := SwapHead(sg.val);
      }
      sg.hasElem := false;
      sg.success := true;
    }

    /** Receives while a sender is parked: the oldest value goes out and the sender's goes in last. */
    method TakeOver() returns (v: T)
      requires Valid() && !closed && sendq.q != []
      modifies this`received, this`recvx, this`sendx, buf, sendq, sendq.q
      ensures Valid() && received == old(received) + [v] && sendq.q == old(sendq.q)[1..]
      ensures old(sendq.q)[0].success && !old(sendq.q)[0].hasElem
    {
      hide *;
      OpenUp();
      ghost var buffered, vals := Buffered(), Vals(sendq.q);
      var sg := sendq.Dequeue();
      v := RecvFrom(sg);
      received := received + [v];
      DropFirst(old(sendq.q));
      PassedOn(old(received), buffered, vals, v, Buffered());
      CloseUp();
    }

    /** What Valid says of an open channel that takes no value without parking. */
    lemma OpenUp()
      requires Valid() && !closed && (sendq.q != [] || (recvq.q == [] && qcount == dataqsiz))
      ensures recvq.Valid() && sendq.Valid() && recvq != sendq && RingOk()
      ensures recvq.q == [] && qcount == dataqsiz
      ensures sent == received + Buffered() + Vals(sendq.q)
    {
    }

    /** With a full buffer and no parked receiver, order is all that Valid asks for. */
    lemma CloseUp()
      requires recvq.Valid() && sendq.Valid() && recvq != sendq && RingOk()
      requires !closed && recvq.q == [] && qcount == dataqsiz
      requires sent == received + Buffered() + Vals(sendq.q)
      ensures Valid()
    {
      hide WaitQ.Valid, Ring, Wrapped, After, Before;
    }

    method ParkReceiver(wanted: bool, mysg: Sudog<T>)
      requires Valid() && !closed && sendq.q == [] && qcount == 0 && mysg !in recvq.q
      modifies recvq, recvq.q, mysg
      ensures Valid() && recvq.q == old(recvq.q) + [mysg] && mysg.hasElem == wanted
    {
      hide WaitQ.Valid, Ring, Wrapped, After, Before;
      mysg.hasElem := wanted;
      recvq.Enqueue(mysg);
    }

    /**
     Closes the channel: every parked goroutine is released without success, last parked first,
     receivers that wait for a value get the zero value, and the values of parked senders are lost.
     Closing twice panics.
    */
    method Close() returns (panics: bool, glist: seq<Sudog<T>>)
      requires Valid()
      modifies this, recvq, sendq, recvq.q, sendq.q
      ensures Valid() && closed && panics == old(closed)
      ensures panics ==> glist == []
      ensures !panics ==> glist == Reversed(old(recvq.q) + old(sendq.q)) && lost == old(Vals(sendq.q))
      ensures forall sg | sg in glist :: !sg.success && !sg.hasElem
      ensures !panics ==> forall sg | sg in old(recvq.q) :: sg.val == if old(sg.hasElem) then zero else old(sg.val)
      ensures sent == old(sent) && received == old(received) && Buffered() == old(Buffered())
      ensures Move(old(Seen()), Seen())
    {
      hide WaitQ.Valid, Ring, Wrapped, After, Before, Reversed, ReleasedUpTo, Wants, Vals;
      if closed {
        return true, [];
      }
      ghost var vals := Vals(sendq.q);
      closed := true;
      panics := false;
      glist := ReleaseBoth();
      lost := vals;
    }

    /** Empties both queues, of which one is empty already, the receivers' first. */
    method ReleaseBoth() returns (glist: seq<Sudog<T>>)
      requires recvq != sendq && recvq.Valid() && sendq.Valid() && (recvq.q == [] || sendq.q == [])
      modifies recvq, sendq, recvq.q, sendq.q
      ensures recvq.Valid() && sendq.Valid() && recvq.q == [] && sendq.q == []
      ensures glist == Reversed(old(recvq.q) + old(sendq.q))
      ensures forall sg | sg in glist :: !sg.success && !sg.hasElem
      ensures forall sg | sg in old(recvq.q) :: sg.val == if old(sg.hasElem) then zero else old(sg.val)
    {
      hide WaitQ.Valid, Reversed, ReleasedUpTo, Wants, Vals;
      var rs := Release(recvq, true);
      var ss := Release(sendq, false);
      glist := ss + rs;
      AllReleased(old(recvq.q), old(Wants(recvq.q)), old(Vals(recvq.q)), true);
      AllReleased(old(sendq.q), old(Wants(sendq.q)), old(Vals(sendq.q)), false);
      ReversedConcat(old(recvq.q), old(sendq.q));
      ReversedMembers(old(recvq.q));
      ReversedMembers(old(sendq.q));
    }

    method ReleaseOne(sg: Sudog<T>, clear: bool)
      modifies sg`val, sg`hasElem, sg`success
      ensures !sg.success && !sg.hasElem
      ensures sg.val == if clear && old(sg.hasElem) then zero else old(sg.val)
    {
      if clear && sg.hasElem {
        sg.val := zero;
      }
      sg.hasElem := false;
      sg.success := false;
    }

    /** How a waiting entry looks once it has been released, or before. */
    ghost predicate Looks(sg: Sudog<T>, wanted: bool, val: T, released: bool, clear: bool)
      reads sg`success, sg`hasElem, sg`val
    {
      if released then !sg.success && !sg.hasElem && sg.val == (if clear && wanted then zero else val)
      else sg.hasElem == wanted && sg.val == val
    }

    /** The first n of the entries have been released, the others are as they were. */
    ghost predicate ReleasedUpTo(q0: seq<Sudog<T>>, wants: seq<bool>, vals: seq<T>, n: nat, clear: bool)
      requires |wants| == |vals| == |q0|
      reads q0`success, q0`hasElem, q0`val
    {
      forall i | 0 <= i < |q0| :: Looks(q0[i], wants[i], vals[i], i < n, clear)
    }

    /** Releases entry n of a queue. */
    method ReleaseNext(ghost q0: seq<Sudog<T>>, ghost wants: seq<bool>, ghost vals: seq<T>, ghost n: nat, clear: bool,
                       sg: Sudog<T>)
      requires |wants| == |vals| == |q0| && n < |q0| && sg == q0[n] && Distinct(q0)
      requires ReleasedUpTo(q0, wants, vals, n, clear)
      modifies sg`val, sg`hasElem, sg`success
      ensures ReleasedUpTo(q0, wants, vals, n + 1, clear)
    {
      assert Looks(q0[n], wants[n], vals[n], false, clear);
      ReleaseOne(sg, clear);
      forall i | 0 <= i < |q0| ensures Looks(q0[i], wants[i], vals[i], i < n + 1, clear) {
        assert i != n ==> q0[i] != sg && old(Looks(q0[i], wants[i], vals[i], i < n, clear));
      }
    }

    /** Empties a queue onto the front of a list of goroutines to wake. */
    method Release(wq: WaitQ<T>, clear: bool) returns (glist: seq<Sudog<T>>)
      requires wq.Valid()
      modifies wq, wq.q
      ensures wq.Valid() && wq.q == [] && glist == Reversed(old(wq.q))
      ensures ReleasedUpTo(old(wq.q), old(Wants(wq.q)), old(Vals(wq.q)), |old(wq.q)|, clear)
    {
      hide WaitQ.Valid, ReleasedUpTo, Looks, Reversed, Wants, Vals;
      ghost var q0, wants, vals := wq.q, Wants(wq.q), Vals(wq.q);
      wq.Entries();
      AsTheyWere(q0, clear);
      glist := [];
      var sg := wq.Dequeue();
      ghost var n := 0;
      while sg != null
        invariant wq.Valid() && n <= |q0| && glist == Reversed(q0[..n])
        invariant if sg == null then n == |q0| && wq.q == [] else n < |q0| && sg == q0[n] && wq.q == q0[n + 1..]
        invariant ReleasedUpTo(q0, wants, vals, n, clear)
        decreases |q0| - n
      {
        ReleaseNext(q0, wants, vals, n, clear, sg);
        glist := [sg] + glist;
        ReversedNext(q0, n);
        n := n + 1;
        sg := wq.Dequeue();
      }
      assert q0[..n] == q0;
    }

    lemma AsTheyWere(q0: seq<Sudog<T>>, clear: bool)
      ensures ReleasedUpTo(q0, Wants(q0), Vals(q0), 0, clear)
    {
    }

    lemma AllReleased(q0: seq<Sudog<T>>, wants: seq<bool>, vals: seq<T>, clear: bool)
      requires |wants| == |vals| == |q0| && ReleasedUpTo(q0, wants, vals, |q0|, clear)
      ensures forall i | 0 <= i < |q0| ::
                !q0[i].success && !q0[i].hasElem && q0[i].val == if clear && wants[i] then zero else vals[i]
    {
      forall i | 0 <= i < |q0|
        ensures !q0[i].success && !q0[i].hasElem && q0[i].val == if clear && wants[i] then zero else vals[i]
      {
        assert Looks(q0[i], wants[i], vals[i], true, clear);
      }
    }
  }

  /** The oldest value leaves, the first parked one enters: the values in order are the same. */
  lemma PassedOn<T>(received: seq<T>, before: seq<T>, vals: seq<T>, v: T, after: seq<T>)
    requires vals != [] && before + [vals[0]] == [v] + after
    ensures received + [v] + after + vals[1..] == received + before + vals
  {
    assert received + [v] + after == received + ([v] + after);
    assert vals == [vals[0]] + vals[1..];
    assert received + before + vals == received + (before + [vals[0]]) + vals[1..];
  }

  function Reversed<X>(s: seq<X>): (r: seq<X>)
    ensures |r| == |s|
  {
    if |s| == 0 then [] else [s[|s| - 1]] + Reversed(s[..|s| - 1])
  }

  /** Entry n goes in front of the first n, and the rest begins after it. */
  lemma ReversedNext<X>(s: seq<X>, n: nat)
    requires n < |s|
    ensures Reversed(s[..n + 1]) == [s[n]] + Reversed(s[..n])
    ensures n + 1 < |s| ==> s[n + 1..][0] == s[n + 1] && s[n + 1..][1..] == s[n + 2..]
  {
    ReversedLast(s[..n], s[n]);
    assert s[..n] + [s[n]] == s[..n + 1];
  }

  lemma ReversedLast<X>(s: seq<X>, x: X)
    ensures Reversed(s + [x]) == [x] + Reversed(s)
  {
    assert (s + [x])[..|s|] == s;
  }

  lemma {:induction false} ReversedConcat<X>(a: seq<X>, b: seq<X>)
    ensures Reversed(a + b) == Reversed(b) + Reversed(a)
  {
    hide Reversed;
    if |b| == 0 {
      assert a + b == a && Reversed(b) == [];
    } else {
      var rest, last := b[..|b| - 1], b[|b| - 1];
      ReversedConcat(a, rest);
      ReversedLast(rest, last);
      ReversedLast(a + rest, last);
      assert b == rest + [last] && a + b == a + rest + [last];
    }
  }

  lemma {:induction false} ReversedMembers<X>(s: seq<X>)
    ensures forall x :: x in Reversed(s) <==> x in s
  {
    if |s| != 0 {
      ReversedMembers(s[..|s| - 1]);
      assert s == s[..|s| - 1] + [s[|s| - 1]];
    }
  }

  // ---------------------------------------------------------------- unlocked reads among locked sections

  /** A section that another goroutine runs under the lock. */
  datatype Op<T> = SendOp(v: T, block: bool) | RecvOp(wanted: bool, block: bool) | CloseOp

  /** Runs one section; a goroutine that parks is new. */
  method Section<T>(c: HChan<T>, op: Op<T>)
    requires c.Valid()
    modifies c, c.buf, c.recvq, c.sendq, c.recvq.q, c.sendq.q
    ensures c.Valid() && Move(old(c.Seen()), c.Seen())
    ensures forall i | 0 <= i < |c.recvq.q| :: c.recvq.q[i] in old(c.recvq.q) || fresh(c.recvq.q[i])
    ensures forall i | 0 <= i < |c.sendq.q| :: c.sendq.q[i] in old(c.sendq.q) || fresh(c.sendq.q[i])
  {
    hide HChan.Valid, WaitQ.Valid, Move;
    match op {
      case SendOp(v, block) =>
        var sg := new Sudog<T>(true, v);
        var _ := c.Send(v, block, sg);
      case RecvOp(wanted, block) =>
        var sg := new Sudog<T>(false, c.zero);
        var _ := c.Recv(wanted, block, sg);
      case CloseOp =>
        var _, _ := c.Close();
        c.ClosedQueues();
    }
  }

  /** Runs any sections; what they leave behind is a chain of views. */
  method Sections<T>(c: HChan<T>, ops: seq<Op<T>>) returns (ghost vs: seq<View>)
    requires c.Valid()
    modifies c, c.buf, c.recvq, c.sendq, c.recvq.q, c.sendq.q
    ensures c.Valid() && From(old(c.Seen()), c.Seen(), vs)
    ensures forall i | 0 <= i < |c.recvq.q| :: c.recvq.q[i] in old(c.recvq.q) || fresh(c.recvq.q[i])
    ensures forall i | 0 <= i < |c.sendq.q| :: c.sendq.q[i] in old(c.sendq.q) || fresh(c.sendq.q[i])
  {
    hide HChan.Valid, WaitQ.Valid, Move, Legal;
    vs := [c.Seen()];
    c.SeenLegal();
    for i := 0 to |ops|
      invariant c.Valid() && From(old(c.Seen()), c.Seen(), vs)
      invariant forall i | 0 <= i < |c.recvq.q| :: c.recvq.q[i] in old(c.recvq.q) || fresh(c.recvq.q[i])
      invariant forall i | 0 <= i < |c.sendq.q| :: c.sendq.q[i] in old(c.sendq.q) || fresh(c.sendq.q[i])
    {
      Section(c, ops[i]);
      c.SeenLegal();
      vs := vs + [c.Seen()];
    }
  }

  /** The fast path of a non-blocking send, while others run sections between its two reads. */
  method UnlockedSend<T>(c: HChan<T>, between: seq<Op<T>>) returns (wouldBlock: bool, ghost vs: seq<View>)
    requires c.Valid()
    modifies c, c.buf, c.recvq, c.sendq, c.recvq.q, c.sendq.q
    ensures c.Valid() && From(old(c.Seen()), c.Seen(), vs)
    ensures wouldBlock == (!old(c.closed) && NotReadyToSend(c.Seen()))
    ensures wouldBlock && (c.dataqsiz > 0 || !c.closed || old(c.recvq.q) == []) ==> BlockedOnce(vs)
  {
    hide HChan.Valid, WaitQ.Valid, Chain, BlockedOnce;
    var open := !c.closed;
    vs := Sections(c, between);
    c.SeenReads();
    wouldBlock := open && c.Full();
    if wouldBlock && (c.dataqsiz > 0 || !c.closed || old(c.recvq.q) == []) {
      SeenBlocked(vs);
    }
  }

  /** What the fast path of a non-blocking receive makes of its three reads. */
  datatype Look = TakeLock | NotReady | Drained

  /** The same of a non-blocking receive; mid is the channel when `closed` is read. */
  method UnlockedRecv<T>(c: HChan<T>, first: seq<Op<T>>, second: seq<Op<T>>) returns (r: Look, ghost mid: View)
    requires c.Valid()
    modifies c, c.buf, c.recvq, c.sendq, c.recvq.q, c.sendq.q
    ensures c.Valid()
    ensures r == if !NotReadyToReceive(old(c.Seen())) then TakeLock else if !mid.closed then NotReady
                 else if NotReadyToReceive(c.Seen()) then Drained else TakeLock
    ensures r.NotReady? ==> !old(c.closed) && NotReadyToReceive(old(c.Seen()))
    ensures r.Drained? ==> c.closed && c.qcount == 0
  {
    hide HChan.Valid, WaitQ.Valid, Move;
    c.SeenReads();
    mid := c.Seen();
    if !c.Empty() {
      r := TakeLock;
      return;
    }
    ghost var vs := Sections(c, first);
    ChainEnd(vs, 0);
    mid := c.Seen();
    if !c.closed {
      r := NotReady;
      return;
    }
    vs := Sections(c, second);
    ChainEnd(vs, 0);
    c.SeenReads();
    c.SeenLegal();
    r := if c.Empty() then Drained else TakeLock;
  }
}
