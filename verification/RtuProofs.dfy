/** What holds on every run of the Modbus RTU client. */
module RtuProofs {
  import opened Bytes
  import opened Modbus
  import opened RtuModel
  import Crc

  // ---- Queueing: conservation and order. ----

  function NewRequests(first: nat, orders: seq<Order>): (rs: seq<Request>)
    ensures |rs| == |orders|
  {
    seq(|orders|, i requires 0 <= i < |orders| => Request(first + i, orders[i]))
  }

  /** While an answer is awaited, submissions only join the end of the queue. */
  lemma {:induction false} SubmitAllQueues(c: Client, orders: seq<Order>)
    requires c.rx.state != Idle
    ensures var rs := NewRequests(|c.log.submitted|, orders);
            SubmitAll(c, orders) == c.(log := c.log.(submitted := c.log.submitted + rs), pending := c.pending + rs)
  {
    var rs := NewRequests(|c.log.submitted|, orders);
    if orders == [] {
      assert c.log.submitted + rs == c.log.submitted && c.pending + rs == c.pending;
    } else {
      var n := |orders| - 1;
      SubmitAllQueues(c, orders[..n]);
      var qs := NewRequests(|c.log.submitted|, orders[..n]);
      assert rs == qs + [Request(|c.log.submitted| + n, orders[n])];
      assert c.log.submitted + rs == (c.log.submitted + qs) + [rs[n]];
      assert c.pending + rs == (c.pending + qs) + [rs[n]];
    }
  }

  /** The guard in setResult never stops the active reply: it has not been finished before. */
  lemma ActiveIsUnfinished(c: Client)
    requires Conserved(c) && c.active.Some?
    ensures !IsFinished(c, c.active.value)
    ensures c.active.value.serial == |c.log.finished|
  {
    var n := |c.log.finished|;
    assert c.log.submitted[n] == c.active.value;
    forall i | 0 <= i < n
      ensures c.log.finished[i].request.serial == i
    {
      assert c.log.submitted[i] == Requests(c.log.finished)[i];
    }
  }

  function FinishActive(c: Client, result: Result, followUps: seq<Order>): Client
    requires c.active.Some?
  {
    ProcessPending(ResetStateEngine(SetResult(c, result, followUps), true))
  }

  /** What setResult leaves: the active request has joined the finished ones, its listener's orders wait. */
  lemma SetResultFields(c: Client, result: Result, followUps: seq<Order>)
    requires QueueInv(c) && c.active.Some?
    ensures var s := SetResult(c, result, followUps);
            var rs := NewRequests(|c.log.submitted|, followUps);
            && s.log.finished == c.log.finished + [Finish(c.active.value, result)]
            && s.log.submitted == c.log.submitted + rs && s.log.sent == c.log.sent
            && s.log.submitted == Requests(s.log.finished) + s.pending
            && forall i | 0 <= i < |s.log.submitted| :: s.log.submitted[i].serial == i
  {
    ActiveIsUnfinished(c);
    var f := Finished(c, result);
    var rs := NewRequests(|c.log.submitted|, followUps);
    SubmitAllQueues(f, followUps);
    hide SubmitAll;
    assert Requests(f.log.finished) == Requests(c.log.finished) + [c.active.value];
    var a, p := Requests(f.log.finished), c.pending;
    assert c.log.submitted == a + p;
    assert (a + p) + rs == a + (p + rs);
  }

  /** How many requests have become active. */
  function Started(c: Client): nat {
    |c.log.finished| + |ActiveSeq(c.active)|
  }

  /** From c to d a frame is written exactly if another request becomes active, and then its frame. */
  predicate SendsNext(c: Client, d: Client) {
    if Started(d) == Started(c) then d.log.sent == c.log.sent
    else Started(d) == Started(c) + 1 && d.active.Some? && d.log.sent == c.log.sent + [RequestFrame(d.active.value.order)]
  }

  function OrdersOf(rs: seq<Request>): (orders: seq<Order>)
    ensures |orders| == |rs|
  {
    seq(|rs|, i requires 0 <= i < |rs| => rs[i].order)
  }

  lemma OrdersOfNew(rs: seq<Request>, first: nat, orders: seq<Order>)
    ensures OrdersOf(rs + NewRequests(first, orders)) == OrdersOf(rs) + orders
  {
  }

  lemma OrdersOfOne(rs: seq<Request>, r: Request)
    ensures OrdersOf(rs + [r]) == OrdersOf(rs) + [r.order]
  {
  }

  lemma OneMore<T>(s: seq<T>, x: T)
    ensures s + [x] != s
  {
    assert |s + [x]| == |s| + 1;
  }

  /** The next waiting request, if any, becomes the active one. */
  lemma NextRequest(s: Client)
    requires s.log.submitted == Requests(s.log.finished) + s.pending
    requires forall i | 0 <= i < |s.log.submitted| :: s.log.submitted[i].serial == i
    ensures var d := ProcessPending(ResetStateEngine(s, true));
            && Inv(d)
            && d.log.finished == s.log.finished && d.log.submitted == s.log.submitted
            && d.log.heard == [] && d.log.stray == []
            && d.log.sent == s.log.sent + if d.active.Some? then [RequestFrame(d.active.value.order)] else []
  {
    hide RequestFrame;
    var a, p := Requests(s.log.finished), s.pending;
    var d := ProcessPending(ResetStateEngine(s, true));
    assert d.log.stray + Covered(d.log.heard) == [];
    if p == [] {
      assert a + [] + [] == a + p;
    } else {
      assert a + [p[0]] + p[1..] == a + p;
    }
  }

  /**
   Finishing the active request logs exactly its result and sends the next request, be it one that
   was waiting or one that the listener submitted from within the finished signal.
   */
  lemma FinishActiveKeepsInv(c: Client, result: Result, followUps: seq<Order>)
    requires QueueInv(c) && c.active.Some?
    ensures var d := FinishActive(c, result, followUps);
            && Inv(d)
            && d.log.finished == c.log.finished + [Finish(c.active.value, result)]
            && d.log.submitted == c.log.submitted + NewRequests(|c.log.submitted|, followUps)
            && d.log.heard == [] && d.log.stray == []
            && SendsNext(c, d)
  {
    hide RequestFrame;
    SetResultFields(c, result, followUps);
    NextRequest(SetResult(c, result, followUps));
    hide SetResult, ProcessPending, ResetStateEngine, Inv;
  }

  lemma SubmitKeepsInv(c: Client, o: Order)
    requires Inv(c)
    ensures var d := Submit(c, o);
            Inv(d) && d.log.finished == c.log.finished && d.log.heard == c.log.heard && d.log.stray == c.log.stray &&
            d.log.submitted == c.log.submitted + [Request(|c.log.submitted|, o)] && SendsNext(c, d)
  {
    hide RequestFrame;
    var r := Request(|c.log.submitted|, o);
    if c.rx.state == Idle {
      assert Requests(c.log.finished) + [] + [] == Requests(c.log.finished);
      assert Requests(c.log.finished) + [r] + [] == Requests(c.log.finished) + [r];
    } else {
      assert Requests(c.log.finished) + ActiveSeq(c.active) + (c.pending + [r])
          == (Requests(c.log.finished) + ActiveSeq(c.active) + c.pending) + [r];
    }
  }

  // ---- Receiving one byte. ----

  /** A whole answer: address, function, payload and checksum, of the length it announces. */
  predicate Complete(w: seq<byte>) {
    LengthKnown(w) && KnownFunction(w[1]) && |w| == BodyLength(w) + 2
  }

  function BodyOf(w: seq<byte>): seq<byte>
    requires Complete(w)
  {
    w[..BodyLength(w)]
  }

  /** What a well-formed body means. */
  function Decode(body: seq<byte>): Result
    requires LengthKnown(body) && KnownFunction(body[1]) && |body| == BodyLength(body)
  {
    if body[1] >= 0x80 then Exception(body[2])
    else if IsRead(body[1]) then Registers(RegistersOf(body[3..]))
    else if body[1] == 6 then Registers([ToUInt16(body[4], body[5])])
    else Exception(0)
  }

  /** w answers order o; the checksum runs over the stray bytes that preceded w as well. */
  predicate Answers(w: seq<byte>, stray: seq<byte>, o: Order) {
    && Complete(w)
    && w[0] == o.unit
    && w[1] % 0x80 == FunctionOf(o)
    && Crc.Checksum(stray + BodyOf(w)) == w[BodyLength(w)..]
  }

  lemma PrefixKnown(w: seq<byte>, v: seq<byte>)
    requires v <= w && LengthKnown(v)
    ensures LengthKnown(w) && BodyLength(w) == BodyLength(v)
  {
  }

  predicate BodyDone(w: seq<byte>) {
    LengthKnown(w) && |w| >= BodyLength(w)
  }

  lemma CoveredStep(w: seq<byte>, b: byte)
    requires Partial(w) && Partial(w + [b])
    ensures Covered(w + [b]) == if BodyDone(w) then Covered(w) else w + [b]
    ensures BodyDone(w) ==> BodyDone(w + [b])
    ensures !BodyDone(w) ==> Covered(w) == w
  {
    var v := w + [b];
    if LengthKnown(w) {
      PrefixKnown(v, w);
      if BodyDone(w) {
        assert v[..BodyLength(v)] == w[..BodyLength(w)];
      }
    }
    if !BodyDone(w) && BodyDone(v) {
      assert |v| == BodyLength(v);
      assert v[..|v|] == v;
    }
  }

  lemma PayloadStep(w: seq<byte>, b: byte)
    requires Partial(w) && Partial(w + [b])
    ensures PayloadOf(w + [b]) == if StateOf(w) == Data then PayloadOf(w) + [b] else PayloadOf(w)
  {
    var v := w + [b];
    CoveredStep(w, b);
    if LengthKnown(w) {
      PrefixKnown(v, w);
      var s := DataStart(v[1]);
      if !BodyDone(w) && |w| >= s {
        assert v[s..] == w[s..] + [b];
      } else if !BodyDone(w) {
        assert |v| <= s && v[|v|..] == [];
      }
    } else if LengthKnown(v) {
      assert |v| <= DataStart(v[1]) && v[|v|..] == [];
    }
  }

  lemma BuilderStep(c: Client, b: byte)
    requires ReceiverInv(c) && Partial(c.log.heard + [b])
    ensures (if c.rx.addToCrc then c.fed + [b] else c.fed) == c.log.stray + Covered(c.log.heard + [b])
  {
    CoveredStep(c.log.heard, b);
    assert (c.log.stray + c.log.heard) + [b] == c.log.stray + (c.log.heard + [b]);
  }

  predicate SameQueue(c: Client, d: Client) {
    && d.log.finished == c.log.finished && d.log.submitted == c.log.submitted && d.log.sent == c.log.sent
    && d.active == c.active && d.pending == c.pending && d.timer == c.timer
  }

  /** How the state that belongs to the bytes heard changes with one more byte. */
  lemma StateStep(w: seq<byte>, b: byte)
    requires Partial(w) && Partial(w + [b])
    ensures StateOf(w) != CrcLsb
    ensures StateOf(w + [b]) ==
            match StateOf(w)
            case Address => Function
            case Function => if b >= 0x80 then Data else if IsRead(b) then ByteCount else StartAddressMsb
            case ByteCount => if b == 0 then CrcMsb else Data
            case StartAddressMsb => StartAddressLsb
            case StartAddressLsb => Data
            case Data => if BodyLength(w) - |w| == 1 then CrcMsb else Data
            case _ => CrcLsb
    ensures StateOf(w + [b]) == Data && StateOf(w) == Function ==> BodyLength(w + [b]) - |w + [b]| == 1
    ensures StateOf(w + [b]) == Data && StateOf(w) == ByteCount ==> BodyLength(w + [b]) - |w + [b]| == b
    ensures StateOf(w + [b]) == Data && StateOf(w) == StartAddressLsb ==> BodyLength(w + [b]) - |w + [b]| == 2
    ensures StateOf(w + [b]) == Data && StateOf(w) == Data ==> BodyLength(w + [b]) - |w + [b]| == BodyLength(w) - |w| - 1
  {
    assert (w + [b])[..|w|] == w;
    if LengthKnown(w) {
      PrefixKnown(w + [b], w);
    }
  }

  /** What one byte changes, field by field, unless it rejects or completes an answer. */
  lemma HandleByteFields(c: Client, b: byte, followUps: seq<Order>)
    requires c.rx.state != Idle && c.rx.state != CrcLsb && (c.rx.state == Function ==> KnownFunction(b))
    requires c.rx.state == Data ==> c.rx.count > 0
    ensures var d := HandleByte(c, b, followUps);
            && d.log.heard == c.log.heard + [b] && d.log.stray == c.log.stray
            && d.rx.unitId == (if c.rx.state == Address then b else c.rx.unitId)
            && d.rx.fn == (if c.rx.state == Function then b else c.rx.fn)
            && d.rx.data == (if c.rx.state == Data then c.rx.data + [b] else c.rx.data)
            && d.fed == (if c.rx.addToCrc then c.fed + [b] else c.fed)
            && d.rx.addToCrc == (c.rx.addToCrc && d.rx.state != CrcMsb)
            && (d.rx.state == CrcLsb ==> d.rx.crc == ToUInt16(b, 0))
            && (c.rx.state == Data ==> d.rx.count == c.rx.count - 1)
            && (c.rx.state == Function && b >= 0x80 ==> d.rx.count == 1)
            && (c.rx.state == ByteCount ==> d.rx.count == b)
            && (c.rx.state == StartAddressLsb ==> d.rx.count == 2)
            && SameQueue(c, d)
    ensures HandleByte(c, b, followUps).rx.state ==
            match c.rx.state
            case Address => Function
            case Function => if b >= 0x80 then Data else if IsRead(b) then ByteCount else StartAddressMsb
            case ByteCount => if b == 0 then CrcMsb else Data
            case StartAddressMsb => StartAddressLsb
            case StartAddressLsb => Data
            case Data => if c.rx.count == 1 then CrcMsb else Data
            case _ => CrcLsb
  {
  }

  lemma BodyDoneState(w: seq<byte>)
    requires Partial(w)
    ensures BodyDone(w) <==> StateOf(w) == CrcMsb || StateOf(w) == CrcLsb
  {
  }

  lemma ByteTakenInReceiver(c: Client, b: byte, followUps: seq<Order>)
    requires ReceiverInv(c) && c.rx.state != Idle && Partial(c.log.heard + [b])
    ensures c.rx.state != CrcLsb
    ensures var d := HandleByte(c, b, followUps);
            ReceiverInv(d) && d.log.heard == c.log.heard + [b] && d.log.stray == c.log.stray && d.rx.state != Idle && SameQueue(c, d)
  {
    var w := c.log.heard + [b];
    StateStep(c.log.heard, b);
    assert |c.log.heard| >= 1 ==> w[0] == c.log.heard[0];
    assert |c.log.heard| >= 2 ==> w[1] == c.log.heard[1];
    assert c.rx.state == Function ==> |c.log.heard| == 1 && w[1] == b;
    HandleByteFields(c, b, followUps);
    BuilderStep(c, b);
    PayloadStep(c.log.heard, b);
    BodyDoneState(c.log.heard);
    BodyDoneState(w);
    hide Covered, PayloadOf, StateOf, HandleByte, BodyLength;
  }

  lemma SameQueueKeepsInv(c: Client, d: Client)
    requires QueueInv(c) && SameQueue(c, d) && (c.rx.state == Idle <==> d.rx.state == Idle)
    ensures QueueInv(d)
  {
  }

  /** A byte that neither completes an answer nor is an unknown function code is just taken in. */
  lemma ByteTakenIn(c: Client, b: byte, followUps: seq<Order>)
    requires Inv(c) && c.rx.state != Idle && Partial(c.log.heard + [b])
    ensures c.rx.state != CrcLsb
    ensures var d := HandleByte(c, b, followUps);
            Inv(d) && d.log.heard == c.log.heard + [b] && d.log.stray == c.log.stray && SameQueue(c, d)
  {
    hide QueueInv, ReceiverInv, HandleByte;
    ByteTakenInReceiver(c, b, followUps);
    SameQueueKeepsInv(c, HandleByte(c, b, followUps));
  }

  /** In the state CrcLsb, and only there, the next byte completes an answer. */
  lemma LastByte(c: Client, b: byte)
    requires ReceiverInv(c) && c.rx.state != Idle
    ensures c.rx.state == CrcLsb <==> Complete(c.log.heard + [b])
    ensures !Partial(c.log.heard + [b]) <==>
            c.rx.state == CrcLsb || (|c.log.heard| == 1 && !KnownFunction(b))
    ensures c.rx.state == CrcLsb ==>
            var w := c.log.heard + [b];
            && BodyOf(w) == Covered(c.log.heard)
            && c.rx.data == BodyOf(w)[DataStart(w[1])..]
            && w[BodyLength(w)..] == [Msb(c.rx.crc), b]
            && PayloadReady(c)
  {
    var w := c.log.heard + [b];
    assert w[..|c.log.heard|] == c.log.heard;
    if LengthKnown(c.log.heard) {
      PrefixKnown(w, c.log.heard);
    }
    if c.rx.state == CrcLsb {
      var n := BodyLength(w);
      assert w[..n] == c.log.heard[..n];
      assert w[n..] == [c.log.heard[n], b];
    }
  }

  /** The two checks of the checksum, on values and on bytes, agree. */
  lemma ChecksumCompare(x: byte, y: byte, m: seq<byte>)
    ensures ToUInt16(x, y) == Crc.Value(m) <==> Crc.Checksum(m) == [x, y]
  {
    var s := Crc.Checksum(m);
    assert |s| == 2;
    hide Crc.Checksum;
    if ToUInt16(x, y) == Crc.Value(m) {
      assert s[0] == x && s[1] == y;
      assert s == [x, y];
    }
  }

  /**
   The byte that completes w finishes the active request if and only if w answers it, and then with
   what w means. Otherwise the receiver forgets w and waits for another answer.
   */
  lemma CompleteByte(c: Client, b: byte, followUps: seq<Order>)
    requires Inv(c) && c.rx.state == CrcLsb
    ensures PayloadReady(c) && c.active.Some? && Complete(c.log.heard + [b])
    ensures var w, d := c.log.heard + [b], HandleByte(c, b, followUps);
            && Inv(d) && d.log.heard == [] && d.log.stray == []
            && if Answers(w, c.log.stray, c.active.value.order) then
                 && d.log.finished == c.log.finished + [Finish(c.active.value, Decode(BodyOf(w)))]
                 && d.log.submitted == c.log.submitted + NewRequests(|c.log.submitted|, followUps) && SendsNext(c, d)
               else SameQueue(c, d) && d.rx.state == Address
  {
    hide Crc.Checksum;
    LastByte(c, b);
    var w := c.log.heard + [b];
    var c1 := c.(log := c.log.(heard := w), rx := c.rx.(crc := ToUInt16(Msb(c.rx.crc), b)));
    ChecksumCompare(Msb(c.rx.crc), b, c.fed);
    assert c.log.stray + BodyOf(w) == c.log.stray + Covered(c.log.heard);
    assert c1.fed == c.log.stray + BodyOf(w);
    var (d, accepted) := ProcessPacket(c1, followUps);
    assert ResultOf(c1.rx.fn, c1.rx.data) == Some(Decode(BodyOf(w)));
    assert accepted <==> Answers(w, c.log.stray, c.active.value.order);
    if accepted {
      FinishActiveKeepsInv(c1, Decode(BodyOf(w)), followUps);
    } else {
      ResetForgets(c1);
    }
  }

  lemma ResetForgets(c: Client)
    requires QueueInv(c) && c.rx.state != Idle
    ensures var d := ResetStateEngine(c, false);
            Inv(d) && SameQueue(c, d) && d.log.heard == [] && d.log.stray == [] && d.rx.state == Address
  {
    assert [] + Covered([]) == [];
  }

  lemma IdleByte(c: Client, b: byte, followUps: seq<Order>)
    requires Inv(c) && c.rx.state == Idle
    ensures var d := HandleByte(c, b, followUps);
            Inv(d) && SameQueue(c, d) && d.rx.state == Idle && d.log.heard == [] && d.log.stray == c.log.stray + [b]
  {
    assert c.log.stray + [] == c.log.stray && (c.log.stray + [b]) + [] == c.log.stray + [b];
    assert Requests(c.log.finished) == c.log.submitted;
  }

  lemma RejectedFunction(c: Client, b: byte, followUps: seq<Order>)
    requires Inv(c) && |c.log.heard| == 1 && !KnownFunction(b)
    ensures c.rx.state == Function
    ensures var d := HandleByte(c, b, followUps);
            Inv(d) && SameQueue(c, d) && d.log.heard == [] && d.log.stray == [] && d.rx.state == Address
  {
    ResetForgets(HandleByteBefore(c, b));
  }

  /** The client after the byte was fed to the checksum and before the function code is examined. */
  function HandleByteBefore(c: Client, b: byte): Client {
    c.(fed := if c.rx.addToCrc then c.fed + [b] else c.fed, log := c.log.(heard := c.log.heard + [b]), rx := c.rx.(fn := b))
  }

  // ---- Every step, every run. ----

  /** e finishes a request of c with result: by a timeout, or by the last byte of an answer to it. */
  predicate Justifies(c: Client, e: Event, result: Result) {
    && c.active.Some?
    && match e
       case Submitted(_) => false
       case TimedOut(_) => result == Exception(TIMEOUT)
       case Received(b, _) =>
         var w := c.log.heard + [b];
         Answers(w, c.log.stray, c.active.value.order) && result == Decode(BodyOf(w))
  }

  /** The orders that event e submits, if it finishes a request or not. */
  function SubmittedBy(e: Event, finishes: bool): seq<Order> {
    match e
    case Submitted(o) => [o]
    case Received(_, followUps) => if finishes then followUps else []
    case TimedOut(followUps) => if finishes then followUps else []
  }

  /** d follows c by an event that finished nothing, or finished the active request with a justified result. */
  ghost predicate GoodStep(c: Client, e: Event, d: Client) {
    && Inv(d)
    && c.log.submitted <= d.log.submitted
    && OrdersOf(d.log.submitted) == OrdersOf(c.log.submitted) + SubmittedBy(e, d.log.finished != c.log.finished)
    && SendsNext(c, d)
    && (d.log.finished == c.log.finished ||
        (c.active.Some? && exists result ::
           d.log.finished == c.log.finished + [Finish(c.active.value, result)] && Justifies(c, e, result)))
  }

  lemma ReceivedIsGood(c: Client, b: byte, f: seq<Order>)
    requires Inv(c)
    ensures c.rx.state == CrcLsb ==> PayloadReady(c)
    ensures GoodStep(c, Received(b, f), HandleByte(c, b, f))
  {
    hide HandleByte, Inv, Answers, Partial, StateOf, NewRequests, OrdersOf;
    if c.rx.state == Idle {
      IdleByte(c, b, f);
    } else {
      InvParts(c);
      LastByte(c, b);
      if c.rx.state == CrcLsb {
        CompleteByte(c, b, f);
        var w := c.log.heard + [b];
        if Answers(w, c.log.stray, c.active.value.order) {
          OrdersOfNew(c.log.submitted, |c.log.submitted|, f);
          OneMore(c.log.finished, Finish(c.active.value, Decode(BodyOf(w))));
          assert Justifies(c, Received(b, f), Decode(BodyOf(w)));
        }
      } else if Partial(c.log.heard + [b]) {
        ByteTakenIn(c, b, f);
      } else {
        RejectedFunction(c, b, f);
      }
    }
  }

  lemma InvParts(c: Client)
    requires Inv(c)
    ensures QueueInv(c) && ReceiverInv(c)
  {
  }

  lemma TimedOutIsGood(c: Client, f: seq<Order>)
    requires Inv(c)
    ensures GoodStep(c, TimedOut(f), OnTimeout(c, f))
  {
    if c.rx.state != Idle {
      FinishActiveKeepsInv(c, Exception(TIMEOUT), f);
      hide Inv, SetResult, ProcessPending, ResetStateEngine, NewRequests, OrdersOf, SendsNext;
      OrdersOfNew(c.log.submitted, |c.log.submitted|, f);
      OneMore(c.log.finished, Finish(c.active.value, Exception(TIMEOUT)));
      assert Justifies(c, TimedOut(f), Exception(TIMEOUT));
    }
  }

  /**
   Every step keeps the invariant and finishes at most one request: the active one, and only with a
   justified result.
   */
  lemma StepKeepsInv(c: Client, e: Event)
    requires Inv(c)
    ensures c.rx.state == CrcLsb ==> PayloadReady(c)
    ensures GoodStep(c, e, Step(c, e))
  {
    ReceivedIsGood(c, 0, []);
    hide HandleByte, OnTimeout, Submit, Inv, OrdersOf, SendsNext;
    match e {
      case Submitted(o) =>
        SubmitKeepsInv(c, o);
        OrdersOfOne(c.log.submitted, Request(|c.log.submitted|, o));
      case TimedOut(f) => TimedOutIsGood(c, f);
      case Received(b, f) => ReceivedIsGood(c, b, f);
    }
  }

  /** A run, its last event outermost. */
  datatype Trace = Start | Then(before: Trace, last: Event)

  function Run(c: Client, t: Trace): (d: Client)
    requires Inv(c)
    ensures Inv(d)
  {
    match t
    case Start => c
    case Then(before, e) =>
      StepKeepsInv(Run(c, before), e);
      Step(Run(c, before), e)
  }

  /** p is an initial part of t. */
  predicate IsPrefix(p: Trace, t: Trace) {
    p == t || (t.Then? && IsPrefix(p, t.before))
  }

  lemma InitialInv(c: Client)
    requires IsInitial(c)
    ensures Inv(c)
  {
    assert c.log.stray + Covered(c.log.heard) == [];
    assert Requests([]) + [] + [] == [];
  }

  /**
   On every run, whatever is received, whenever timeouts fire and whatever listeners submit: the
   requests finished so far are exactly the first ones submitted, each once and in order; the client
   is idle exactly when all of them are finished.
   */
  lemma QueueOnEveryRun(c: Client, t: Trace)
    requires IsInitial(c)
    ensures Inv(c)
    ensures var d := Run(c, t);
            && Conserved(d)
            && Requests(d.log.finished) <= d.log.submitted
            && (forall i | 0 <= i < |d.log.finished| :: d.log.finished[i].request.serial == i)
            && (d.rx.state == Idle <==> d.log.submitted == Requests(d.log.finished))
  {
    InitialInv(c);
    hide Run, ReceiverInv, IsInitial;
    var d := Run(c, t);
    var fs := Requests(d.log.finished);
    assert fs == d.log.submitted[..|fs|];
    forall i | 0 <= i < |d.log.finished|
      ensures d.log.finished[i].request.serial == i
    {
      assert d.log.submitted[i] == fs[i];
    }
    if d.rx.state == Idle {
      assert fs + [] + [] == fs;
    } else {
      assert |d.log.submitted| > |fs|;
    }
  }

  /** Every result ever reported was justified by the event that reported it. */
  lemma {:induction false} ResultsAreJustified(c: Client, t: Trace, k: nat) returns (p: Trace)
    requires Inv(c) && c.log.finished == [] && k < |Run(c, t).log.finished|
    ensures p.Then? && IsPrefix(p, t)
    ensures Run(c, p.before).active == Some(Run(c, t).log.finished[k].request)
    ensures Justifies(Run(c, p.before), p.last, Run(c, t).log.finished[k].result)
  {
    hide Step, Inv, Justifies, SendsNext, OrdersOf, SubmittedBy;
    var before := Run(c, t.before);
    StepKeepsInv(before, t.last);
    if k < |before.log.finished| {
      p := ResultsAreJustified(c, t.before, k);
    } else {
      p := t;
    }
  }

  /** The bytes received in a run. */
  function BytesOf(t: Trace): seq<byte> {
    if t.Start? then [] else BytesOf(t.before) + if t.last.Received? then [t.last.b] else []
  }

  predicate EndsWith(bs: seq<byte>, s: seq<byte>) {
    |s| <= |bs| && bs[|bs| - |s|..] == s
  }

  lemma EmptySuffix()
    ensures EndsWith([], [])
  {
  }

  lemma SuffixGrows(bs: seq<byte>, s: seq<byte>, more: seq<byte>)
    requires EndsWith(bs, s)
    ensures EndsWith(bs + more, s + more) && EndsWith(bs + more, [])
  {
  }

  /** The answer that is judged is what came in last: the stray bytes, if any, and then heard. */
  lemma {:induction false} HeardCameInLast(c: Client, t: Trace)
    requires Inv(c) && c.log.stray == [] && c.log.heard == []
    ensures EndsWith(BytesOf(t), Run(c, t).log.stray + Run(c, t).log.heard)
  {
    hide EndsWith;
    if t == Start {
      EmptySuffix();
    } else {
      HeardCameInLast(c, t.before);
      var before := Run(c, t.before);
      StepBytes(before, t.last);
      hide Step, Inv;
      SuffixGrows(BytesOf(t.before), before.log.stray + before.log.heard, if t.last.Received? then [t.last.b] else []);
    }
  }

  lemma StepBytes(c: Client, e: Event)
    requires Inv(c)
    ensures c.rx.state == CrcLsb ==> PayloadReady(c)
    ensures var d := Step(c, e);
            || d.log.stray + d.log.heard == []
            || d.log.stray + d.log.heard == c.log.stray + c.log.heard + if e.Received? then [e.b] else []
  {
    hide HandleByte, Submit, SetResult, ResetStateEngine, ProcessPending, Covered, PayloadOf, StateOf;
    if c.rx.state == CrcLsb { LastByte(c, 0); }
    match e {
      case Submitted(o) =>
        SubmitKeepsInv(c, o);
      case TimedOut(f) =>
        if c.rx.state != Idle {
          FinishActiveKeepsInv(c, Exception(TIMEOUT), f);
        }
      case Received(b, f) =>
        if c.rx.state == Idle {
          IdleByte(c, b, f);
          assert (c.log.stray + [b]) + [] == (c.log.stray + []) + [b];
        } else {
          LastByte(c, b);
          if c.rx.state == CrcLsb {
            CompleteByte(c, b, f);
          } else if Partial(c.log.heard + [b]) {
            ByteTakenIn(c, b, f);
            assert c.log.stray + (c.log.heard + [b]) == (c.log.stray + c.log.heard) + [b];
          } else {
            RejectedFunction(c, b, f);
          }
        }
    }
  }
}
