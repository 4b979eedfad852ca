/** What the Modbus RTU client writes to its port in a run (modbus_rtu_client.cpp). */
module RtuSending {
  import opened Bytes
  import opened Modbus
  import opened RtuModel
  import opened RtuProofs
  import opened RtuAnswers
  import Crc

  /** Frame i is that of the i-th request, for those that are finished or active. */
  predicate SentInOrder(c: Client) {
    && |c.log.sent| == Started(c) <= |c.log.submitted|
    && forall i | 0 <= i < |c.log.sent| :: c.log.sent[i] == RequestFrame(c.log.submitted[i].order)
  }

  lemma {:induction false} StepKeepsOrder(c: Client, e: Event)
    requires Inv(c) && SentInOrder(c)
    ensures c.rx.state == CrcLsb ==> PayloadReady(c)
    ensures SentInOrder(Step(c, e))
  {
    hide Step, RequestFrame, ReceiverInv, Justifies, OrdersOf, SubmittedBy;
    StepKeepsInv(c, e);
    var d := Step(c, e);
    if d.active.Some? {
      ActiveIsNext(d);
    }
    assert forall i | 0 <= i < |c.log.submitted| :: d.log.submitted[i] == c.log.submitted[i];
  }

  /** The active request comes behind the finished ones. */
  lemma ActiveIsNext(c: Client)
    requires QueueInv(c) && c.active.Some?
    ensures |c.log.finished| < |c.log.submitted| && c.log.submitted[|c.log.finished|] == c.active.value
  {
  }

  lemma {:induction false} OrderOnEveryRun(c: Client, t: Trace)
    requires IsInitial(c)
    ensures Inv(c) && SentInOrder(Run(c, t))
  {
    InitialInv(c);
    hide Step, Inv, SentInOrder;
    if t == Start {
      assert SentInOrder(c) by { NothingIsSent(c); }
    } else {
      OrderOnEveryRun(c, t.before);
      StepKeepsOrder(Run(c, t.before), t.last);
    }
  }

  lemma NothingIsSent(c: Client)
    requires IsInitial(c)
    ensures SentInOrder(c)
  {
  }

  /**
   On every run as many frames were written as requests are finished or active, in the order in which
   the requests were submitted. Each leaves the checksum register of its receiver at zero, and that of any
   request but a multiple write, which lacks the values, is decoded to it.
   */
  lemma {:induction false} FramesOnEveryRun(c: Client, t: Trace)
    requires IsInitial(c)
    ensures Inv(c)
    ensures var log := Run(c, t).log;
            && |log.sent| == |log.finished| + (if Run(c, t).active.Some? then 1 else 0) <= |log.submitted|
            && forall i | 0 <= i < |log.sent| ::
                 && Crc.TableRun(Crc.INIT, log.sent[i]) == Crc.State(0, 0)
                 && (DecodeRequest(log.sent[i]) == Some(log.submitted[i].order) <==> !log.submitted[i].order.WriteMultiple?)
                 && (log.submitted[i].order.WriteMultiple? ==> AnnouncesValues(log.sent[i], log.submitted[i].order))
  {
    OrderOnEveryRun(c, t);
    hide Run, Inv, IsInitial, RequestFrame, DecodeRequest, AnnouncesValues, Crc.TableRun, Crc.Checksum;
    var log := Run(c, t).log;
    forall i | 0 <= i < |log.sent|
      ensures Crc.TableRun(Crc.INIT, log.sent[i]) == Crc.State(0, 0)
      ensures DecodeRequest(log.sent[i]) == Some(log.submitted[i].order) <==> !log.submitted[i].order.WriteMultiple?
      ensures log.submitted[i].order.WriteMultiple? ==> AnnouncesValues(log.sent[i], log.submitted[i].order)
    {
      RequestDecodes(log.submitted[i].order);
      if log.submitted[i].order.WriteMultiple? {
        MultipleAnnounces(log.submitted[i].order);
      }
    }
  }

  /** The frame of a multiple write: address, function, first register, and how many registers and bytes would follow. */
  predicate AnnouncesValues(w: seq<byte>, o: Order)
    requires o.WriteMultiple?
  {
    && |w| == 10 && w[0] == o.unit && w[1] == 16 && ToUInt16(w[2], w[3]) == o.reg
    && ToUInt16(w[4], w[5]) == |o.values| % 0x1_0000 && ToUInt16(w[6], w[7]) == 2 * |o.values| % 0x1_0000
  }

  lemma MultipleAnnounces(o: Order)
    requires o.WriteMultiple?
    ensures AnnouncesValues(RequestFrame(o), o)
  {
    hide Crc.Checksum;
    TwoBytes(RequestBody(o));
    JoinSplit(o.reg, 0, 0);
    JoinSplit(Wrap16(|o.values|), 0, 0);
    JoinSplit(Wrap16(2 * |o.values|), 0, 0);
    var b, w := RequestBody(o), RequestFrame(o);
    assert |b| == 8 && forall i | 0 <= i < 8 :: w[i] == b[i];
    hide ToUInt16, Msb, Lsb;
  }

  // ---- Timeouts. ----

  /** When the time for an answer is over, the active request is finished with 254, and the next one is sent, if any. */
  lemma {:induction false} TimeoutFinishes(c: Client, followUps: seq<Order>)
    requires Inv(c) && c.active.Some?
    ensures var d := Step(c, TimedOut(followUps));
            && Inv(d) && d.log.finished == c.log.finished + [Finish(c.active.value, Exception(254))]
            && d.log.heard == [] && d.log.stray == [] && d.timer == d.active.Some?
            && (d.active.Some? <==> |d.log.submitted| > |d.log.finished|) && SendsNext(c, d)
  {
    FinishActiveKeepsInv(c, Exception(TIMEOUT), followUps);
    hide SetResult, ProcessPending, ResetStateEngine, ReceiverInv, SendsNext, NewRequests;
  }

  // ---- What is submitted. ----

  /** The orders of a run: of its callers, and of the listeners of the requests that it finishes. */
  function OrdersIn(c: Client, t: Trace): seq<Order>
    requires Inv(c)
  {
    match t
    case Start => []
    case Then(before, e) =>
      OrdersIn(c, before) + SubmittedBy(e, Run(c, t).log.finished != Run(c, before).log.finished)
  }

  /** The requests are the orders of the run, each with its position for a serial number. */
  lemma {:induction false} SubmittedOnEveryRun(c: Client, t: Trace)
    requires IsInitial(c)
    ensures Inv(c)
    ensures var rs := Run(c, t).log.submitted;
            |rs| == |OrdersIn(c, t)| && forall i | 0 <= i < |rs| :: rs[i] == Request(i, OrdersIn(c, t)[i])
  {
    OrdersAre(c, t);
    QueueOnEveryRun(c, t);
    hide Run, Inv, OrdersIn;
    var rs := Run(c, t).log.submitted;
    assert forall i | 0 <= i < |rs| :: rs[i].order == OrdersOf(rs)[i];
  }

  lemma {:induction false} OrdersAre(c: Client, t: Trace)
    requires IsInitial(c)
    ensures Inv(c) && OrdersOf(Run(c, t).log.submitted) == OrdersIn(c, t)
  {
    InitialInv(c);
    hide Step, Inv, OrdersOf, SubmittedBy, SendsNext, Justifies;
    if t == Start {
      assert OrdersOf([]) == [] by { NoOrders(); }
    } else {
      OrdersAre(c, t.before);
      StepKeepsInv(Run(c, t.before), t.last);
    }
  }

  lemma NoOrders()
    ensures OrdersOf([]) == []
  {
  }
}
