/** Answers and requests on the wire: what the Modbus RTU client makes of the bytes a device sends. */
module RtuAnswers {
  import opened Bytes
  import opened Modbus
  import opened RtuModel
  import opened RtuProofs
  import Crc

  function Body(r: Response): seq<byte>
    requires ValidResponse(r)
  {
    [r.unit] + Pdu(r)
  }

  function Wire(r: Response): seq<byte>
    requires ValidResponse(r)
  {
    Body(r) + Crc.Checksum(Body(r))
  }

  function Meaning(r: Response): Result {
    match r
    case ReadResponse(_, _, regs) => Registers(regs)
    case SingleResponse(_, _, value) => Registers([value])
    case MultipleResponse(_, _, _) => Exception(0)
    case ExceptionResponse(_, _, code) => Exception(code)
  }

  function FunctionOfResponse(r: Response): byte {
    match r
    case ReadResponse(_, fn, _) => fn
    case SingleResponse(_, _, _) => 6
    case MultipleResponse(_, _, _) => 16
    case ExceptionResponse(_, fn, _) => fn
  }

  predicate Fits(r: Response, o: Order) {
    ValidResponse(r) && r.unit == o.unit && FunctionOfResponse(r) == FunctionOf(o)
  }

  lemma WireIsComplete(r: Response)
    requires ValidResponse(r)
    ensures var w := Wire(r);
            && Complete(w) && BodyOf(w) == Body(r) && w[BodyLength(w)..] == Crc.Checksum(Body(r))
            && Decode(Body(r)) == Meaning(r)
            && w[0] == r.unit && w[1] % 0x80 == FunctionOfResponse(r)
  {
    hide Crc.Checksum, Meaning, Decode;
    var body := Body(r);
    TwoBytes(body);
    BodyIsWhole(r);
    Parts(body, Crc.Checksum(body));
  }

  lemma Parts(a: seq<byte>, b: seq<byte>)
    ensures (a + b)[..|a|] == a && (a + b)[|a|..] == b && forall i | 0 <= i < |a| :: (a + b)[i] == a[i]
  {
  }

  /** A body announces its own length, and means what the response does. */
  lemma BodyIsWhole(r: Response)
    requires ValidResponse(r)
    ensures var b := Body(r);
            && LengthKnown(b) && KnownFunction(b[1]) && |b| == BodyLength(b) && Decode(b) == Meaning(r)
            && b[0] == r.unit && b[1] % 0x80 == FunctionOfResponse(r)
  {
    var b := Body(r);
    match r {
      case ReadResponse(unit, fn, regs) =>
        assert b[3..] == RegisterBytes(regs);
        RegistersRoundTrip(regs);
      case SingleResponse(unit, reg, value) => JoinSplit(value, 0, 0);
      case _ =>
    }
  }

  lemma TwoBytes(m: seq<byte>)
    ensures |Crc.Checksum(m)| == 2
  {
  }

  /** Feeding the first n bytes of w; a listener submits followUps if one of them finishes a request. */
  function Feed(c: Client, w: seq<byte>, n: nat, followUps: seq<Order>): (d: Client)
    requires Inv(c) && n <= |w|
    ensures Inv(d)
  {
    if n == 0 then c
    else
      var before := Feed(c, w, n - 1, followUps);
      var e := Received(w[n - 1], followUps);
      StepKeepsInv(before, e);
      Step(before, e)
  }

  lemma ProperPrefixIsPartial(w: seq<byte>, n: nat)
    requires Complete(w) && n < |w|
    ensures Partial(w[..n])
  {
    if LengthKnown(w[..n]) {
      PrefixKnown(w, w[..n]);
    }
  }

  lemma FeedStep(c: Client, w: seq<byte>, n: nat, followUps: seq<Order>)
    requires Inv(c) && 0 < n <= |w|
    ensures var before := Feed(c, w, n - 1, followUps);
            && (before.rx.state == CrcLsb ==> PayloadReady(before))
            && Feed(c, w, n, followUps) == HandleByte(before, w[n - 1], followUps)
  {
    StepKeepsInv(Feed(c, w, n - 1, followUps), Received(w[n - 1], followUps));
    hide HandleByte, Inv;
  }

  lemma SameQueueWaits(c: Client, d: Client)
    requires Inv(c) && Inv(d) && SameQueue(c, d) && c.rx.state != Idle
    ensures d.rx.state != Idle
  {
  }

  lemma PartialPrefix(w: seq<byte>, n: nat)
    requires Partial(w) && n <= |w|
    ensures Partial(w[..n])
  {
    if LengthKnown(w[..n]) {
      PrefixKnown(w, w[..n]);
    }
  }

  /** The bytes of an answer that is not complete are just taken in. */
  lemma {:induction false} FeedPartial(c: Client, w: seq<byte>, n: nat, followUps: seq<Order>)
    requires Inv(c) && c.rx.state != Idle && c.log.heard == [] && n <= |w| && Partial(w[..n])
    ensures var d := Feed(c, w, n, followUps);
            d.log.heard == w[..n] && d.log.stray == c.log.stray && SameQueue(c, d)
  {
    hide Inv, HandleByte, Partial;
    if n > 0 {
      var before := Feed(c, w, n - 1, followUps);
      PartialPrefix(w[..n], n - 1);
      assert w[..n][..n - 1] == w[..n - 1];
      FeedPartial(c, w, n - 1, followUps);
      SameQueueWaits(c, before);
      assert before.log.heard + [w[n - 1]] == w[..n];
      FeedStep(c, w, n, followUps);
      ByteTakenIn(before, w[n - 1], followUps);
    }
  }

  /**
   A whole answer, fed byte by byte to a client that waits for it, finishes the active request if and
   only if it answers that request, and then with what it means.
   */
  lemma FeedComplete(c: Client, w: seq<byte>, followUps: seq<Order>)
    requires Inv(c) && c.rx.state == Address && c.log.heard == [] && Complete(w)
    ensures c.active.Some?
    ensures var d := Feed(c, w, |w|, followUps);
            && d.log.heard == [] && d.log.stray == []
            && if Answers(w, c.log.stray, c.active.value.order) then
                 d.log.finished == c.log.finished + [Finish(c.active.value, Decode(BodyOf(w)))]
               else SameQueue(c, d) && d.rx.state == Address
  {
    hide Inv, HandleByte, Complete, Answers, Decode, Feed, BodyOf;
    var n := |w| - 1;
    WaitingIsActive(c);
    NotEmpty(w);
    var before := Feed(c, w, n, followUps);
    ProperPrefixIsPartial(w, n);
    FeedPartial(c, w, n, followUps);
    SameQueueWaits(c, before);
    assert before.log.heard + [w[n]] == w;
    FeedStep(c, w, |w|, followUps);
    AwaitsLast(before, w[n]);
    CompleteByte(before, w[n], followUps);
  }

  lemma NotEmpty(w: seq<byte>)
    requires Complete(w)
    ensures |w| > 0
  {
  }

  lemma WaitingIsActive(c: Client)
    requires Inv(c) && c.rx.state != Idle
    ensures c.active.Some?
  {
  }

  lemma AwaitsLast(c: Client, b: byte)
    requires Inv(c) && c.rx.state != Idle && Complete(c.log.heard + [b])
    ensures c.rx.state == CrcLsb
  {
    LastByte(c, b);
  }

  /**
   The round trip: a well-formed answer to the active request finishes it with exactly the encoded
   registers or exception code if and only if the bytes received while idle, which the source feeds
   to the checksum as well, have led its register back to the start (none in particular). Otherwise
   nothing is reported, and a repeated answer is accepted.
   */
  lemma AnswerRoundTrip(c: Client, r: Response, followUps: seq<Order>)
    requires Inv(c) && c.rx.state == Address && c.log.heard == [] && c.active.Some? && Fits(r, c.active.value.order)
    ensures var d := Feed(c, Wire(r), |Wire(r)|, followUps);
            && (d.log.finished == c.log.finished + [Finish(c.active.value, Meaning(r))]
                <==> Crc.TableRun(Crc.INIT, c.log.stray) == Crc.INIT)
            && (Crc.TableRun(Crc.INIT, c.log.stray) != Crc.INIT ==>
                SameQueue(c, d) && d.rx.state == Address && d.log.stray == [] && d.log.heard == [])
  {
    hide Crc.Checksum, Crc.TableRun, ReceiverInv, Decode;
    WireIsComplete(r);
    FeedComplete(c, Wire(r), followUps);
    Crc.PrefixHarmless(c.log.stray, Body(r));
  }

  /** One stray byte is enough to lose the next answer. */
  lemma OneStrayByteLosesTheAnswer(c: Client, r: Response, followUps: seq<Order>)
    requires Inv(c) && c.rx.state == Address && c.log.heard == [] && c.active.Some? && Fits(r, c.active.value.order)
    requires |c.log.stray| == 1
    ensures Feed(c, Wire(r), |Wire(r)|, followUps).log.finished == c.log.finished
  {
    hide Crc.TableRun, ReceiverInv;
    assert c.log.stray == [c.log.stray[0]];
    Crc.OneByteIsHarmful(c.log.stray[0]);
    AnswerRoundTrip(c, r, followUps);
  }

  // ---- Requests. ----

  /** What a device makes of the bytes of a request: sections 6.3, 6.4, 6.6 and 6.12. */
  function DecodeRequestBody(w: seq<byte>): Option<Order> {
    if |w| < 6 then None
    else
      var reg, word := ToUInt16(w[2], w[3]), ToUInt16(w[4], w[5]);
      if |w| == 6 then
        if w[1] == 3 then Some(ReadHolding(w[0], reg, word))
        else if w[1] == 4 then Some(ReadInput(w[0], reg, word))
        else if w[1] == 6 then Some(WriteSingle(w[0], reg, word))
        else None
      else if w[1] == 16 && |w| == 7 + 2 * word && w[6] as int == 2 * word then
        Some(WriteMultiple(w[0], reg, RegistersOf(w[7..])))
      else None
  }

  function DecodeRequest(w: seq<byte>): Option<Order> {
    if |w| < 2 || w[|w| - 2..] != Crc.Checksum(w[..|w| - 2]) then None
    else DecodeRequestBody(w[..|w| - 2])
  }

  /** A body decodes back exactly when it is not that of a multiple write, which lacks the values. */
  lemma RequestBodyDecodes(o: Order)
    ensures DecodeRequestBody(RequestBody(o)) == Some(o) <==> !o.WriteMultiple?
  {
    var w := RequestBody(o);
    JoinSplit(o.reg, 0, 0);
    assert w[0] == o.unit && w[1] == FunctionOf(o) && ToUInt16(w[2], w[3]) == o.reg;
    if o.WriteMultiple? {
      assert |w| == 8;
    } else {
      var x := if o.WriteSingle? then o.value else o.count;
      JoinSplit(x, 0, 0);
      assert |w| == 6 && w[4] == Msb(x) && w[5] == Lsb(x);
      assert ToUInt16(w[4], w[5]) == x;
    }
    hide Msb, Lsb, ToUInt16;
  }

  /**
   The frame sent for a request decodes back to it exactly when it is not a multiple write. Every
   frame leaves the checksum register of its receiver at zero.
   */
  lemma RequestDecodes(o: Order)
    ensures DecodeRequest(RequestFrame(o)) == Some(o) <==> !o.WriteMultiple?
    ensures Crc.TableRun(Crc.INIT, RequestFrame(o)) == Crc.State(0, 0)
  {
    var body, w := RequestBody(o), RequestFrame(o);
    TwoBytes(body);
    Crc.ResidueIsZero(body);
    RequestBodyDecodes(o);
    hide Crc.Checksum, Crc.TableRun, RequestBody, DecodeRequestBody;
    assert w[..|w| - 2] == body && w[|w| - 2..] == Crc.Checksum(body);
  }
}
