/**
 The Modbus RTU client (modbus_rtu_client.cpp) as a transition system: requests queue up behind
 the active one, and the answer is recognised one byte at a time. Every function here describes one
 source function on values; module Rtu holds the class that runs them in place.
 */
module RtuModel {
  import opened Bytes
  import opened Modbus
  import Crc

  /** An order with its position in the sequence of submissions: the identity of its reply object. */
  datatype Request = Request(serial: nat, order: Order)

  /** What a reply ends with: registers, or an exception code (0 is NoException). */
  datatype Result = Registers(regs: seq<u16>) | Exception(code: byte)

  datatype Finish = Finish(request: Request, result: Result)

  const TIMEOUT: byte := 254

  datatype ReadState =
    | Idle | Address | Function | ByteCount | StartAddressMsb | StartAddressLsb | Data | CrcMsb | CrcLsb

  /** The fields of the state engine. */
  datatype Receiver = Receiver(
    state: ReadState, unitId: byte, fn: byte, count: byte, startAddress: u16, crc: u16,
    addToCrc: bool, data: seq<byte>)

  /**
   What the environment has seen: replies created, results signalled, frames written to the port, and
   the bytes since the last reset, those that came in while idle and those of the current answer.
   */
  datatype Log = Log(
    submitted: seq<Request>, finished: seq<Finish>, sent: seq<seq<byte>>, stray: seq<byte>, heard: seq<byte>)

  /** The fields of the source's object; fed stands for its checksum builder: the bytes added to it since its reset. */
  datatype Client = Client(
    rx: Receiver, fed: seq<byte>, timer: bool,
    pending: seq<Request>, active: Option<Request>, log: Log)

  /** The bytes of a request before the checksum. */
  function RequestBody(o: Order): seq<byte> {
    [o.unit, FunctionOf(o), Msb(o.reg), Lsb(o.reg)] +
    match o
    case ReadHolding(_, _, count) => [Msb(count), Lsb(count)]
    case ReadInput(_, _, count) => [Msb(count), Lsb(count)]
    case WriteSingle(_, _, value) => [Msb(value), Lsb(value)]
    case WriteMultiple(_, _, values) =>
      var n, m := Wrap16(|values|), Wrap16(2 * |values|);
      [Msb(n), Lsb(n), Msb(m), Lsb(m)]
  }

  function RequestFrame(o: Order): seq<byte> {
    RequestBody(o) + Crc.Checksum(RequestBody(o))
  }

  function ResetStateEngine(c: Client, toIdle: bool): Client {
    var d := c.(rx := c.rx.(state := Address, addToCrc := true, data := []), fed := [],
                 log := c.log.(stray := [], heard := []));
    if toIdle then d.(rx := d.rx.(state := Idle), timer := false) else d
  }

  function Send(c: Client, r: Request): Client {
    if c.rx.state != Idle then
      c.(pending := c.pending + [r])
    else
      c.(active := Some(r), log := c.log.(sent := c.log.sent + [RequestFrame(r.order)]), timer := true,
         rx := c.rx.(state := Address))
  }

  /** A caller creates a reply and sends it. */
  function Submit(c: Client, o: Order): Client {
    var r := Request(|c.log.submitted|, o);
    Send(c.(log := c.log.(submitted := c.log.submitted + [r])), r)
  }

  function SubmitAll(c: Client, orders: seq<Order>): Client {
    if orders == [] then c else Submit(SubmitAll(c, orders[..|orders| - 1]), orders[|orders| - 1])
  }

  function ProcessPending(c: Client): Client {
    if c.pending == [] then
      c.(active := None)
    else
      Send(c.(pending := c.pending[1..]), c.pending[0])
  }

  predicate IsFinished(c: Client, r: Request) {
    exists i | 0 <= i < |c.log.finished| :: c.log.finished[i].request.serial == r.serial
  }

  function Finished(c: Client, result: Result): Client
    requires c.active.Some?
  {
    c.(log := c.log.(finished := c.log.finished + [Finish(c.active.value, result)]))
  }

  /** Finishes the active reply; whoever listens to it submits followUps from within the signal. */
  function SetResult(c: Client, result: Result, followUps: seq<Order>): Client
    requires c.active.Some?
  {
    if IsFinished(c, c.active.value) then c
    else SubmitAll(Finished(c, result), followUps)
  }

  function ResultOf(fn: byte, data: seq<byte>): Option<Result>
    requires fn >= 0x80 ==> |data| >= 1
    requires fn == 6 ==> |data| >= 2
  {
    if fn >= 0x80 then Some(Exception(data[0]))
    else if fn == 3 || fn == 4 then Some(Registers(RegistersOf(data)))
    else if fn == 6 then Some(Registers([ToUInt16(data[0], data[1])]))
    else if fn == 16 then Some(Exception(0))
    else None
  }

  /** The payload is long enough for the function that was received. */
  predicate PayloadReady(c: Client) {
    && (c.rx.fn >= 0x80 ==> |c.rx.data| >= 1)
    && (c.rx.fn == 6 ==> |c.rx.data| >= 2)
  }

  /** The client after a complete packet, and whether the packet was accepted. */
  function ProcessPacket(c: Client, followUps: seq<Order>): (Client, bool)
    requires PayloadReady(c)
  {
    if c.active.None? then (c, true)
    else
      var o := c.active.value.order;
      if c.rx.crc != Crc.Value(c.fed) then (c, false)
      else if c.rx.unitId != o.unit then (c, false)
      else if c.rx.fn % 0x80 != FunctionOf(o) then (c, false)
      else match ResultOf(c.rx.fn, c.rx.data)
        case None => (c, false)
        case Some(result) => (SetResult(c, result, followUps), true)
  }

  /** The byte joins the running checksum, even while idle, unless it belongs to the checksum itself. */
  function Intake(c: Client, b: byte): Client {
    var fed := if c.rx.addToCrc then c.fed + [b] else c.fed;
    if c.rx.state == Idle then c.(fed := fed, log := c.log.(stray := c.log.stray + [b]))
    else c.(fed := fed, log := c.log.(heard := c.log.heard + [b]))
  }

  /** One byte of an answer, short of its last: the new receiver, and whether the byte was rejected. */
  function Advance(r: Receiver, b: byte): (Receiver, bool) {
    match r.state
    case Address => (r.(state := Function, unitId := b), false)
    case Function =>
      if b >= 0x80 then (r.(fn := b, count := 1, state := Data), false)
      else if b == 3 || b == 4 then (r.(fn := b, state := ByteCount), false)
      else if b == 6 || b == 16 then (r.(fn := b, state := StartAddressMsb), false)
      else (r.(fn := b), true)
    case ByteCount =>
      if b == 0 then (r.(count := b, state := CrcMsb, addToCrc := false), false)
      else (r.(count := b, state := Data), false)
    case StartAddressMsb => (r.(startAddress := ToUInt16(b, 0), state := StartAddressLsb), false)
    case StartAddressLsb => (r.(startAddress := ToUInt16(Msb(r.startAddress), b), count := 2, state := Data), false)
    case Data =>
      var q := if r.count > 0 then r.(data := r.data + [b], count := r.count - 1) else r;
      (if q.count == 0 then q.(state := CrcMsb, addToCrc := false) else q, false)
    case CrcMsb => (r.(crc := ToUInt16(b, 0), state := CrcLsb), false)
    case _ => (r, false)
  }

  /** The last byte of a packet: it is judged, and the receiver starts over. */
  function EndPacket(c: Client, b: byte, followUps: seq<Order>): Client
    requires PayloadReady(c)
  {
    var (d, accepted) := ProcessPacket(c.(rx := c.rx.(crc := ToUInt16(Msb(c.rx.crc), b))), followUps);
    if accepted then ProcessPending(ResetStateEngine(d, true)) else ResetStateEngine(d, false)
  }

  function HandleByte(c0: Client, b: byte, followUps: seq<Order>): Client
    requires c0.rx.state == CrcLsb ==> PayloadReady(c0)
  {
    var c := Intake(c0, b);
    if c.rx.state == CrcLsb then EndPacket(c, b, followUps)
    else
      var (r, rejected) := Advance(c.rx, b);
      var d := c.(rx := r);
      if rejected then ResetStateEngine(d, false) else d
  }

  function OnTimeout(c: Client, followUps: seq<Order>): Client {
    if c.rx.state == Idle || c.active.None? then c
    else ProcessPending(ResetStateEngine(SetResult(c, Exception(TIMEOUT), followUps), true))
  }

  /** What can happen to the client. */
  datatype Event =
    | Submitted(order: Order)
    | Received(b: byte, followUps: seq<Order>)
    | TimedOut(followUps: seq<Order>)

  function Step(c: Client, e: Event): Client
    requires c.rx.state == CrcLsb ==> PayloadReady(c)
  {
    match e
    case Submitted(o) => Submit(c, o)
    case Received(b, followUps) => HandleByte(c, b, followUps)
    case TimedOut(followUps) => OnTimeout(c, followUps)
  }

  // ---- The queue. ----

  function Requests(fs: seq<Finish>): (rs: seq<Request>)
    ensures |rs| == |fs|
  {
    seq(|fs|, i requires 0 <= i < |fs| => fs[i].request)
  }

  function ActiveSeq(a: Option<Request>): seq<Request> {
    if a.None? then [] else [a.value]
  }

  /** Every submitted request is, in order, finished, active or pending. */
  predicate Conserved(c: Client) {
    && c.log.submitted == Requests(c.log.finished) + ActiveSeq(c.active) + c.pending
    && forall i | 0 <= i < |c.log.submitted| :: c.log.submitted[i].serial == i
  }

  /** The client waits for an answer exactly if it has an active request, and then its timer runs. */
  predicate QueueInv(c: Client) {
    && Conserved(c)
    && (c.rx.state == Idle <==> c.active.None?)
    && (c.rx.state == Idle ==> c.pending == [])
    && (c.timer <==> c.rx.state != Idle)
  }

  // ---- The receiver: its state is a function of the bytes heard since the last reset. ----

  /** Where the payload begins, for the function code f. */
  function DataStart(f: byte): nat {
    if f >= 0x80 then 2 else if f == 3 || f == 4 then 3 else 4
  }

  predicate KnownFunction(f: byte) {
    f >= 0x80 || f == 3 || f == 4 || f == 6 || f == 16
  }

  predicate IsRead(f: byte) {
    f == 3 || f == 4
  }

  /** The length is known: the function code, and for reads the byte count, have arrived. */
  predicate LengthKnown(w: seq<byte>) {
    |w| >= 2 && (IsRead(w[1]) ==> |w| >= 3)
  }

  /** The number of bytes from the address up to the payload, as the bytes themselves announce it. */
  function BodyLength(w: seq<byte>): (n: nat)
    requires LengthKnown(w)
    ensures n >= 3
  {
    var count: nat := if IsRead(w[1]) then w[2] else 0;
    if w[1] >= 0x80 then 3 else if IsRead(w[1]) then 3 + count else 6
  }

  /** A proper beginning of an answer that the receiver has not rejected. */
  predicate Partial(w: seq<byte>) {
    && (|w| >= 2 ==> KnownFunction(w[1]))
    && (LengthKnown(w) ==> |w| < BodyLength(w) + 2)
  }

  function StateOf(w: seq<byte>): ReadState
    requires Partial(w)
  {
    if |w| == 0 then Address
    else if |w| == 1 then Function
    else if !LengthKnown(w) then ByteCount
    else if |w| == BodyLength(w) then CrcMsb
    else if |w| == BodyLength(w) + 1 then CrcLsb
    else if w[1] < 0x80 && !IsRead(w[1]) && |w| == 2 then StartAddressMsb
    else if w[1] < 0x80 && !IsRead(w[1]) && |w| == 3 then StartAddressLsb
    else Data
  }

  /** The part of w that the checksum covers. */
  function Covered(w: seq<byte>): seq<byte> {
    if LengthKnown(w) && |w| >= BodyLength(w) then w[..BodyLength(w)] else w
  }

  function PayloadOf(w: seq<byte>): seq<byte> {
    if LengthKnown(w) && |Covered(w)| >= DataStart(w[1]) then Covered(w)[DataStart(w[1])..] else []
  }

  predicate ReceiverInv(c: Client) {
    && Partial(c.log.heard)
    && c.fed == c.log.stray + Covered(c.log.heard)
    && c.rx.addToCrc == !(LengthKnown(c.log.heard) && |c.log.heard| >= BodyLength(c.log.heard))
    && c.rx.data == PayloadOf(c.log.heard)
    && (if c.rx.state == Idle then c.log.heard == [] else c.rx.state == StateOf(c.log.heard))
    && (|c.log.heard| >= 1 ==> c.rx.unitId == c.log.heard[0])
    && (|c.log.heard| >= 2 ==> c.rx.fn == c.log.heard[1])
    && (c.rx.state == Data ==> c.rx.count == BodyLength(c.log.heard) - |c.log.heard|)
    && (c.rx.state == CrcLsb ==> c.rx.crc == ToUInt16(c.log.heard[|c.log.heard| - 1], 0))
  }

  predicate Inv(c: Client) {
    QueueInv(c) && ReceiverInv(c)
  }

  predicate IsInitial(c: Client) {
    && c.rx.state == Idle && c.fed == [] && c.rx.addToCrc && c.rx.data == [] && !c.timer
    && c.pending == [] && c.active == None && c.log.submitted == [] && c.log.finished == [] && c.log.sent == []
    && c.log.stray == [] && c.log.heard == []
  }
}
