/** The Modbus TCP client (modbus_tcp_client.cpp) on values: framing, the transaction table, requests. */
module TcpModel {
  import opened Bytes
  import opened Modbus

  const PARSE_ERROR: byte := 253
  const TIMEOUT: byte := 254
  const TCP_ERROR: byte := 255

  /** What a reply ends with. */
  datatype Outcome = Values(regs: seq<u16>) | Error(code: byte)

  /** One call of setFinished. */
  datatype Call = SetFinished(tid: u16, outcome: Outcome)

  // ---- Receiving. ----

  /** QByteArray's non-const operator[]: zero behind the end. */
  function At(buf: seq<byte>, i: nat): byte {
    if i < |buf| then buf[i] else 0
  }

  predicate HasFrame(buf: seq<byte>) {
    |buf| >= 6 && |buf| >= FrameLength(buf)
  }

  function FrameLength(buf: seq<byte>): (n: nat)
    requires |buf| >= 6
    ensures n >= 6
  {
    ToUInt16(buf[4], buf[5]) + 6
  }

  /** The registers between two offsets, two bytes each. */
  function RegistersAt(buf: seq<byte>, i0: nat, i1: nat): seq<u16>
    decreases i1 - i0
  {
    if i0 >= i1 then [] else [ToUInt16(At(buf, i0), At(buf, i0 + 1))] + RegistersAt(buf, i0 + 2, i1)
  }

  /** The calls that the first frame of the buffer leads to; some tests look at the whole buffer. */
  function Dispatch(buf: seq<byte>): seq<Call>
    requires HasFrame(buf)
  {
    var tid := ToUInt16(buf[0], buf[1]);
    var length := FrameLength(buf);
    var fn := At(buf, 7);
    if fn < 0x80 then
      if fn == 3 || fn == 4 then
        var i1: nat := 9 + At(buf, 8) as nat;
        if |buf| > 8 && i1 == length then [SetFinished(tid, Values(RegistersAt(buf, 9, i1)))]
        else [SetFinished(tid, Error(PARSE_ERROR))]
      else if fn == 6 then
        if |buf| > 11 then [SetFinished(tid, Values([ToUInt16(buf[10], buf[11])]))]
        else [SetFinished(tid, Error(PARSE_ERROR))]
      else if fn == 16 then
        if |buf| == 12 then [SetFinished(tid, Values([]))]
        else [SetFinished(tid, Error(PARSE_ERROR))]
      else []
    else if |buf| > 8 then [SetFinished(tid, Error(buf[8]))]
    else [SetFinished(tid, Error(PARSE_ERROR))]
  }

  /** The loop of onReadyRead: the calls it makes, and the bytes it leaves. */
  function Drain(buf: seq<byte>): (seq<Call>, seq<byte>)
    decreases |buf|
  {
    if !HasFrame(buf) then ([], buf)
    else
      var (calls, rest) := Drain(buf[FrameLength(buf)..]);
      (Dispatch(buf) + calls, rest)
  }

  // ---- The transaction table. ----

  /** A reply object: its id, whether its timer runs, its result, and how often it signalled finished. */
  datatype Reply = Reply(tid: u16, timer: bool, result: Option<Outcome>, signals: nat, alive: bool)

  /** Replies are numbered in the order of creation; the table maps ids to these numbers. */
  datatype Table = Table(replies: seq<Reply>, pending: map<u16, nat>, tid: u16)

  /** setResult: only an unfinished reply, one whose timer runs, takes a result. */
  function SetResult(r: Reply, o: Outcome): Reply {
    if !r.timer then r else r.(timer := false, result := Some(o), signals := r.signals + 1)
  }

  function SetResultAt(t: Table, s: nat, o: Outcome): Table {
    if s < |t.replies| then t.(replies := t.replies[s := SetResult(t.replies[s], o)]) else t
  }

  /** createFrame takes the next id, sendFrame enters a new reply under it. */
  function SendFrame(t: Table): Table {
    var tid := Wrap16(t.tid + 1);
    Table(t.replies + [Reply(tid, true, None, 0, true)], t.pending[tid := |t.replies|], tid)
  }

  function Remove(m: map<u16, nat>, k: u16): map<u16, nat> {
    map x | x in m && x != k :: m[x]
  }

  /** setFinished: the reply under the id, if any, leaves the table and takes the outcome. */
  function Finish(t: Table, c: Call): Table {
    if c.tid !in t.pending then t
    else SetResultAt(t.(pending := Remove(t.pending, c.tid)), t.pending[c.tid], c.outcome)
  }

  function FinishAll(t: Table, calls: seq<Call>): Table
    decreases calls
  {
    if calls == [] then t else FinishAll(Finish(t, calls[0]), calls[1..])
  }

  function TimerEvent(t: Table, s: nat): Table {
    SetResultAt(t, s, Error(TIMEOUT))
  }

  /** Every reply in the table gets a TCP error, and the table is emptied. */
  function SocketError(t: Table): Table {
    t.(replies := seq(|t.replies|, s requires 0 <= s < |t.replies| =>
                        if s in t.pending.Values then SetResult(t.replies[s], Error(TCP_ERROR)) else t.replies[s]),
       pending := map[])
  }

  /** A destroyed reply takes the entry under its id with it, whoever that entry belongs to. */
  function Destroyed(t: Table, s: nat): Table
    requires s < |t.replies|
  {
    t.(replies := t.replies[s := t.replies[s].(timer := false, alive := false)],
       pending := Remove(t.pending, t.replies[s].tid))
  }

  // ---- Requests. ----

  /** The conversion of an int to char. */
  function Wrap8(x: nat): byte {
    x % 0x100
  }

  /** createFrame: count is a quint8, and so is its sum with two. */
  function Header(tid: u16, o: Order, count: nat): seq<byte> {
    [Msb(tid), Lsb(tid), 0, 0, 0, Wrap8(Wrap8(count) + 2), o.unit, FunctionOf(o)]
  }

  /** The frame written for a request. */
  function Frame(tid: u16, o: Order): seq<byte> {
    match o
    case ReadHolding(_, reg, count) => Header(tid, o, 4) + [Msb(reg), Lsb(reg), Msb(count), Lsb(count)]
    case ReadInput(_, reg, count) => Header(tid, o, 4) + [Msb(reg), Lsb(reg), Msb(count), Lsb(count)]
    case WriteSingle(_, reg, value) => Header(tid, o, 4) + [Msb(reg), Lsb(reg), Msb(value), Lsb(value)]
    case WriteMultiple(_, reg, values) =>
      var n := Wrap16(|values|);
      Header(tid, o, 5 + 2 * |values|) + [Msb(reg), Lsb(reg), Msb(n), Lsb(n), Wrap8(2 * |values|)] + RegisterBytes(values)
  }
}
