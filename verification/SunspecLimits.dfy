/** Limits and frames of SunspecUpdater in the registers of a device (sunspec_updater.cpp). */
module SunspecLimits {
  import opened Bytes
  import opened Modbus
  import opened SunspecPolling

  // ---- The registers of a device. ----

  type Memory = u16 -> u16

  /** What the device has in its registers after a write. */
  function Written(m: Memory, start: u16, values: seq<u16>): Memory {
    (r: u16) => if start <= r < start + |values| then values[r - start] else m(r)
  }

  function ReadFrom(m: Memory, start: u16, count: u16): (values: seq<u16>)
    requires start + count <= 0x1_0000
    ensures |values| == count
  {
    seq(count, i requires 0 <= i < count => m(start + i))
  }

  /** The device after it has carried out the write of a limit. */
  function AfterLimit(d: Device, s: State, m: Memory): Memory {
    var w := RequestFor(d, s, WritePowerLimit);
    Written(m, w.start, w.values)
  }

  /** What the updater then reads from it. */
  function LimitRead(d: Device, s: State, m: Memory): Option<real>
    requires d.immediateControlOffset < 0xFFF0
  {
    var r := RequestFor(d, s, ReadPowerLimit);
    if r.start + r.count > 0x1_0000 || r.count != 5 then None else LimitOf(d, ReadFrom(m, r.start, r.count))
  }

  /**
   The immediate controls begin with a header of two registers; the limit is at 3 behind it, what follows up to
   the switch at 7 is read and written with it, and the switch alone is written to end a limit.
   */
  lemma LimitRegisters(d: Device, s: State)
    requires d.immediateControlOffset < 0xFFF0
    ensures var at := d.immediateControlOffset + 2;
            && RequestFor(d, s, ReadPowerLimit) == Read(at + 3, 5)
            && var w := RequestFor(d, s, WritePowerLimit);
               if s.limitPct < 100.0 then w == Write(at + 3, [LimitRegister(d, s.limitPct), 0, 120, 0, 1])
               else w == Write(at + 7, [0])
  {
    hide LimitRegister;
  }

  /** Whatever else the device holds: a limit that is written is the one that is read, or the maximum power if it was ended. */
  lemma {:induction false} WrittenLimitIsRead(d: Device, s: State, m: Memory)
    requires d.immediateControlOffset < 0xFFF0 && d.powerLimitScale >= 100.0
    ensures LimitRead(d, s, AfterLimit(d, s, m)) ==
            if s.limitPct < 100.0 then LimitOf(d, [LimitRegister(d, s.limitPct), 0, 120, 0, 1]) else Some(d.maxPower)
  {
    hide LimitRegister, RequestFor;
    LimitRegisters(d, s);
    var at: u16 := d.immediateControlOffset + 5;
    var values := ReadFrom(AfterLimit(d, s, m), at, 5);
    if s.limitPct < 100.0 {
      assert values == [LimitRegister(d, s.limitPct), 0, 120, 0, 1];
    } else {
      assert values[4] == 0;
    }
  }

  // ---- The fraction that is written. ----

  /** A limit is kept as a fraction of the maximum power, between none and a hundred times of it. */
  lemma LimitFraction(value: real, maxPower: real)
    requires maxPower > 0.0
    ensures var f := FractionOf(value, maxPower);
            && 0.0 <= f <= 100.0
            && (0.0 <= value <= 100.0 * maxPower ==> f * maxPower == value)
            && (value <= 0.0 ==> f == 0.0) && (value >= 100.0 * maxPower ==> f == 100.0)
  {
    Quotient(value, maxPower);
    InBounds(value, maxPower, value / maxPower);
  }

  lemma InBounds(value: real, m: real, q: real)
    requires m > 0.0 && m * q == value
    ensures var f := Bound(q);
            && 0.0 <= f <= 100.0
            && (0.0 <= value <= 100.0 * m ==> f * m == value)
            && (value <= 0.0 ==> f == 0.0) && (value >= 100.0 * m ==> f == 100.0)
  {
    FractionOrder(value, m, q);
    Sign(value, m, q);
    assert value - 100.0 * m == m * (q - 100.0);
    Sign(value - 100.0 * m, m, q - 100.0);
  }

  lemma Sign(value: real, m: real, q: real)
    requires m > 0.0 && m * q == value
    ensures (value <= 0.0 <==> q <= 0.0) && (value >= 0.0 <==> q >= 0.0)
  {
  }

  /** A limit up to the maximum power, requested and written, is read back from the device up to half a step. */
  lemma {:induction false} RequestedLimitIsRead(d: Device, s: State, m: Memory, value: real)
    requires d.immediateControlOffset < 0xFFF0 && d.maxPower > 0.0 && 100.0 <= d.powerLimitScale < 65534.5
    requires 0.0 <= value <= d.maxPower && s.limitPct == FractionOf(value, d.maxPower)
    ensures var limit := LimitRead(d, s, AfterLimit(d, s, m));
            limit.Some? && -d.maxPower <= 2.0 * d.powerLimitScale * (limit.value - value) <= d.maxPower
  {
    hide LimitRegister, LimitOf, AfterLimit, LimitRead, FractionOf;
    LimitFraction(value, d.maxPower);
    NotWhole(value, d.maxPower, s.limitPct);
    WrittenLimitIsRead(d, s, m);
    ValueRoundTrip(d, value, [0, 120, 0, 1]);
    assert [LimitRegister(d, s.limitPct)] + [0, 120, 0, 1] == [LimitRegister(d, s.limitPct), 0, 120, 0, 1];
  }

  lemma NotWhole(value: real, m: real, f: real)
    requires m > 0.0 && value <= m && f * m == value
    ensures f < 100.0
  {
  }

  /** Without a maximum power the quotient is none, an infinity, or not a number. */
  lemma NoMaximum(value: real)
    ensures FractionOf(value, 0.0) == if value > 0.0 then 100.0 else 0.0
  {
  }

  // ---- Which frames are accepted. ----

  /** The protocol and the phases of an inverter model. */
  predicate IsModelOf(id: u16, d: Device) {
    && (d.float <==> id in {111, 112, 113})
    && ((id == 101 || id == 111) ==> d.phaseCount == 1)
    && ((id == 102 || id == 112) ==> d.phaseCount == 2)
    && ((id == 103 || id == 113) ==> d.phaseCount == 3)
  }

  /** A frame of an inverter model is that of the device if it has its protocol and phases. */
  lemma SameModelIs(d: Device, values: seq<u16>)
    requires values != [] && values[0] in {101, 102, 103, 111, 112, 113}
    ensures SameModel(d, values) <==> IsModelOf(values[0], d)
  {
  }

  /** It is accepted if it has also the size that was asked for: 50 registers, or 60 of floating point, and the header. */
  lemma AcceptedSize(d: Device, s: State, values: seq<u16>, usable: bool)
    requires values != [] && values[0] in {101, 102, 103, 111, 112, 113}
    ensures RequestFor(d, s, ReadPowerAndVoltage) == Read(d.inverterModelOffset, if d.float then 62 else 52)
    ensures Accepted(d, values, usable) <==>
            usable && IsModelOf(values[0], d) && |values| == RequestFor(d, s, ReadPowerAndVoltage).count
  {
    SameModelIs(d, values);
  }

  /**
   What follows a monitor frame: the noted limit or the timer if it is accepted, the timer if it is of another model,
   and the same request again if it is of no use.
   */
  lemma {:induction false} AfterFrame(d: Device, s: State, values: seq<u16>, usable: bool)
    requires OneActivity(s) && s.mode == ReadPowerAndVoltage && s.outstanding != []
    ensures var t := Step(d, s, ReplyOk(0, values, usable));
            && t.retryCount == 0 && t.limitPct == s.limitPct && t.writeRequested == s.writeRequested
            && if values == [] || !usable then t.mode == ReadPowerAndVoltage && t.outstanding == [RequestFor(d, s, ReadPowerAndVoltage)]
               else if Accepted(d, values, usable) then
                 if s.writeRequested then t.mode == WritePowerLimit && t.outstanding == [RequestFor(d, s, WritePowerLimit)]
                 else t.mode == Idle && t.timer && t.outstanding == []
               else if !SameModel(d, values) then t.mode == Idle && t.timer && t.outstanding == []
               else t.mode == ReadPowerAndVoltage && t.outstanding == [RequestFor(d, s, ReadPowerAndVoltage)]
  {
    hide SameModel;
    assert Without(s.outstanding, 0) == [];
  }

  /** The timer repeats the state, or starts a cycle with the limit if it can be set; without a connection it connects. */
  lemma TimerRepeats(d: Device, s: State)
    requires s.timer && (s.link == Up || s.outstanding == [])
    ensures var t := Step(d, s, TimerFires);
            var mode := if s.mode != Idle then s.mode else if d.limitable then ReadPowerLimit else ReadPowerAndVoltage;
            && !t.timer
            && if s.link == Up then t.mode == mode && t.outstanding == s.outstanding + [RequestFor(d, s, mode)]
               else t.link == Connecting && t.mode == s.mode && t.outstanding == []
  {
    hide LimitRegister;
  }

  // ---- Errors. ----

  function Errors(s: State, n: nat): State {
    if n == 0 then s else HandleError(Errors(s, n - 1))
  }

  /** Every sixth error in a row loses the connection, and the count starts over. */
  lemma {:induction false} SixErrorsLoseTheConnection(s: State, n: nat)
    requires s.retryCount <= 5
    ensures var t := Errors(s, n);
            && t.connectionsLost == s.connectionsLost + (s.retryCount + n) / 6 && t.retryCount == (s.retryCount + n) % 6
            && (n > 0 ==> t.timer) && t == s.(retryCount := t.retryCount, connectionsLost := t.connectionsLost, timer := t.timer)
  {
    if n > 0 {
      SixErrorsLoseTheConnection(s, n - 1);
    }
  }
}
