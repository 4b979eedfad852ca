/** The Modbus RTU client as the source runs it, in place, proved against the functions of RtuModel. */
module Rtu {
  import opened Bytes
  import opened Modbus
  import opened M = RtuModel
  import Crc
  import Proofs = RtuProofs

  class ModbusRtuClient {
    // state engine
    var state: ReadState
    var fn: byte
    var count: byte
    var unitId: byte
    var startAddress: u16
    var crc: u16
    const crcBuilder: Crc.Crc16
    var addToCrc: bool
    var data: seq<byte>

    var timerActive: bool
    var pendingCommands: seq<Request>
    var activeReply: Option<Request>

    var log: Log

    ghost function Rx(): Receiver
      reads this
    {
      Receiver(state, unitId, fn, count, startAddress, crc, addToCrc, data)
    }

    ghost function Abs(): Client
      reads this, crcBuilder
    {
      Client(Rx(), crcBuilder.fed, timerActive, pendingCommands, activeReply, log)
    }

    ghost predicate Valid()
      reads this, crcBuilder
    {
      crcBuilder.Valid()
    }

    constructor ()
      ensures Valid() && IsInitial(Abs()) && Inv(Abs()) && fresh(crcBuilder)
    {
      crcBuilder := new Crc.Crc16();
      activeReply := None;
      state, addToCrc, data, timerActive := Idle, true, [], false;
      fn, count, unitId, startAddress, crc := 0, 0, 0, 0, 0;
      pendingCommands, log := [], Log([], [], [], [], []);
      new;
      Proofs.InitialInv(Abs());
    }

    method ResetStateEngine(toIdle: bool)
      requires Valid()
      modifies this, crcBuilder
      ensures Valid()
      ensures Abs() == M.ResetStateEngine(old(Abs()), toIdle)
    {
      hide Crc.Crc16.Valid;
      crcBuilder.Reset();
      state, addToCrc, data, log := Address, true, [], log.(stray := [], heard := []);
      if toIdle {
        state, timerActive := Idle, false;
      }
    }

    method Body(o: Order) returns (frame: seq<byte>)
      ensures frame == RequestBody(o)
    {
      frame := [o.unit, FunctionOf(o)];
      match o {
        case ReadHolding(_, reg, n) =>
          frame := frame + [Msb(reg), Lsb(reg), Msb(n), Lsb(n)];
        case ReadInput(_, reg, n) =>
          frame := frame + [Msb(reg), Lsb(reg), Msb(n), Lsb(n)];
        case WriteSingle(_, reg, value) =>
          frame := frame + [Msb(reg), Lsb(reg), Msb(value), Lsb(value)];
        case WriteMultiple(_, reg, values) =>
          var n, m := Wrap16(|values|), Wrap16(2 * |values|);
          frame := frame + [Msb(reg), Lsb(reg), Msb(n), Lsb(n), Msb(m), Lsb(m)];
      }
    }

    method Send(reply: Request)
      requires Valid()
      modifies this
      ensures Valid()
      ensures Abs() == M.Send(old(Abs()), reply)
    {
      hide Crc.Crc16.Valid, Crc.Value, Crc.Checksum, RequestBody;
      if state != Idle {
        pendingCommands := pendingCommands + [reply];
        return;
      }
      var frame := Body(reply.order);
      activeReply := Some(reply);
      var checksum := Crc.Crc16.Compute(frame);
      ValueBytes(frame);
      frame := frame + [Msb(checksum), Lsb(checksum)];
      log := log.(sent := log.sent + [frame]);
      timerActive := true;
      state := Address;
    }

    /** readRegisters and the write functions: create a reply and send it. */
    method Submit(order: Order)
      requires Valid()
      modifies this
      ensures Valid()
      ensures Abs() == M.Submit(old(Abs()), order)
    {
      hide Crc.Crc16.Valid;
      var r := Request(|log.submitted|, order);
      log := log.(submitted := log.submitted + [r]);
      Send(r);
    }

    method ProcessPending()
      requires Valid()
      modifies this
      ensures Valid()
      ensures Abs() == M.ProcessPending(old(Abs()))
    {
      hide Crc.Crc16.Valid;
      if pendingCommands == [] {
        activeReply := None;
        return;
      }
      var cmd := pendingCommands[0];
      pendingCommands := pendingCommands[1..];
      Send(cmd);
    }

    /** setResult on the active reply; its listener submits followUps from within the signal. */
    method SetResult(result: Result, followUps: seq<Order>)
      requires activeReply.Some? && Conserved(Abs())
      requires Valid()
      modifies this
      ensures Valid()
      ensures Abs() == M.SetResult(old(Abs()), result, followUps)
    {
      hide Crc.Crc16.Valid, M.Submit;
      Proofs.ActiveIsUnfinished(Abs());
      log := log.(finished := log.finished + [Finish(activeReply.value, result)]);
      ghost var c := Abs();
      for i := 0 to |followUps|
        invariant Abs() == SubmitAll(c, followUps[..i])
      {
        assert followUps[..i + 1][..i] == followUps[..i];
        Submit(followUps[i]);
      }
      assert followUps[..|followUps|] == followUps;
    }

    method ReadRegisterList() returns (registers: seq<u16>)
      ensures registers == RegistersOf(data)
    {
      registers := [];
      var i := 0;
      while i < |data|
        invariant 0 <= i <= |data| + 1
        invariant registers + RegistersOf(if i <= |data| then data[i..] else []) == RegistersOf(data)
      {
        ghost var rest := data[i..];
        var low := if i + 1 < |data| then data[i + 1] else 0;
        registers := registers + [ToUInt16(data[i], low)];
        if |rest| >= 2 {
          assert rest[2..] == data[i + 2..];
        }
        i := i + 2;
      }
    }

    method ProcessPacket(followUps: seq<Order>) returns (accepted: bool)
      requires PayloadReady(Abs()) && Conserved(Abs())
      requires Valid()
      modifies this
      ensures Valid()
      ensures (Abs(), accepted) == M.ProcessPacket(old(Abs()), followUps)
    {
      hide Crc.Crc16.Valid, M.SetResult, Conserved, RegistersOf;
      if activeReply.None? {
        return true;
      }
      var checksum := crcBuilder.GetValue();
      if crc != checksum {
        return false;
      }
      if unitId != activeReply.value.order.unit {
        return false;
      }
      if fn % 0x80 != FunctionOf(activeReply.value.order) {
        return false;
      }
      if fn >= 0x80 {
        SetResult(Exception(data[0]), followUps);
        return true;
      }
      if fn == 3 || fn == 4 {
        var registers := ReadRegisterList();
        SetResult(Registers(registers), followUps);
      } else if fn == 6 {
        SetResult(Registers([ToUInt16(data[0], data[1])]), followUps);
      } else if fn == 16 {
        SetResult(Exception(0), followUps);
      } else {
        return false;
      }
      return true;
    }

    /** The first statement of handleByteRead, with the record of what came in. */
    method Intake(b: byte)
      requires Valid()
      modifies this, crcBuilder
      ensures Valid()
      ensures Abs() == M.Intake(old(Abs()), b)
    {
      hide Crc.Crc16.Valid;
      if addToCrc {
        crcBuilder.Add(b);
      }
      if state == Idle {
        log := log.(stray := log.stray + [b]);
      } else {
        log := log.(heard := log.heard + [b]);
      }
    }

    /** The CrcLsb case of handleByteRead. */
    method EndPacket(b: byte, followUps: seq<Order>)
      requires PayloadReady(Abs()) && Conserved(Abs())
      requires Valid()
      modifies this, crcBuilder
      ensures Valid()
      ensures Abs() == M.EndPacket(old(Abs()), b, followUps)
    {
      hide Crc.Crc16.Valid, M.ProcessPacket, M.ProcessPending, M.ResetStateEngine;
      crc := ToUInt16(Msb(crc), b);
      var accepted := ProcessPacket(followUps);
      if accepted {
        ResetStateEngine(true);
        ProcessPending();
      } else {
        ResetStateEngine(false);
      }
    }

    /** The cases of handleByteRead that only change the state engine; the caller resets it on rejection. */
    method Advance(b: byte) returns (rejected: bool)
      modifies `state, `unitId, `fn, `count, `startAddress, `crc, `addToCrc, `data
      ensures (Rx(), rejected) == M.Advance(old(Rx()), b)
    {
      rejected := false;
      match state {
        case Address =>
          state, unitId := Function, b;
        case Function =>
          fn := b;
          if fn >= 0x80 {
            count, state := 1, Data;
          } else if fn == 3 || fn == 4 {
            state := ByteCount;
          } else if fn == 6 || fn == 16 {
            state := StartAddressMsb;
          } else {
            rejected := true;
          }
        case ByteCount =>
          count := b;
          if count == 0 {
            state, addToCrc := CrcMsb, false;
          } else {
            state := Data;
          }
        case StartAddressMsb =>
          startAddress, state := ToUInt16(b, 0), StartAddressLsb;
        case StartAddressLsb =>
          startAddress, count, state := ToUInt16(Msb(startAddress), b), 2, Data;
        case Data =>
          if count > 0 {
            data, count := data + [b], count - 1;
          }
          if count == 0 {
            state, addToCrc := CrcMsb, false;
          }
        case CrcMsb =>
          crc, state := ToUInt16(b, 0), CrcLsb;
        case _ =>
      }
    }

    method HandleByteRead(b: byte, followUps: seq<Order>)
      requires Valid()
      requires Inv(Abs())
      modifies this, crcBuilder
      ensures Valid()
      ensures Abs() == M.Step(old(Abs()), Received(b, followUps)) && Inv(Abs())
    {
      hide Crc.Crc16.Valid, M.EndPacket, M.ResetStateEngine, Inv, M.Intake, M.Advance;
      ghost var c := Abs();
      Proofs.StepKeepsInv(c, Received(b, followUps));
      IntakeReady(c, b);
      Intake(b);
      if state == CrcLsb {
        EndPacket(b, followUps);
      } else {
        var rejected := Advance(b);
        if rejected {
          ResetStateEngine(false);
        }
      }
    }

    method OnTimeout(followUps: seq<Order>)
      requires Inv(Abs())
      requires Valid()
      modifies this, crcBuilder
      ensures Valid()
      ensures Inv(Abs()) && Abs() == M.OnTimeout(old(Abs()), followUps)
    {
      hide Crc.Crc16.Valid, M.SetResult, M.ProcessPending, Inv;
      Proofs.StepKeepsInv(Abs(), TimedOut(followUps));
      InvConserved(Abs());
      if state == Idle || activeReply.None? {
        return;
      }
      SetResult(Exception(TIMEOUT), followUps);
      ResetStateEngine(true);
      ProcessPending();
    }
  }

  lemma ValueBytes(m: seq<byte>)
    ensures Crc.Checksum(m) == [Msb(Crc.Value(m)), Lsb(Crc.Value(m))]
  {
    var s := Crc.Checksum(m);
    assert |s| == 2;
    assert s == [s[0], s[1]] && Crc.Value(m) == ToUInt16(s[0], s[1]);
    hide Crc.Checksum, Crc.Value;
    JoinSplit(0, s[0], s[1]);
  }

  lemma IntakeReady(c: Client, b: byte)
    requires Inv(c)
    ensures var d := M.Intake(c, b);
            Conserved(d) && (d.rx.state == CrcLsb ==> PayloadReady(d))
  {
    Proofs.StepKeepsInv(c, Received(b, []));
  }

  lemma InvConserved(c: Client)
    requires Inv(c)
    ensures Conserved(c)
  {
  }
}
