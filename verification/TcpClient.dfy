/** The Modbus TCP client as the source runs it, in place, proved against the functions of TcpModel. */
module Tcp {
  import opened Bytes
  import opened Modbus
  import opened M = TcpModel

  class ModbusTcpClient {
    var buffer: seq<byte>
    var transactionId: u16
    var pendingReplies: map<u16, nat>
    // the reply objects created so far
    var replies: seq<Reply>
    // what was written to the socket
    var written: seq<seq<byte>>

    ghost function Transactions(): Table
      reads this
    {
      Table(replies, pendingReplies, transactionId)
    }

    /** Table entries refer to existing replies. */
    ghost predicate Valid()
      reads this
    {
      forall id | id in pendingReplies :: pendingReplies[id] < |replies|
    }

    constructor ()
      ensures Valid() && Transactions() == Table([], map[], 0) && buffer == [] && written == []
    {
      buffer, transactionId, pendingReplies, replies, written := [], 0, map[], [], [];
    }

    method CreateFrame(o: Order, count: byte) returns (frame: seq<byte>)
      modifies `transactionId
      ensures transactionId == Wrap16(old(transactionId) + 1)
      ensures frame == Header(transactionId, o, count)
    {
      transactionId := Wrap16(transactionId + 1);
      frame := [Msb(transactionId), Lsb(transactionId), 0, 0, 0, Wrap8(count + 2), o.unit, FunctionOf(o)];
    }

    method SendFrame(frame: seq<byte>) returns (reply: nat)
      requires Valid()
      modifies `replies, `pendingReplies, `written
      ensures Valid() && reply == old(|replies|) && written == old(written) + [frame]
      ensures replies == old(replies) + [Reply(transactionId, true, None, 0, true)]
      ensures pendingReplies == old(pendingReplies)[transactionId := reply]
    {
      reply := |replies|;
      replies := replies + [Reply(transactionId, true, None, 0, true)];
      pendingReplies := pendingReplies[transactionId := reply];
      written := written + [frame];
    }

    method ReadRegisters(o: Order) returns (reply: nat)
      requires Valid() && (o.ReadHolding? || o.ReadInput?)
      modifies this
      ensures Valid() && buffer == old(buffer) && reply == old(|replies|)
      ensures Transactions() == M.SendFrame(old(Transactions()))
      ensures written == old(written) + [Frame(transactionId, o)]
    {
      hide Msb, Lsb, Wrap16, Wrap8;
      var frame := CreateFrame(o, 4);
      frame := frame + [Msb(o.reg), Lsb(o.reg), Msb(o.count), Lsb(o.count)];
      reply := SendFrame(frame);
    }

    method WriteSingleHoldingRegister(o: Order) returns (reply: nat)
      requires Valid() && o.WriteSingle?
      modifies this
      ensures Valid() && buffer == old(buffer) && reply == old(|replies|)
      ensures Transactions() == M.SendFrame(old(Transactions()))
      ensures written == old(written) + [Frame(transactionId, o)]
    {
      hide Msb, Lsb, Wrap16, Wrap8;
      var frame := CreateFrame(o, 4);
      frame := frame + [Msb(o.reg), Lsb(o.reg), Msb(o.value), Lsb(o.value)];
      reply := SendFrame(frame);
    }

    method WriteMultipleHoldingRegisters(o: Order) returns (reply: nat)
      requires Valid() && o.WriteMultiple?
      modifies this
      ensures Valid() && buffer == old(buffer) && reply == old(|replies|)
      ensures Transactions() == M.SendFrame(old(Transactions()))
      ensures written == old(written) + [Frame(transactionId, o)]
    {
      hide Msb, Lsb, Wrap16, Wrap8, RegisterBytes;
      var values := o.values;
      var frame := CreateFrame(o, Wrap8(5 + 2 * |values|));
      WrapTwice(5 + 2 * |values|);
      var n := Wrap16(|values|);
      frame := frame + [Msb(o.reg), Lsb(o.reg), Msb(n), Lsb(n), Wrap8(2 * |values|)];
      ghost var head := frame;
      RegisterBytesNone();
      for i := 0 to |values|
        invariant frame == head + RegisterBytes(values[..i])
        modifies {}
      {
        RegisterBytesAppend(values[..i], values[i]);
        assert values[..i + 1] == values[..i] + [values[i]];
        frame := frame + [Msb(values[i]), Lsb(values[i])];
      }
      assert values[..|values|] == values;
      assert frame == Frame(transactionId, o);
      reply := SendFrame(frame);
    }

    method PopReply(tid: u16) returns (reply: Option<nat>)
      requires Valid()
      modifies `pendingReplies
      ensures Valid() && pendingReplies == Remove(old(pendingReplies), tid)
      ensures reply == if tid in old(pendingReplies) then Some(old(pendingReplies)[tid]) else None
    {
      if tid !in pendingReplies {
        return None;
      }
      reply := Some(pendingReplies[tid]);
      pendingReplies := Remove(pendingReplies, tid);
    }

    /** ModbusReply::setResult, both overloads: guarded by isFinished, it stops the timer and signals. */
    method SetResult(s: nat, o: Outcome)
      requires s < |replies|
      modifies `replies
      ensures replies == old(replies)[s := M.SetResult(old(replies)[s], o)]
    {
      var r := replies[s];
      if !r.timer {
        return;
      }
      r := r.(result := Some(o));
      r := r.(timer := false);
      replies := replies[s := r.(signals := r.signals + 1)];
    }

    method SetFinished(c: Call)
      requires Valid()
      modifies `replies, `pendingReplies
      ensures Valid() && Transactions() == Finish(old(Transactions()), c)
    {
      var reply := PopReply(c.tid);
      if reply.Some? {
        SetResult(reply.value, c.outcome);
      }
    }

    method ReadValues(i0: nat, i1: nat) returns (values: seq<u16>)
      requires i0 <= i1
      ensures values == RegistersAt(buffer, i0, i1)
    {
      values := [];
      var i := i0;
      while i < i1
        invariant i0 <= i <= i1 + 1
        invariant values + RegistersAt(buffer, i, i1) == RegistersAt(buffer, i0, i1)
        decreases i1 - i
      {
        values := values + [ToUInt16(At(buffer, i), At(buffer, i + 1))];
        i := i + 2;
      }
    }

    /** The body of the loop in onReadyRead, short of the removal of the frame. */
    method HandleFrame(length: nat)
      requires Valid() && HasFrame(buffer) && length == FrameLength(buffer)
      modifies `replies, `pendingReplies
      ensures Valid() && Transactions() == FinishAll(old(Transactions()), Dispatch(buffer))
    {
      hide RegistersAt, Finish, ToUInt16;
      var tid := ToUInt16(buffer[0], buffer[1]);
      var fn := At(buffer, 7);
      ghost var calls := Dispatch(buffer);
      OneCall(Transactions(), calls);
      if fn < 0x80 {
        if fn == 3 || fn == 4 {
          if |buffer| > 8 {
            var i1: nat := 9 + At(buffer, 8) as nat;
            if i1 == length {
              var values := ReadValues(9, i1);
              SetFinished(M.Call.SetFinished(tid, Values(values)));
              return;
            }
          }
          SetFinished(M.Call.SetFinished(tid, Error(PARSE_ERROR)));
        } else if fn == 6 {
          if |buffer| > 11 {
            SetFinished(M.Call.SetFinished(tid, Values([ToUInt16(buffer[10], buffer[11])])));
          } else {
            SetFinished(M.Call.SetFinished(tid, Error(PARSE_ERROR)));
          }
        } else if fn == 16 {
          if |buffer| == 12 {
            SetFinished(M.Call.SetFinished(tid, Values([])));
          } else {
            SetFinished(M.Call.SetFinished(tid, Error(PARSE_ERROR)));
          }
        }
      } else {
        if |buffer| > 8 {
          SetFinished(M.Call.SetFinished(tid, Error(buffer[8])));
        } else {
          SetFinished(M.Call.SetFinished(tid, Error(PARSE_ERROR)));
        }
      }
    }

    method OnReadyRead(delivery: seq<byte>)
      requires Valid()
      modifies `buffer, `replies, `pendingReplies
      ensures Valid()
      ensures var (calls, rest) := Drain(old(buffer) + delivery);
              buffer == rest && Transactions() == FinishAll(old(Transactions()), calls)
    {
      hide Dispatch, FrameLength, Finish;
      buffer := buffer + delivery;
      ghost var all, t0 := buffer, Transactions();
      ghost var done: seq<Call> := [];
      while |buffer| >= 6 && |buffer| >= FrameLength(buffer)
        invariant Valid()
        invariant Drain(all).0 == done + Drain(buffer).0 && Drain(all).1 == Drain(buffer).1
        invariant Transactions() == FinishAll(t0, done)
        decreases |buffer|
      {
        var length := FrameLength(buffer);
        ghost var calls := Dispatch(buffer);
        HandleFrame(length);
        FinishAllConcat(t0, done, calls);
        done := done + calls;
        buffer := buffer[length..];
      }
      assert done + [] == done;
    }

    method OnSocketError()
      requires Valid()
      modifies `replies, `pendingReplies
      ensures Valid() && Transactions() == SocketError(old(Transactions()))
    {
      ghost var t := Transactions();
      var todo := pendingReplies.Keys;
      ghost var done: set<nat> := {};
      while todo != {}
        invariant Valid() && pendingReplies == t.pending && transactionId == t.tid && |replies| == |t.replies|
        invariant todo <= t.pending.Keys
        invariant done == set id | id in t.pending && id !in todo :: t.pending[id]
        invariant forall s | 0 <= s < |replies| ::
                    replies[s] == if s in done then M.SetResult(t.replies[s], Error(TCP_ERROR)) else t.replies[s]
        decreases todo
      {
        var id :| id in todo;
        var s := pendingReplies[id];
        SetResult(s, Error(TCP_ERROR));
        todo := todo - {id};
        done := done + {s};
      }
      assert done == t.pending.Values;
      pendingReplies := map[];
      assert replies == SocketError(t).replies;
    }

    method OnReplyDestroyed(s: nat)
      requires Valid() && s < |replies|
      modifies `replies, `pendingReplies
      ensures Valid() && Transactions() == Destroyed(old(Transactions()), s)
    {
      replies := replies[s := replies[s].(timer := false, alive := false)];
      pendingReplies := Remove(pendingReplies, replies[s].tid);
    }

    method ReplyTimerEvent(s: nat)
      requires Valid() && s < |replies|
      modifies `replies
      ensures Valid() && Transactions() == TimerEvent(old(Transactions()), s)
    {
      SetResult(s, Error(TIMEOUT));
    }
  }

  lemma WrapTwice(n: nat)
    ensures Wrap8(Wrap8(n)) == Wrap8(n)
  {
  }

  lemma RegisterBytesNone()
    ensures RegisterBytes([]) == []
  {
  }

  lemma RegisterBytesAppend(regs: seq<u16>, r: u16)
    ensures RegisterBytes(regs + [r]) == RegisterBytes(regs) + [Msb(r), Lsb(r)]
  {
    hide Msb, Lsb;
    if regs == [] {
      assert [] + [r] == [r] && [r][1..] == [];
    } else {
      assert (regs + [r])[0] == regs[0] && (regs + [r])[1..] == regs[1..] + [r];
      RegisterBytesAppend(regs[1..], r);
    }
  }

  lemma OneCall(t: Table, calls: seq<Call>)
    requires |calls| <= 1
    ensures FinishAll(t, calls) == if calls == [] then t else Finish(t, calls[0])
  {
    hide Finish;
    if calls != [] {
      assert calls[1..] == [];
    }
  }

  lemma FinishAllConcat(t: Table, a: seq<Call>, b: seq<Call>)
    ensures FinishAll(t, a + b) == FinishAll(FinishAll(t, a), b)
    decreases a
  {
    hide Finish;
    if a == [] {
      assert a + b == b;
    } else {
      assert (a + b)[0] == a[0] && (a + b)[1..] == a[1..] + b;
      FinishAllConcat(Finish(t, a[0]), a[1..], b);
    }
  }
}
