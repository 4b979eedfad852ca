/** SunspecUpdater (sunspec_updater.cpp): each slot is one step of SunspecPolling. */
module SunspecUpdating {
  import opened Bytes
  import opened Modbus
  import opened SunspecPolling

  class SunspecUpdater {
    const device: Device
    var mCurrentState: ModbusState
    var mPowerLimitPct: real
    var mRetryCount: nat
    var mWritePowerLimitRequested: bool
    var powerLimit: Option<real> // of the inverter
    var timerActive: bool
    var replies: seq<Request> // of the Modbus client, not finished
    var link: Link
    ghost var connectionsLost: nat

    ghost function Abs(): State
      reads this
    {
      State(mCurrentState, mPowerLimitPct, mRetryCount, mWritePowerLimitRequested, powerLimit, timerActive, replies,
            link, connectionsLost)
    }

    constructor (device: Device)
      ensures this.device == device && Abs() == Init()
    {
      this.device := device;
      mCurrentState, mPowerLimitPct, mRetryCount, mWritePowerLimitRequested := Idle, 100.0, 0, false;
      powerLimit, timerActive, replies, link, connectionsLost := None, false, [], Connecting, 0;
    }

    function GetInitState(): ModbusState
      reads this
      ensures GetInitState() == InitState(device)
    {
      if device.limitable then ReadPowerLimit else ReadPowerAndVoltage
    }

    method SendRead(start: u16, count: u16)
      modifies this`replies
      ensures replies == old(replies) + [Read(start, count)]
    {
      replies := replies + [Read(start, count)];
    }

    method SendWrite(start: u16, values: seq<u16>)
      modifies this`replies
      ensures replies == old(replies) + [Write(start, values)]
    {
      replies := replies + [Write(start, values)];
    }

    method Next(state: ModbusState)
      modifies this`mCurrentState, this`replies, this`timerActive
      ensures Abs() == StartNextAction(device, old(Abs()), state)
    {
      mCurrentState := state;
      match mCurrentState {
        case ReadPowerLimit =>
          SendRead(Wrap16(device.immediateControlOffset as int + 5), 5);
        case ReadPowerAndVoltage =>
          if device.float {
            SendRead(device.inverterModelOffset, 62);
          } else {
            SendRead(device.inverterModelOffset, 52);
          }
        case WritePowerLimit =>
          if mPowerLimitPct < 100.0 {
            var pct := Wrap16(Steps(mPowerLimitPct, device.powerLimitScale));
            SendWrite(Wrap16(device.immediateControlOffset as int + 5), [pct, 0, POWER_LIMIT_TIMEOUT, 0, 1]);
          } else {
            SendWrite(Wrap16(device.immediateControlOffset as int + 9), [0]);
          }
        case Idle =>
          timerActive := true;
      }
    }

    method OnError()
      modifies this`mRetryCount, this`connectionsLost, this`timerActive
      ensures Abs() == HandleError(old(Abs()))
    {
      mRetryCount := mRetryCount + 1;
      if mRetryCount > 5 {
        mRetryCount := 0;
        connectionsLost := connectionsLost + 1;
      }
      timerActive := true;
    }

    /** onReadCompleted, for a reply that has been taken off the list; None stands for any error. */
    method OnReadCompleted(result: Option<seq<u16>>, usable: bool)
      modifies this
      ensures Abs() == if result.None? then HandleError(old(Abs()))
                       else SunspecPolling.OnReadCompleted(device, old(Abs()), result.value, usable)
    {
      hide StartNextAction, LimitFrom;
      if result.None? {
        OnError();
        return;
      }
      var values := result.value;
      mRetryCount := 0;
      var nextState := mCurrentState;
      match mCurrentState {
        case ReadPowerAndVoltage =>
          if values != [] && usable {
            var modelId := values[0];
            var float, phaseCount := modelId > 103, modelId % 10;
            if float != device.float || phaseCount != device.phaseCount {
              nextState := Idle;
            } else if |values| == (if device.float then 62 else 52) {
              nextState := if mWritePowerLimitRequested then WritePowerLimit else Idle;
            }
          }
        case ReadPowerLimit =>
          if |values| == 5 {
            var limit: Option<real> := None;
            if device.powerLimitScale >= POWER_LIMIT_SCALE {
              if values[4] == 1 {
                if values[0] != 0xFFFF {
                  limit := Some(LimitFrom(values[0] as real, device.maxPower, device.powerLimitScale));
                }
              } else {
                limit := Some(device.maxPower);
              }
            }
            powerLimit := limit;
            nextState := ReadPowerAndVoltage;
          }
        case _ =>
          nextState := GetInitState();
      }
      Next(nextState);
    }

    method OnWriteCompleted()
      modifies this
      ensures Abs() == SunspecPolling.OnWriteCompleted(device, old(Abs()))
    {
      mWritePowerLimitRequested := false;
      Next(GetInitState());
    }

    /** The reply at index i is finished, with a result or with an error. */
    method OnReplyFinished(i: nat, result: Option<seq<u16>>, usable: bool)
      requires i < |replies|
      modifies this
      ensures Abs() == Step(device, old(Abs()), if result.None? then ReplyError(i) else ReplyOk(i, result.value, usable))
    {
      hide SunspecPolling.OnReadCompleted, StartNextAction, HandleError;
      var reply := replies[i];
      replies := replies[..i] + replies[i + 1..];
      if reply.Read? {
        OnReadCompleted(result, usable);
      } else {
        OnWriteCompleted();
      }
    }

    method OnPowerLimitRequested(value: real)
      modifies this
      ensures Abs() == Step(device, old(Abs()), LimitRequested(value))
    {
      hide StartNextAction;
      if device.powerLimitScale < POWER_LIMIT_SCALE {
        return;
      }
      if powerLimit == None {
        return;
      }
      mPowerLimitPct := FractionOf(value, device.maxPower);
      if timerActive {
        timerActive := false;
        if mCurrentState == Idle {
          Next(WritePowerLimit);
          return;
        }
        Next(mCurrentState);
      }
      mWritePowerLimitRequested := true;
    }

    method OnConnected()
      requires link == Connecting
      modifies this
      ensures Abs() == Step(device, old(Abs()), Connected)
    {
      link := Up;
      Next(GetInitState());
    }

    method OnDisconnected()
      modifies this
      ensures Abs() == Step(device, old(Abs()), Disconnected)
    {
      link := Down;
      mCurrentState := GetInitState();
      OnError();
    }

    /** The timer has fired. */
    method OnTimer()
      requires timerActive
      modifies this
      ensures Abs() == Step(device, old(Abs()), TimerFires)
    {
      timerActive := false;
      if link == Up {
        Next(if mCurrentState == Idle then GetInitState() else mCurrentState);
      } else {
        link := Connecting;
      }
    }

    /** The client has lost its socket: it fails the replies that are not finished, and then disconnects. */
    method OnSocketError()
      modifies this
      ensures Abs() == Step(device, old(Abs()), SocketError)
    {
      hide RequestFor;
      var pending := replies;
      link := Down;
      replies := [];
      ghost var s := Abs();
      for i := 0 to |pending|
        invariant FailAll(device, Abs(), pending[i..]) == FailAll(device, s, pending)
        invariant link == Down
      {
        assert pending[i..][1..] == pending[i + 1..];
        if pending[i].Read? {
          OnError();
        } else {
          OnWriteCompleted();
        }
      }
      OnDisconnected();
    }
  }
}
