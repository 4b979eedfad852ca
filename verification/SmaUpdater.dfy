/** SMAUpdater (sma_updater.cpp): each slot is one step of SmaPolling. */
module SmaUpdating {
  import opened Bytes
  import opened Modbus
  import opened SunspecPolling
  import opened SmaPolling

  class SMAUpdater {
    const device: SmaDevice
    var mCurrentState: SmaState
    var mWriteCount: nat
    var mRetryCount: nat
    var mPowerLimitWatt: real
    var loggedIn: bool     // of the inverter, like the next three
    var opState: u16
    var opMode: u16
    var powerLimit: u16
    var timerActive: bool
    var replies: seq<Request> // of the Modbus client, not finished
    var link: Link
    ghost var connectionsLost: nat

    ghost function Abs(): Updater
      reads this
    {
      Updater(mCurrentState, mWriteCount, mRetryCount, mPowerLimitWatt, loggedIn, opState, opMode, powerLimit,
              timerActive, replies, link, connectionsLost)
    }

    constructor (device: SmaDevice, limitWatt: real)
      ensures this.device == device && Abs() == NewUpdater(limitWatt)
    {
      this.device := device;
      mCurrentState, mWriteCount, mRetryCount, mPowerLimitWatt := SmaIdle, 0, 0, limitWatt;
      loggedIn, opState, opMode, powerLimit := false, 0, 0, 0;
      timerActive, replies, link, connectionsLost := false, [], Connecting, 0;
    }

    method SendRead(start: u16, count: u16)
      modifies this`replies
      ensures replies == old(replies) + [Read(start, count)]
    {
      replies := replies + [Read(start, count)];
    }

    method SendWrite(start: u16, values: seq<u16>)
      modifies this`replies
      ensures replies == old(replies) + [Write(start, values)]
    {
      replies := replies + [Write(start, values)];
    }

    method StartNextAction(state: SmaState)
      modifies this`mCurrentState, this`replies, this`timerActive
      ensures Abs() == NextAction(device, old(Abs()), state)
    {
      mCurrentState := state;
      match mCurrentState {
        case CheckCondition => SendRead(30201, 2);
        case CheckState => SendRead(40029, 2);
        case CheckLogin => SendRead(43090, 2);
        case DoLogin =>
          var gc0, gc1 := Wrap16(device.gridCode / 0x1_0000), Wrap16(device.gridCode);
          SendWrite(43090, [gc0, gc1]);
        case CheckOpMode => SendRead(40210, 2);
        case SetOpMode => SendWrite(40210, [0, MODE_WATT]);
        case ReadLimit => SendRead(40212, 2);
        case WriteLimit =>
          var w := ToQuint16(mPowerLimitWatt);
          SendWrite(40212, [0, w]);
        case ReadPowerYield => SendRead(30513, 8);
        case ReadACFrequency => SendRead(40135, 2);
        case ReadACCurrent => SendRead(30795, 2);
        case ReadACPowerAndVoltage => SendRead(30775, 10);
        case ReadTemperature => SendRead(34113, 2);
        case ReadPVData1 => SendRead(30769, 6);
        case ReadPVData2 => SendRead(30957, 6);
        case SmaIdle => timerActive := true;
        case Error =>
      }
    }

    method HandleError()
      modifies this`mRetryCount, this`connectionsLost, this`timerActive
      ensures Abs() == OnError(old(Abs()))
    {
      mRetryCount := mRetryCount + 1;
      if mRetryCount > 5 {
        mRetryCount := 0;
        connectionsLost := connectionsLost + 1;
      }
      timerActive := true;
    }

    method HandleCondition(values: seq<u16>) returns (nextState: SmaState)
      requires mCurrentState == CheckCondition
      ensures (Abs(), nextState) == AfterRead(device, Abs(), values)
    {
      if |values| != 2 {
        return Error;
      }
      nextState := CheckState;
      if values[1] != CONDITION_OK && values[1] != CONDITION_WARN {
        nextState := SmaIdle;
      }
    }

    method HandleState(values: seq<u16>) returns (nextState: SmaState)
      requires mCurrentState == CheckState
      modifies this`opState, this`mWriteCount
      ensures (Abs(), nextState) == AfterRead(device, old(Abs()), values)
    {
      if |values| != 2 {
        return Error;
      }
      opState := values[1];
      nextState := CheckLogin;
      mWriteCount := 0;
      if device.gridCode == 0 {
        nextState := ReadPowerYield;
      }
      if opState != STATE_MPP {
        nextState := ReadPowerYield;
      }
    }

    method HandleLogin(values: seq<u16>) returns (nextState: SmaState)
      requires mCurrentState == CheckLogin
      modifies this`loggedIn, this`mWriteCount
      ensures (Abs(), nextState) == AfterRead(device, old(Abs()), values)
    {
      hide AfterRead;
      LoginIs(device, Abs(), values);
      if |values| != 2 {
        return Error;
      }
      loggedIn := values[1] == 1;
      nextState := CheckOpMode;
      if !loggedIn && mWriteCount < 3 {
        mWriteCount := mWriteCount + 1;
        nextState := DoLogin;
      } else if mWriteCount >= 3 {
        nextState := ReadPowerYield;
      }
      if nextState == CheckOpMode {
        mWriteCount := 0;
      }
    }

    method HandleOpMode(values: seq<u16>) returns (nextState: SmaState)
      requires mCurrentState == CheckOpMode
      modifies this`opMode, this`mWriteCount
      ensures (Abs(), nextState) == AfterRead(device, old(Abs()), values)
    {
      hide AfterRead;
      OpModeIs(device, Abs(), values);
      if |values| != 2 {
        return Error;
      }
      nextState := ReadPowerYield;
      opMode := values[1];
      if opMode != MODE_WATT && mWriteCount < 3 {
        mWriteCount := mWriteCount + 1;
        nextState := SetOpMode;
      }
    }

    /** The states that read values: each one leads to the next. */
    method HandleData(values: seq<u16>) returns (nextState: SmaState)
      requires ReadsData(mCurrentState)
      modifies this`powerLimit
      ensures (Abs(), nextState) == AfterRead(device, old(Abs()), values)
    {
      if |values| != SizeFor(mCurrentState) {
        return Error;
      }
      match mCurrentState {
        case ReadPowerYield =>
          nextState := ReadACFrequency;
          if opState != STATE_MPP {
            nextState := SmaIdle;
          }
        case ReadACFrequency => nextState := ReadACCurrent;
        case ReadACCurrent => nextState := ReadACPowerAndVoltage;
        case ReadACPowerAndVoltage => nextState := ReadTemperature;
        case ReadTemperature => nextState := ReadPVData1;
        case ReadPVData1 => nextState := ReadPVData2;
        case ReadPVData2 => nextState := ReadLimit;
        case ReadLimit =>
          powerLimit := values[1];
          nextState := SmaIdle;
          if loggedIn && opMode == MODE_WATT {
            nextState := WriteLimit;
          }
      }
    }

    /** onReadCompleted, for a reply that has been taken off the list; None stands for any error. */
    method OnReadCompleted(result: Option<seq<u16>>)
      modifies this
      ensures Abs() == if result.None? then OnError(old(Abs())) else OnRead(device, old(Abs()), result.value)
    {
      hide NextAction, AfterRead;
      if result.None? {
        HandleError();
        return;
      }
      mRetryCount := 0;
      var nextState := CheckCondition;
      if mCurrentState == CheckCondition {
        nextState := HandleCondition(result.value);
      } else if mCurrentState == CheckState {
        nextState := HandleState(result.value);
      } else if mCurrentState == CheckLogin {
        nextState := HandleLogin(result.value);
      } else if mCurrentState == CheckOpMode {
        nextState := HandleOpMode(result.value);
      } else if ReadsData(mCurrentState) {
        nextState := HandleData(result.value);
      } else {
        NothingIsRead(device, Abs(), result.value);
      }
      StartNextAction(nextState);
    }

    method OnWriteCompleted()
      modifies this
      ensures Abs() == OnWritten(device, old(Abs()))
    {
      hide NextAction;
      var nextState := CheckCondition;
      match mCurrentState {
        case DoLogin => nextState := CheckLogin;
        case SetOpMode => nextState := CheckOpMode;
        case WriteLimit => nextState := SmaIdle;
        case _ =>
      }
      StartNextAction(nextState);
    }

    /** The reply at index i is finished, with a result or with an error. */
    method OnReplyFinished(i: nat, result: Option<seq<u16>>)
      requires i < |replies|
      modifies this
      ensures Abs() == SmaStep(device, old(Abs()), if result.None? then SmaReplyError(i) else SmaReplyOk(i, result.value))
    {
      hide OnRead, OnError, OnWritten;
      var reply := replies[i];
      replies := replies[..i] + replies[i + 1..];
      if reply.Read? {
        OnReadCompleted(result);
      } else {
        OnWriteCompleted();
      }
    }

    method OnPowerLimitRequested(value: real)
      modifies this`mPowerLimitWatt
      ensures Abs() == SmaStep(device, old(Abs()), SmaLimitRequested(value))
    {
      mPowerLimitWatt := if value > device.maxPower then device.maxPower else value;
    }

    method OnConnected()
      requires link == Connecting
      modifies this
      ensures Abs() == SmaStep(device, old(Abs()), SmaConnected)
    {
      link := Up;
      StartNextAction(CheckCondition);
    }

    method OnDisconnected()
      modifies this
      ensures Abs() == SmaStep(device, old(Abs()), SmaDisconnected)
    {
      link := Down;
      mCurrentState := CheckCondition;
      HandleError();
    }

    /** The timer has fired. */
    method OnTimer()
      requires timerActive
      modifies this
      ensures Abs() == SmaStep(device, old(Abs()), SmaTimerFires)
    {
      hide NextAction;
      timerActive := false;
      if link == Up {
        StartNextAction(if mCurrentState == SmaIdle then CheckCondition else mCurrentState);
      } else {
        link := Connecting;
      }
    }

    /** The client has lost its socket: it fails the replies that are not finished, and then disconnects. */
    method OnSocketError()
      modifies this
      ensures Abs() == SmaStep(device, old(Abs()), SmaSocketError)
    {
      hide SmaRequest;
      var pending := replies;
      link := Down;
      replies := [];
      ghost var s := Abs();
      for i := 0 to |pending|
        invariant FailReplies(device, Abs(), pending[i..]) == FailReplies(device, s, pending)
        invariant link == Down
      {
        assert pending[i..][1..] == pending[i + 1..];
        if pending[i].Read? {
          HandleError();
        } else {
          OnWriteCompleted();
        }
      }
      OnDisconnected();
    }
  }

  lemma NothingIsRead(d: SmaDevice, s: Updater, values: seq<u16>)
    requires !IsRead(s.mode)
    ensures AfterRead(d, s, values) == (s, CheckCondition)
  {
  }
}
