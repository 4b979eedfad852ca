/** The poll cycle of SunspecUpdater (sunspec_updater.cpp) as a state machine over its slots. */
module SunspecPolling {
  import opened Bytes
  import opened Modbus

  datatype Link = Down | Connecting | Up

  datatype ModbusState = ReadPowerLimit | ReadPowerAndVoltage | WritePowerLimit | Idle

  datatype Request = Read(start: u16, count: u16) | Write(start: u16, values: seq<u16>)

  /** What the updater knows about the inverter. */
  datatype Device = Device(
    limitable: bool, // made by Fronius or ABB
    float: bool,     // ProtocolSunSpecFloat
    phaseCount: nat,
    inverterModelOffset: u16,
    immediateControlOffset: u16,
    maxPower: real,
    powerLimitScale: real)

  const POWER_LIMIT_TIMEOUT: u16 := 120
  const POWER_LIMIT_SCALE: real := 100.0

  /** Requests that were sent and whose replies are not finished, whether or not the timer is armed, and the rest. */
  datatype State = State(
    mode: ModbusState,
    limitPct: real,
    retryCount: nat,
    writeRequested: bool,
    powerLimit: Option<real>,
    timer: bool,
    outstanding: seq<Request>,
    link: Link,
    connectionsLost: nat)

  datatype Event =
    | Connected
    | Disconnected
    | SocketError
    | ReplyOk(i: nat, values: seq<u16>, usable: bool)
    | ReplyError(i: nat)
    | TimerFires
    | LimitRequested(value: real)

  function Init(): State {
    State(Idle, 100.0, 0, false, None, false, [], Connecting, 0)
  }

  function InitState(d: Device): ModbusState {
    if d.limitable then ReadPowerLimit else ReadPowerAndVoltage
  }

  /** qRound of a number that is not negative. */
  function Round(x: real): (n: int)
    ensures x - 0.5 < n as real <= x + 0.5
  {
    (x + 0.5).Floor
  }

  function Steps(pct: real, scale: real): int
  {
    Round(pct * scale)
  }

  /** The register value for a limit. */
  function LimitRegister(d: Device, pct: real): u16 {
    Wrap16(Steps(pct, d.powerLimitScale))
  }

  function RequestFor(d: Device, s: State, mode: ModbusState): (r: Request)
    requires mode != Idle
    ensures r.Write? <==> mode == WritePowerLimit
  {
    match mode
    case ReadPowerLimit => Read(Wrap16(d.immediateControlOffset as int + 5), 5)
    case ReadPowerAndVoltage => Read(d.inverterModelOffset, if d.float then 62 else 52)
    case WritePowerLimit =>
      if s.limitPct < 100.0
      then Write(Wrap16(d.immediateControlOffset as int + 5), [LimitRegister(d, s.limitPct), 0, POWER_LIMIT_TIMEOUT, 0, 1])
      else Write(Wrap16(d.immediateControlOffset as int + 9), [0])
  }

  function StartNextAction(d: Device, s: State, mode: ModbusState): State {
    if mode == Idle then s.(mode := Idle, timer := true)
    else s.(mode := mode, outstanding := s.outstanding + [RequestFor(d, s, mode)])
  }

  function HandleError(s: State): State {
    if s.retryCount + 1 > 5 then s.(retryCount := 0, connectionsLost := s.connectionsLost + 1, timer := true)
    else s.(retryCount := s.retryCount + 1, timer := true)
  }

  /** The limit that five registers of the immediate controls say. */
  function LimitOf(d: Device, values: seq<u16>): Option<real>
    requires |values| == 5
  {
    if d.powerLimitScale < POWER_LIMIT_SCALE || d.powerLimitScale == 0.0 then None
    else if values[4] != 1 then Some(d.maxPower)
    else if values[0] == 0xFFFF then None
    else Some(LimitFrom(values[0] as real, d.maxPower, d.powerLimitScale))
  }

  function LimitFrom(n: real, maxPower: real, scale: real): real
    requires scale != 0.0
  {
    n * maxPower / scale
  }

  /** A monitor frame of the expected model and size. */
  predicate Accepted(d: Device, values: seq<u16>, usable: bool) {
    values != [] && usable && SameModel(d, values) && |values| == if d.float then 62 else 52
  }

  predicate SameModel(d: Device, values: seq<u16>)
    requires values != []
  {
    (values[0] > 103) == d.float && values[0] % 10 == d.phaseCount
  }

  function OnReadCompleted(d: Device, s: State, values: seq<u16>, usable: bool): State {
    var t := s.(retryCount := 0);
    match s.mode
    case ReadPowerAndVoltage =>
      if Accepted(d, values, usable) then StartNextAction(d, t, if s.writeRequested then WritePowerLimit else Idle)
      else if values != [] && usable && !SameModel(d, values) then StartNextAction(d, t, Idle)
      else StartNextAction(d, t, s.mode)
    case ReadPowerLimit =>
      if |values| == 5 then StartNextAction(d, t.(powerLimit := LimitOf(d, values)), ReadPowerAndVoltage)
      else StartNextAction(d, t, s.mode)
    case _ => StartNextAction(d, t, InitState(d))
  }

  function OnWriteCompleted(d: Device, s: State): State {
    StartNextAction(d, s.(writeRequested := false), InitState(d))
  }

  /** A reply is finished with an error: a failed read waits for the timer, a write counts as done. */
  function OnFailed(d: Device, s: State, r: Request): State {
    if r.Read? then HandleError(s) else OnWriteCompleted(d, s)
  }

  function FailAll(d: Device, s: State, rs: seq<Request>): State
    decreases |rs|
  {
    if rs == [] then s else FailAll(d, OnFailed(d, s, rs[0]), rs[1..])
  }

  function OnDisconnected(d: Device, s: State): State {
    HandleError(s.(mode := InitState(d)))
  }

  function Bound(x: real): real {
    if x < 0.0 then 0.0 else if x > 100.0 then 100.0 else x
  }

  /** The limit as a fraction of the maximum power. Without one the quotient is an infinity, or not a number for 0 / 0. */
  function FractionOf(value: real, maxPower: real): real {
    if maxPower != 0.0 then Bound(value / maxPower) else if value > 0.0 then 100.0 else 0.0
  }

  function OnLimitRequested(d: Device, s: State, value: real): State {
    if d.powerLimitScale < POWER_LIMIT_SCALE || s.powerLimit == None then s
    else
      var t := s.(limitPct := FractionOf(value, d.maxPower));
      if !s.timer then t.(writeRequested := true)
      else if s.mode == Idle then StartNextAction(d, t.(timer := false), WritePowerLimit)
      else StartNextAction(d, t.(timer := false), s.mode).(writeRequested := true)
  }

  function OnTimer(d: Device, s: State): State {
    var t := s.(timer := false);
    if s.link == Up then StartNextAction(d, t, if s.mode == Idle then InitState(d) else s.mode)
    else t.(link := Connecting)
  }

  function Without(rs: seq<Request>, i: nat): seq<Request>
    requires i < |rs|
  {
    rs[..i] + rs[i + 1..]
  }

  /** An event that cannot happen changes nothing. */
  function Step(d: Device, s: State, e: Event): State {
    match e
    case Connected => if s.link == Connecting then StartNextAction(d, s.(link := Up), InitState(d)) else s
    case Disconnected => OnDisconnected(d, s.(link := Down))
    case SocketError => OnDisconnected(d, FailAll(d, s.(link := Down, outstanding := []), s.outstanding))
    case ReplyOk(i, values, usable) =>
      if i >= |s.outstanding| then s
      else
        var t := s.(outstanding := Without(s.outstanding, i));
        if s.outstanding[i].Read? then OnReadCompleted(d, t, values, usable) else OnWriteCompleted(d, t)
    case ReplyError(i) =>
      if i >= |s.outstanding| then s
      else OnFailed(d, s.(outstanding := Without(s.outstanding, i)), s.outstanding[i])
    case TimerFires => if s.timer then OnTimer(d, s) else s
    case LimitRequested(value) => OnLimitRequested(d, s, value)
  }

  // ---- One activity at a time. ----

  function Activities(s: State): nat {
    |s.outstanding| + if s.timer then 1 else 0
  }

  /**
   While the socket connects nothing is under way; otherwise exactly one of an outstanding request and the
   armed timer. A request is of the kind of the current state, so no reply comes at a wrong time.
   */
  predicate OneActivity(s: State) {
    && Activities(s) == (if s.link == Connecting then 0 else 1)
    && (|s.outstanding| == 1 ==>
          if s.mode == WritePowerLimit then s.outstanding[0].Write?
          else s.outstanding[0].Read? && s.mode != Idle)
    && (s.timer ==> s.mode != WritePowerLimit)
    && s.retryCount <= 5
  }

  /** The socket is not lost during a write, and no disconnect comes while a request is out. */
  predicate Orderly(s: State, e: Event) {
    && (e == SocketError ==> forall r | r in s.outstanding :: r.Read?)
    && (e == Disconnected ==> s.outstanding == [])
  }

  /** With nothing under way, any next action is one activity. */
  lemma {:induction false} StartsOne(d: Device, s: State, mode: ModbusState)
    requires s.outstanding == [] && !s.timer && s.link != Connecting && s.retryCount <= 5
    ensures OneActivity(StartNextAction(d, s, mode))
  {
    hide RequestFor;
  }

  lemma {:induction false} ReplyKeepsOne(d: Device, s: State, i: nat, values: seq<u16>, usable: bool)
    requires OneActivity(s) && i < |s.outstanding|
    ensures OneActivity(Step(d, s, ReplyOk(i, values, usable)))
  {
    hide RequestFor, Accepted, LimitOf, StartNextAction;
    var t := s.(outstanding := Without(s.outstanding, i));
    assert t.outstanding == [];
    if s.outstanding[i].Write? {
      StartsOne(d, t.(writeRequested := false), InitState(d));
    } else if s.mode == ReadPowerAndVoltage {
      var u := t.(retryCount := 0);
      StartsOne(d, u, WritePowerLimit);
      StartsOne(d, u, Idle);
      StartsOne(d, u, s.mode);
    } else {
      var u := t.(retryCount := 0);
      StartsOne(d, u, s.mode);
      if |values| == 5 {
        StartsOne(d, u.(powerLimit := LimitOf(d, values)), ReadPowerAndVoltage);
      }
    }
  }

  lemma {:induction false} FailureKeepsOne(d: Device, s: State, i: nat)
    requires OneActivity(s) && i < |s.outstanding|
    ensures OneActivity(Step(d, s, ReplyError(i)))
  {
    hide RequestFor;
    var t := s.(outstanding := Without(s.outstanding, i));
    assert t.outstanding == [];
    if s.outstanding[i].Write? {
      StartsOne(d, t.(writeRequested := false), InitState(d));
    }
  }

  lemma {:induction false} LosesOne(d: Device, s: State)
    requires OneActivity(s) && Orderly(s, SocketError)
    ensures OneActivity(Step(d, s, SocketError))
  {
    var t := s.(link := Down, outstanding := []);
    if s.outstanding != [] {
      assert s.outstanding == [s.outstanding[0]];
      assert s.outstanding[1..] == [];
      assert FailAll(d, t, s.outstanding) == FailAll(d, HandleError(t), []);
    }
  }

  lemma {:induction false} StepKeepsOneActivity(d: Device, s: State, e: Event)
    requires OneActivity(s) && Orderly(s, e)
    ensures OneActivity(Step(d, s, e))
  {
    hide RequestFor, Bound;
    match e
    case SocketError => LosesOne(d, s);
    case ReplyOk(i, values, usable) => if i < |s.outstanding| { ReplyKeepsOne(d, s, i, values, usable); }
    case ReplyError(i) => if i < |s.outstanding| { FailureKeepsOne(d, s, i); }
    case TimerFires =>
      if s.timer && s.link == Up {
        StartsOne(d, s.(timer := false), if s.mode == Idle then InitState(d) else s.mode);
      }
    case Connected => if s.link == Connecting { StartsOne(d, s.(link := Up), InitState(d)); }
    case _ =>
  }

  // ---- Runs. ----

  datatype Trace = Start | Then(before: Trace, event: Event)

  function StateOf(d: Device, t: Trace): State {
    match t
    case Start => Init()
    case Then(before, event) => Step(d, StateOf(d, before), event)
  }

  predicate OrderlyRun(d: Device, t: Trace) {
    match t
    case Start => true
    case Then(before, event) => OrderlyRun(d, before) && Orderly(StateOf(d, before), event)
  }

  /**
   On every run in which the socket is not lost during a write, and no disconnect comes while a request is
   out, exactly one request is outstanding or the timer is armed, except while the socket connects, under
   any errors and requests for a limit.
   */
  lemma {:induction false} OneActivityOnEveryRun(d: Device, t: Trace)
    requires OrderlyRun(d, t)
    ensures OneActivity(StateOf(d, t))
  {
    hide Step, Orderly;
    match t
    case Start =>
    case Then(before, event) =>
      OneActivityOnEveryRun(d, before);
      StepKeepsOneActivity(d, StateOf(d, before), event);
  }

  /** Losing the socket keeps to one activity if and only if the outstanding request is no write. */
  lemma {:induction false} LostDuringWrite(d: Device, s: State)
    requires OneActivity(s) && s.link == Up
    ensures Activities(Step(d, s, SocketError)) == 1 <==> forall r | r in s.outstanding :: r.Read?
  {
    if forall r | r in s.outstanding :: r.Read? {
      LosesOne(d, s);
    } else {
      hide RequestFor;
      var t := s.(link := Down, outstanding := []);
      assert s.outstanding == [s.outstanding[0]];
      assert s.outstanding[1..] == [];
      var u := OnFailed(d, t, s.outstanding[0]);
      assert FailAll(d, u, []) == u;
      assert u.outstanding == [RequestFor(d, t, InitState(d))];
    }
  }

  /** A disconnect keeps to one activity if and only if no request is out. */
  lemma {:induction false} DisconnectKeepsOne(d: Device, s: State)
    requires OneActivity(s)
    ensures Activities(Step(d, s, Disconnected)) == 1 <==> s.outstanding == []
  {
  }

  /** The run of some events. */
  function Events(d: Device, s: State, es: seq<Event>): State
    decreases |es|
  {
    if es == [] then s else Events(d, Step(d, s, es[0]), es[1..])
  }

  /** The limit is known, the socket is lost, a connect is refused, a limit is requested, and the connect timer fires. */
  function StaleTimer(values: seq<u16>, value: real): seq<Event> {
    [Connected, ReplyOk(0, values, true), SocketError, TimerFires, SocketError, LimitRequested(value), Disconnected]
  }

  /**
   Such a disconnect is real. A refused connect leaves the timeout of the client running; a request for a
   limit stops the timer of the updater and reads from the dead socket; then the timeout disconnects. No
   write is out on the way, and in the end a request is out while the timer is armed.
   */
  lemma {:induction false} DisconnectDuringRead(d: Device, values: seq<u16>, value: real)
    requires d.limitable && d.powerLimitScale >= POWER_LIMIT_SCALE && d.maxPower > 0.0
    requires |values| == 5 && values[4] != 1
    ensures var es := StaleTimer(values, value);
            && (forall k | 0 <= k < |es| :: forall r | r in Events(d, Init(), es[..k]).outstanding :: r.Read?)
            && Activities(Events(d, Init(), es)) == 2
  {
    hide Bound, LimitFrom, Events, Step;
    var es := StaleTimer(values, value);
    var s0 := Init();
    var s1, s2, s3 := Step(d, s0, es[0]), Step(d, Step(d, s0, es[0]), es[1]), Step(d, Step(d, Step(d, s0, es[0]), es[1]), es[2]);
    var s4 := Step(d, s3, es[3]);
    var s5 := Step(d, s4, es[4]);
    var s6 := Step(d, s5, es[5]);
    var s7 := Step(d, s6, es[6]);
    StaleStates(d, values, value, s0, s1, s2, s3, s4, s5, s6, s7);
    forall k | 0 <= k <= 7
      ensures Events(d, s0, es[..k]) == [s0, s1, s2, s3, s4, s5, s6, s7][k]
    {
      StaleRun(d, es, k, [s0, s1, s2, s3, s4, s5, s6, s7]);
    }
    assert es[..7] == es;
  }

  /** A run, state by state. */
  lemma {:induction false} StaleRun(d: Device, es: seq<Event>, k: nat, states: seq<State>)
    requires k <= |es| && |states| == |es| + 1
    requires forall i | 0 <= i < |es| :: states[i + 1] == Step(d, states[i], es[i])
    ensures Events(d, states[0], es[..k]) == states[k]
  {
    hide Step;
    EventsFrom(d, es, 0, k, states);
    assert es[0..k] == es[..k];
  }

  lemma {:induction false} EventsFrom(d: Device, es: seq<Event>, i: nat, k: nat, states: seq<State>)
    requires i <= k <= |es| && |states| == |es| + 1
    requires forall i | 0 <= i < |es| :: states[i + 1] == Step(d, states[i], es[i])
    ensures Events(d, states[i], es[i..k]) == states[k]
    decreases k - i
  {
    hide Step;
    if i < k {
      assert es[i..k][0] == es[i] && es[i..k][1..] == es[i + 1..k];
      EventsFrom(d, es, i + 1, k, states);
    }
  }

  lemma {:induction false} StaleStates(d: Device, values: seq<u16>, value: real,
                                       s0: State, s1: State, s2: State, s3: State, s4: State, s5: State, s6: State, s7: State)
    requires d.limitable && d.powerLimitScale >= POWER_LIMIT_SCALE && d.maxPower > 0.0
    requires |values| == 5 && values[4] != 1
    requires s0 == Init() && s1 == Step(d, s0, Connected) && s2 == Step(d, s1, ReplyOk(0, values, true))
    requires s3 == Step(d, s2, SocketError) && s4 == Step(d, s3, TimerFires) && s5 == Step(d, s4, SocketError)
    requires s6 == Step(d, s5, LimitRequested(value)) && s7 == Step(d, s6, Disconnected)
    ensures s0.outstanding == s3.outstanding == s4.outstanding == s5.outstanding == []
    ensures |s1.outstanding| == |s2.outstanding| == |s6.outstanding| == 1
    ensures s1.outstanding[0].Read? && s2.outstanding[0].Read? && s6.outstanding[0].Read?
    ensures Activities(s7) == 2
  {
    hide Step;
    FirstReads(d, values, s0, s1, s2);
    FirstLoss(d, s2, s3);
    SecondLoss(d, value, s3, s4, s5, s6, s7);
  }

  lemma {:induction false} FirstReads(d: Device, values: seq<u16>, s0: State, s1: State, s2: State)
    requires d.limitable && d.powerLimitScale >= POWER_LIMIT_SCALE && |values| == 5 && values[4] != 1
    requires s0 == Init() && s1 == Step(d, s0, Connected) && s2 == Step(d, s1, ReplyOk(0, values, true))
    ensures s0.outstanding == [] && |s1.outstanding| == |s2.outstanding| == 1
    ensures s1.outstanding[0].Read? && s2.outstanding[0].Read?
    ensures s2.powerLimit.Some? && s2.link == Up && s2.retryCount == 0 && !s2.timer
  {
    hide Bound, LimitFrom, RequestFor;
    assert s1.mode == ReadPowerLimit && s1.link == Up && |s1.outstanding| == 1;
    assert Without(s1.outstanding, 0) == [];
    assert s2.mode == ReadPowerAndVoltage && s2.powerLimit == Some(d.maxPower);
  }

  lemma {:induction false} FirstLoss(d: Device, s2: State, s3: State)
    requires |s2.outstanding| == 1 && s2.outstanding[0].Read? && s2.retryCount == 0 && s3 == Step(d, s2, SocketError)
    ensures s3.timer && s3.link == Down && s3.outstanding == [] && s3.powerLimit == s2.powerLimit
  {
    var t := s2.(link := Down, outstanding := []);
    assert s2.outstanding == [s2.outstanding[0]] && s2.outstanding[1..] == [];
    assert FailAll(d, t, s2.outstanding) == HandleError(t);
  }

  lemma {:induction false} SecondLoss(d: Device, value: real, s3: State, s4: State, s5: State, s6: State, s7: State)
    requires d.limitable && d.powerLimitScale >= POWER_LIMIT_SCALE
    requires s3.timer && s3.link == Down && s3.outstanding == [] && s3.powerLimit.Some?
    requires s4 == Step(d, s3, TimerFires) && s5 == Step(d, s4, SocketError)
    requires s6 == Step(d, s5, LimitRequested(value)) && s7 == Step(d, s6, Disconnected)
    ensures s4.outstanding == s5.outstanding == [] && |s6.outstanding| == 1 && s6.outstanding[0].Read?
    ensures Activities(s7) == 2
  {
    hide FractionOf, RequestFor;
    assert s4.link == Connecting && !s4.timer;
    assert s5.timer && s5.mode == ReadPowerLimit && s5.powerLimit.Some?;
  }

  // ---- The power limit. ----

  /** A request that is noted is written after the next accepted monitor frame, with the limit noted last. */
  lemma {:induction false} NotedLimitIsWritten(d: Device, s: State, values: seq<u16>)
    requires OneActivity(s) && s.mode == ReadPowerAndVoltage && s.outstanding != [] && s.writeRequested
    requires Accepted(d, values, true)
    ensures var t := Step(d, s, ReplyOk(0, values, true));
            t.mode == WritePowerLimit && t.outstanding == [RequestFor(d, s, WritePowerLimit)]
  {
    hide Accepted;
    assert Without(s.outstanding, 0) == [];
  }

  /** A limit that was requested is noted, or is being written. */
  predicate Kept(d: Device, s: State) {
    s.writeRequested || (s.mode == WritePowerLimit && s.outstanding == [RequestFor(d, s, WritePowerLimit)])
  }

  ghost predicate KeptByAll(d: Device, s: State) {
    forall e | Orderly(s, e) :: Kept(d, Step(d, s, e))
  }

  lemma {:induction false} NoteStays(d: Device, s: State, e: Event)
    requires OneActivity(s) && Orderly(s, e) && s.writeRequested && s.mode != WritePowerLimit
    ensures Kept(d, Step(d, s, e))
  {
    hide Accepted, LimitOf, Bound, LimitRegister;
    if e == SocketError && s.outstanding != [] {
      var t := s.(link := Down, outstanding := []);
      assert s.outstanding == [s.outstanding[0]];
      assert s.outstanding[1..] == [];
      assert FailAll(d, t, s.outstanding) == HandleError(t);
    }
  }

  /** Any end of a write, with or without an error, wipes the note out. */
  lemma {:induction false} WriteWipesNote(d: Device, s: State, values: seq<u16>, usable: bool)
    requires OneActivity(s) && s.mode == WritePowerLimit && s.link != Connecting
    ensures !Kept(d, Step(d, s, ReplyOk(0, values, usable))) && !Kept(d, Step(d, s, ReplyError(0)))
  {
    hide LimitRegister;
    assert Without(s.outstanding, 0) == [];
  }

  /**
   A request for a limit is written at once if the updater is idle, and otherwise noted. What is noted stays
   noted, or is being written, after any event, if and only if no older limit was being written then: the
   end of that write, good or bad, makes the updater forget the request.
   */
  lemma {:induction false} LimitIsForgotten(d: Device, s: State, value: real)
    requires OneActivity(s) && s.link != Connecting && s.powerLimit.Some?
    requires d.powerLimitScale >= POWER_LIMIT_SCALE && d.maxPower > 0.0
    ensures var t := Step(d, s, LimitRequested(value));
            && t.limitPct == Bound(value / d.maxPower)
            && if s.timer && s.mode == Idle then t.outstanding == [RequestFor(d, t, WritePowerLimit)]
               else t.writeRequested && (KeptByAll(d, t) <==> s.mode != WritePowerLimit)
  {
    hide Accepted, LimitOf, Bound, LimitRegister, Step, Kept;
    var t := Step(d, s, LimitRequested(value));
    StepKeepsOneActivity(d, s, LimitRequested(value));
    LimitStep(d, s, value);
    if !(s.timer && s.mode == Idle) {
      if s.mode == WritePowerLimit {
        WriteWipesNote(d, t, [], true);
        assert Orderly(t, ReplyError(0));
      } else {
        forall e | Orderly(t, e) ensures Kept(d, Step(d, t, e)) {
          NoteStays(d, t, e);
        }
      }
    }
  }

  lemma {:induction false} LimitStep(d: Device, s: State, value: real)
    requires OneActivity(s) && s.powerLimit.Some? && d.powerLimitScale >= POWER_LIMIT_SCALE && d.maxPower > 0.0
    ensures var t := Step(d, s, LimitRequested(value));
            && t.limitPct == Bound(value / d.maxPower) && t.link == s.link
            && if s.timer && s.mode == Idle then t.outstanding == [RequestFor(d, t, WritePowerLimit)]
               else t.writeRequested && t.mode == s.mode
  {
    hide Bound, LimitRegister;
  }

  /**
   The limit is kept as a fraction of the maximum power but compared with 100: throttling is switched off
   only by a request for a hundred times the maximum power; any other one writes a limit.
   */
  lemma ThrottlingIsSwitchedOff(d: Device, s: State, value: real)
    requires d.maxPower > 0.0 && s.limitPct == Bound(value / d.maxPower)
    ensures RequestFor(d, s, WritePowerLimit).values == [0] <==> value >= 100.0 * d.maxPower
  {
    hide LimitRegister;
    Quotient(value, d.maxPower);
    FractionOrder(value, d.maxPower, value / d.maxPower);
  }

  lemma FractionOrder(value: real, m: real, f: real)
    requires m > 0.0 && m * f == value
    ensures f >= 100.0 <==> value >= 100.0 * m
  {
  }

  /** The error is at most maxPower / (2 * powerLimitScale). */
  predicate WithinHalfAStep(maxPower: real, scale: real, limit: real, value: real) {
    -maxPower <= 2.0 * scale * (limit - value) <= maxPower
  }

  /** A limit that is written and read back, with the rest of the registers saying that it is in force, is exact up to half a step. */
  predicate ReadsBack(d: Device, value: real, rest: seq<u16>)
    requires d.maxPower > 0.0 && |rest| == 4
  {
    var limit := LimitOf(d, [LimitRegister(d, FractionOf(value, d.maxPower))] + rest);
    limit.Some? && WithinHalfAStep(d.maxPower, d.powerLimitScale, limit.value, value)
  }

  /** Every limit is read back if and only if no fraction of the scale is rounded to the register for no limit. */
  lemma {:induction false} LimitRoundTrip(d: Device)
    requires d.maxPower > 0.0 && d.powerLimitScale >= POWER_LIMIT_SCALE
    ensures (forall value, rest | 0.0 <= value <= d.maxPower && |rest| == 4 && rest[3] == 1 :: ReadsBack(d, value, rest))
            <==> d.powerLimitScale < 65534.5
  {
    hide ReadsBack;
    if d.powerLimitScale < 65534.5 {
      forall value, rest | 0.0 <= value <= d.maxPower && |rest| == 4 && rest[3] == 1 ensures ReadsBack(d, value, rest) {
        ValueRoundTrip(d, value, rest);
      }
    } else {
      var f := if d.powerLimitScale < 65535.0 then 1.0 else 65535.0 / d.powerLimitScale;
      LargeScale(d, f, d.maxPower * f);
      assert !ReadsBack(d, d.maxPower * f, [0, 0, 0, 1]);
    }
  }

  /** Some fraction of a large scale is written as 0xFFFF, which reads as no limit. */
  lemma {:induction false} LargeScale(d: Device, f: real, value: real)
    requires d.maxPower > 0.0 && d.powerLimitScale >= 65534.5 && value == d.maxPower * f
    requires f == if d.powerLimitScale < 65535.0 then 1.0 else 65535.0 / d.powerLimitScale
    ensures 0.0 <= value <= d.maxPower && !ReadsBack(d, value, [0, 0, 0, 1])
  {
    hide WithinHalfAStep, LimitFrom, Steps;
    LargeSteps(f, d.powerLimitScale);
    ProductBounds(f, d.maxPower);
    FractionIs(value, f, d.maxPower);
  }

  lemma LargeSteps(f: real, k: real)
    requires k >= 65534.5 && f == if k < 65535.0 then 1.0 else 65535.0 / k
    ensures 0.0 <= f <= 1.0 && Steps(f, k) == 65535
  {
    if k >= 65535.0 {
      Quotient(65535.0, k);
      FractionBounds(65535.0, k);
      RoundIs(f * k, 65535.0);
    } else {
      RoundIs(f * k, k);
    }
  }

  lemma RoundIs(x: real, y: real)
    requires x == y && 65534.5 <= y <= 65535.0
    ensures Round(x) == 65535
  {
  }

  lemma FractionIs(value: real, f: real, m: real)
    requires m > 0.0 && value == m * f
    ensures value / m == f
  {
    Quotient(value, m);
    SameFactor(m, value / m, f);
  }

  lemma SameFactor(m: real, a: real, b: real)
    requires m > 0.0 && m * a == m * b
    ensures a == b
  {
  }

  /** A scale factor of -3 makes the scale 100000: the register wraps around, and another limit is read back. */
  lemma {:induction false} LimitWrapsAround(d: Device)
    requires d.maxPower > 0.0 && d.powerLimitScale == 100000.0
    ensures LimitRegister(d, FractionOf(d.maxPower, d.maxPower)) == 34464
    ensures LimitOf(d, [34464, 0, 0, 0, 1]) == Some(34464.0 * d.maxPower / 100000.0)
    ensures !ReadsBack(d, d.maxPower, [0, 0, 0, 1])
  {
    FractionIs(d.maxPower, 1.0, d.maxPower);
    assert LimitOf(d, [34464, 0, 0, 0, 1]) == Some(34464.0 * d.maxPower / 100000.0);
  }

  lemma ValueRoundTrip(d: Device, value: real, rest: seq<u16>)
    requires d.maxPower > 0.0 && POWER_LIMIT_SCALE <= d.powerLimitScale < 65534.5 && 0.0 <= value <= d.maxPower
    requires |rest| == 4 && rest[3] == 1
    ensures ReadsBack(d, value, rest)
  {
    hide LimitRegister, LimitOf, WithinHalfAStep;
    Quotient(value, d.maxPower);
    FractionBounds(value, d.maxPower);
    FractionRoundTrip(d, value, value / d.maxPower, rest);
  }

  lemma FractionRoundTrip(d: Device, value: real, f: real, rest: seq<u16>)
    requires d.maxPower > 0.0 && POWER_LIMIT_SCALE <= d.powerLimitScale < 65534.5
    requires 0.0 <= f <= 1.0 && d.maxPower * f == value
    requires |rest| == 4 && rest[3] == 1
    ensures var limit := LimitOf(d, [LimitRegister(d, f)] + rest);
            limit.Some? && WithinHalfAStep(d.maxPower, d.powerLimitScale, limit.value, value)
  {
    hide Steps, LimitFrom, WithinHalfAStep;
    StepsBounds(f, d.powerLimitScale);
    HalfAStep(d.maxPower, d.powerLimitScale, value, f, Steps(f, d.powerLimitScale) as real);
  }

  /** The error of a limit that is written as n steps of m / k. */
  lemma HalfAStep(m: real, k: real, value: real, f: real, n: real)
    requires m > 0.0 && k > 0.0 && m * f == value && f * k - 0.5 <= n <= f * k + 0.5
    ensures WithinHalfAStep(m, k, LimitFrom(n, m, k), value)
  {
    hide LimitFrom;
    LimitFromIs(n, m, k);
    HalfAStepOff(m, k, value, f, n, LimitFrom(n, m, k), n - f * k);
  }

  lemma LimitFromIs(n: real, m: real, k: real)
    requires k > 0.0
    ensures k * LimitFrom(n, m, k) == n * m
  {
    Quotient(n * m, k);
  }

  lemma HalfAStepOff(m: real, k: real, value: real, f: real, n: real, v: real, y: real)
    requires m > 0.0 && m * f == value && k * v == n * m && y == n - f * k && -0.5 <= y <= 0.5
    ensures WithinHalfAStep(m, k, v, value)
  {
    hide WithinHalfAStep;
    Expand(k, v, value, f, n, m, y);
    HalfBounds(y, m);
    Twice(m, k, v, value, y * m);
  }

  lemma Twice(m: real, k: real, v: real, value: real, e: real)
    requires k * (v - value) == e && -m <= 2.0 * e <= m
    ensures WithinHalfAStep(m, k, v, value)
  {
    assert 2.0 * k * (v - value) == 2.0 * (k * (v - value));
  }

  lemma Quotient(a: real, k: real)
    requires k > 0.0
    ensures k * (a / k) == a
  {
  }

  lemma Expand(k: real, v: real, value: real, f: real, n: real, m: real, y: real)
    requires k * v == n * m && m * f == value && y == n - f * k
    ensures k * (v - value) == y * m
  {
    assert k * (v - value) == k * v - k * value;
    assert k * value == (f * k) * m;
  }

  lemma FractionBounds(v: real, m: real)
    requires m > 0.0 && 0.0 <= v <= m
    ensures 0.0 <= v / m <= 1.0
  {
  }

  lemma StepsBounds(f: real, k: real)
    requires 0.0 <= f <= 1.0 && 0.0 < k < 65534.5
    ensures 0 <= Steps(f, k) < 65535 && f * k - 0.5 <= Steps(f, k) as real <= f * k + 0.5
  {
    ProductBounds(f, k);
  }

  lemma ProductBounds(f: real, k: real)
    requires 0.0 <= f <= 1.0 && k > 0.0
    ensures 0.0 <= f * k <= k
  {
  }

  lemma HalfBounds(y: real, m: real)
    requires m > 0.0 && -0.5 <= y <= 0.5
    ensures -m <= 2.0 * (y * m) <= m
  {
  }
}
