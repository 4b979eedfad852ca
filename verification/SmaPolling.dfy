/** The poll cycle of SMAUpdater (sma_updater.cpp) as a state machine over its slots. */
module SmaPolling {
  import opened Bytes
  import opened Modbus
  import opened SunspecPolling

  datatype SmaState =
    | CheckCondition | CheckState | CheckLogin | DoLogin | CheckOpMode | SetOpMode
    | ReadPowerYield | ReadACFrequency | ReadACCurrent | ReadACPowerAndVoltage | ReadTemperature
    | ReadPVData1 | ReadPVData2 | ReadLimit | WriteLimit | Error | SmaIdle

  const CONDITION_OK: u16 := 307
  const CONDITION_WARN: u16 := 455
  const STATE_MPP: u16 := 295
  const MODE_WATT: u16 := 1077

  /** The grid code, and the maximum power. */
  datatype SmaDevice = SmaDevice(gridCode: int, maxPower: real)

  predicate ValidDevice(d: SmaDevice) {
    0 <= d.gridCode < 0x1_0000_0000
  }

  datatype Updater = Updater(
    mode: SmaState,
    writeCount: nat,
    retryCount: nat,
    limitWatt: real,
    loggedOn: bool,
    opState: u16,
    opMode: u16,
    powerLimit: u16,
    timer: bool,
    outstanding: seq<Request>,
    link: Link,
    connectionsLost: nat)

  datatype SmaEvent =
    | SmaConnected
    | SmaDisconnected
    | SmaSocketError
    | SmaReplyOk(i: nat, values: seq<u16>)
    | SmaReplyError(i: nat)
    | SmaTimerFires
    | SmaLimitRequested(value: real)

  function NewUpdater(limitWatt: real): Updater {
    Updater(SmaIdle, 0, 0, limitWatt, false, 0, 0, 0, false, [], Connecting, 0)
  }

  predicate IsWrite(mode: SmaState) {
    mode == DoLogin || mode == SetOpMode || mode == WriteLimit
  }

  predicate IsRead(mode: SmaState) {
    !IsWrite(mode) && mode != Error && mode != SmaIdle
  }

  /** The C++ conversion of a double to quint16. */
  function ToQuint16(x: real): u16 {
    if x >= 0.0 then Wrap16(x.Floor) else Wrap16(-(-x).Floor)
  }

  function SmaRequest(d: SmaDevice, s: Updater, mode: SmaState): (r: Request)
    requires mode != SmaIdle && mode != Error
    ensures r.Write? <==> IsWrite(mode)
  {
    match mode
    case CheckCondition => Read(30201, 2)
    case CheckState => Read(40029, 2)
    case CheckLogin => Read(43090, 2)
    case DoLogin => Write(43090, [Wrap16(d.gridCode / 0x1_0000), Wrap16(d.gridCode)])
    case CheckOpMode => Read(40210, 2)
    case SetOpMode => Write(40210, [0, MODE_WATT])
    case ReadLimit => Read(40212, 2)
    case WriteLimit => Write(40212, [0, ToQuint16(s.limitWatt)])
    case ReadPowerYield => Read(30513, 8)
    case ReadACFrequency => Read(40135, 2)
    case ReadACCurrent => Read(30795, 2)
    case ReadACPowerAndVoltage => Read(30775, 10)
    case ReadTemperature => Read(34113, 2)
    case ReadPVData1 => Read(30769, 6)
    case ReadPVData2 => Read(30957, 6)
  }

  function NextAction(d: SmaDevice, s: Updater, mode: SmaState): Updater {
    if mode == SmaIdle then s.(mode := SmaIdle, timer := true)
    else if mode == Error then s.(mode := Error)
    else s.(mode := mode, outstanding := s.outstanding + [SmaRequest(d, s, mode)])
  }

  function OnError(s: Updater): Updater {
    if s.retryCount + 1 > 5 then s.(retryCount := 0, connectionsLost := s.connectionsLost + 1, timer := true)
    else s.(retryCount := s.retryCount + 1, timer := true)
  }

  /** How many registers a reply must have. */
  function SizeFor(mode: SmaState): nat {
    match mode
    case ReadPowerYield => 8
    case ReadACPowerAndVoltage => 10
    case ReadPVData1 => 6
    case ReadPVData2 => 6
    case _ => 2
  }

  /** What a reply changes, and the state that follows. */
  function AfterRead(d: SmaDevice, s: Updater, values: seq<u16>): (Updater, SmaState) {
    if !IsRead(s.mode) then (s, CheckCondition)
    else if |values| != SizeFor(s.mode) then (s, Error)
    else
      match s.mode
      case CheckCondition => (s, if values[1] == CONDITION_OK || values[1] == CONDITION_WARN then CheckState else SmaIdle)
      case CheckState =>
        (s.(opState := values[1], writeCount := 0),
         if d.gridCode == 0 || values[1] != STATE_MPP then ReadPowerYield else CheckLogin)
      case CheckLogin => AfterLogin(s, values[1])
      case CheckOpMode => AfterOpMode(s, values[1])
      case ReadPowerYield => (s, if s.opState != STATE_MPP then SmaIdle else ReadACFrequency)
      case ReadACFrequency => (s, ReadACCurrent)
      case ReadACCurrent => (s, ReadACPowerAndVoltage)
      case ReadACPowerAndVoltage => (s, ReadTemperature)
      case ReadTemperature => (s, ReadPVData1)
      case ReadPVData1 => (s, ReadPVData2)
      case ReadPVData2 => (s, ReadLimit)
      case ReadLimit => (s.(powerLimit := values[1]), if s.loggedOn && s.opMode == MODE_WATT then WriteLimit else SmaIdle)
      case _ => (s, CheckCondition)
  }

  function AfterLogin(s: Updater, value: u16): (Updater, SmaState) {
    var t := s.(loggedOn := value == 1);
    if !t.loggedOn && s.writeCount < 3 then (t.(writeCount := s.writeCount + 1), DoLogin)
    else if s.writeCount >= 3 then (t, ReadPowerYield)
    else (t.(writeCount := 0), CheckOpMode)
  }

  function AfterOpMode(s: Updater, value: u16): (Updater, SmaState) {
    var t := s.(opMode := value);
    if value != MODE_WATT && s.writeCount < 3 then (t.(writeCount := s.writeCount + 1), SetOpMode)
    else (t, ReadPowerYield)
  }

  lemma LoginIs(d: SmaDevice, s: Updater, values: seq<u16>)
    requires s.mode == CheckLogin
    ensures AfterRead(d, s, values) == if |values| != 2 then (s, Error) else AfterLogin(s, values[1])
  {
    hide AfterLogin;
  }

  lemma OpModeIs(d: SmaDevice, s: Updater, values: seq<u16>)
    requires s.mode == CheckOpMode
    ensures AfterRead(d, s, values) == if |values| != 2 then (s, Error) else AfterOpMode(s, values[1])
  {
    hide AfterOpMode;
  }

  function AfterWrite(mode: SmaState): SmaState {
    match mode
    case DoLogin => CheckLogin
    case SetOpMode => CheckOpMode
    case WriteLimit => SmaIdle
    case _ => CheckCondition
  }

  function OnRead(d: SmaDevice, s: Updater, values: seq<u16>): Updater {
    var (t, mode) := AfterRead(d, s.(retryCount := 0), values);
    NextAction(d, t, mode)
  }

  function OnWritten(d: SmaDevice, s: Updater): Updater {
    NextAction(d, s, AfterWrite(s.mode))
  }

  function OnFailedReply(d: SmaDevice, s: Updater, r: Request): Updater {
    if r.Read? then OnError(s) else OnWritten(d, s)
  }

  function FailReplies(d: SmaDevice, s: Updater, rs: seq<Request>): Updater
    decreases |rs|
  {
    if rs == [] then s else FailReplies(d, OnFailedReply(d, s, rs[0]), rs[1..])
  }

  function OnLost(s: Updater): Updater {
    OnError(s.(mode := CheckCondition))
  }

  function SmaStep(d: SmaDevice, s: Updater, e: SmaEvent): Updater {
    match e
    case SmaConnected => if s.link == Connecting then NextAction(d, s.(link := Up), CheckCondition) else s
    case SmaDisconnected => OnLost(s.(link := Down))
    case SmaSocketError => OnLost(FailReplies(d, s.(link := Down, outstanding := []), s.outstanding))
    case SmaReplyOk(i, values) =>
      if i >= |s.outstanding| then s
      else
        var t := s.(outstanding := Without(s.outstanding, i));
        if s.outstanding[i].Read? then OnRead(d, t, values) else OnWritten(d, t)
    case SmaReplyError(i) =>
      if i >= |s.outstanding| then s
      else OnFailedReply(d, s.(outstanding := Without(s.outstanding, i)), s.outstanding[i])
    case SmaTimerFires =>
      if !s.timer then s
      else if s.link == Up then NextAction(d, s.(timer := false), if s.mode == SmaIdle then CheckCondition else s.mode)
      else s.(timer := false, link := Connecting)
    case SmaLimitRequested(value) => s.(limitWatt := if value > d.maxPower then d.maxPower else value)
  }

  // ---- One activity at a time. ----

  function Busy(s: Updater): nat {
    |s.outstanding| + if s.timer then 1 else 0
  }

  /** Exactly one of a request and the timer, unless the socket connects or the updater is parked in Error. */
  predicate OneTask(s: Updater) {
    && Busy(s) == (if s.link == Connecting || s.mode == Error then 0 else 1)
    && (s.outstanding != [] ==> s.link == Up && if IsWrite(s.mode) then s.outstanding[0].Write?
                                               else s.outstanding[0].Read? && IsRead(s.mode))
    && (s.timer ==> !IsWrite(s.mode))
    && (s.mode == Error ==> s.link == Up)
    && s.retryCount <= 5
  }

  /** The socket is not lost while the login or the mode is written, and no disconnect comes while a request is out. */
  predicate InOrder(s: Updater, e: SmaEvent) {
    && (e == SmaSocketError && s.outstanding != [] ==> s.outstanding[0].Read? || s.mode == WriteLimit)
    && (e == SmaDisconnected ==> s.outstanding == [])
  }

  lemma {:induction false} NextIsOneTask(d: SmaDevice, s: Updater, mode: SmaState)
    requires s.outstanding == [] && !s.timer && s.link == Up && s.retryCount <= 5
    ensures OneTask(NextAction(d, s, mode))
  {
    hide SmaRequest;
  }

  lemma {:induction false} OneIsAll(s: Updater, i: nat)
    requires OneTask(s) && i < |s.outstanding|
    ensures i == 0 && Without(s.outstanding, i) == [] && s.outstanding == [s.outstanding[0]] && !s.timer && s.link == Up
  {
  }

  lemma {:induction false} ReadKeepsRest(d: SmaDevice, s: Updater, values: seq<u16>)
    ensures var t := AfterRead(d, s, values).0;
            t.outstanding == s.outstanding && t.timer == s.timer && t.link == s.link && t.retryCount == s.retryCount
  {
  }

  lemma {:induction false} ReplyKeepsOneTask(d: SmaDevice, s: Updater, i: nat, values: seq<u16>)
    requires OneTask(s) && i < |s.outstanding|
    ensures OneTask(SmaStep(d, s, SmaReplyOk(i, values))) && OneTask(SmaStep(d, s, SmaReplyError(i)))
  {
    hide AfterRead, NextAction;
    OneIsAll(s, i);
    var t := s.(outstanding := []);
    var (u, mode) := AfterRead(d, t.(retryCount := 0), values);
    ReadKeepsRest(d, t.(retryCount := 0), values);
    NextIsOneTask(d, u, mode);
    NextIsOneTask(d, t, AfterWrite(s.mode));
  }

  lemma {:induction false} LossKeepsOneTask(d: SmaDevice, s: Updater)
    requires OneTask(s) && InOrder(s, SmaSocketError)
    ensures OneTask(SmaStep(d, s, SmaSocketError))
  {
    hide SmaRequest;
    if s.outstanding != [] {
      OneIsAll(s, 0);
      assert s.outstanding[1..] == [];
      var t := s.(link := Down, outstanding := []);
      assert FailReplies(d, t, s.outstanding) == OnFailedReply(d, t, s.outstanding[0]);
    }
  }

  lemma {:induction false} StepKeepsOneTask(d: SmaDevice, s: Updater, e: SmaEvent)
    requires OneTask(s) && InOrder(s, e)
    ensures OneTask(SmaStep(d, s, e))
  {
    hide SmaRequest, AfterRead;
    match e
    case SmaSocketError => LossKeepsOneTask(d, s);
    case SmaReplyOk(i, values) => if i < |s.outstanding| { ReplyKeepsOneTask(d, s, i, values); }
    case SmaReplyError(i) => if i < |s.outstanding| { ReplyKeepsOneTask(d, s, i, []); }
    case SmaTimerFires =>
      if s.timer && s.link == Up {
        NextIsOneTask(d, s.(timer := false), if s.mode == SmaIdle then CheckCondition else s.mode);
      }
    case SmaConnected => if s.link == Connecting { NextIsOneTask(d, s.(link := Up), CheckCondition); }
    case _ =>
  }

  // ---- Runs. ----

  datatype SmaTrace = SmaStart(limitWatt: real) | SmaThen(before: SmaTrace, event: SmaEvent)

  function UpdaterOf(d: SmaDevice, t: SmaTrace): Updater {
    match t
    case SmaStart(limitWatt) => NewUpdater(limitWatt)
    case SmaThen(before, event) => SmaStep(d, UpdaterOf(d, before), event)
  }

  predicate InOrderRun(d: SmaDevice, t: SmaTrace) {
    match t
    case SmaStart(_) => true
    case SmaThen(before, event) => InOrderRun(d, before) && InOrder(UpdaterOf(d, before), event)
  }

  /**
   On every run in which the socket is not lost while login or mode are written, and no disconnect comes while
   a request is out: a request is outstanding, or the timer is armed, or the updater is parked; never two.
   */
  lemma {:induction false} OneTaskOnEveryRun(d: SmaDevice, t: SmaTrace)
    requires InOrderRun(d, t)
    ensures OneTask(UpdaterOf(d, t))
  {
    hide SmaStep, InOrder;
    match t
    case SmaStart(_) =>
    case SmaThen(before, event) =>
      OneTaskOnEveryRun(d, before);
      StepKeepsOneTask(d, UpdaterOf(d, before), event);
  }

  /** Losing the socket leaves two activities if and only if the login or the mode was being written. */
  lemma {:induction false} LostDuringLogin(d: SmaDevice, s: Updater)
    requires OneTask(s) && s.link == Up
    ensures Busy(SmaStep(d, s, SmaSocketError)) == 2 <==> s.mode == DoLogin || s.mode == SetOpMode
  {
    hide SmaRequest;
    if s.mode == DoLogin || s.mode == SetOpMode {
      OneIsAll(s, 0);
      assert s.outstanding[1..] == [];
      var t := s.(link := Down, outstanding := []);
      assert FailReplies(d, t, s.outstanding) == OnWritten(d, t);
    } else {
      LossKeepsOneTask(d, s);
    }
  }

  /** A disconnect keeps to one activity if and only if no request is out. */
  lemma {:induction false} DisconnectKeepsOne(d: SmaDevice, s: Updater)
    requires OneTask(s)
    ensures Busy(SmaStep(d, s, SmaDisconnected)) == 1 <==> s.outstanding == []
  {
  }

  // ---- When a power limit is written. ----

  /** The event is the reply to the read of the current state, with a register at index 1. */
  predicate Answers(s: Updater, e: SmaEvent, mode: SmaState) {
    e.SmaReplyOk? && e.i < |s.outstanding| && s.outstanding[e.i].Read? && s.mode == mode && |e.values| == 2
  }

  /** What the last reply to a read in this state said. */
  function Latest(d: SmaDevice, t: SmaTrace, mode: SmaState): Option<u16> {
    match t
    case SmaStart(_) => None
    case SmaThen(before, e) =>
      if Answers(UpdaterOf(d, before), e, mode) then Some(e.values[1]) else Latest(d, before, mode)
  }

  /** The notes of the updater are those of the latest replies. */
  predicate NotesAreLatest(d: SmaDevice, t: SmaTrace) {
    var s := UpdaterOf(d, t);
    && (s.loggedOn <==> Latest(d, t, CheckLogin) == Some(1))
    && (s.opMode == MODE_WATT <==> Latest(d, t, CheckOpMode) == Some(MODE_WATT))
    && (s.mode == WriteLimit ==> s.loggedOn && s.opMode == MODE_WATT)
  }

  lemma {:induction false} OthersKeepNotes(d: SmaDevice, s: Updater, rs: seq<Request>)
    ensures var u := FailReplies(d, s, rs);
            u.loggedOn == s.loggedOn && u.opMode == s.opMode
    decreases |rs|
  {
    hide SmaRequest;
    if rs != [] {
      OthersKeepNotes(d, OnFailedReply(d, s, rs[0]), rs[1..]);
    }
  }

  lemma {:induction false} ReadKeepsNotes(d: SmaDevice, s: Updater, values: seq<u16>)
    ensures var (t, mode) := AfterRead(d, s, values);
            && t.loggedOn == (if s.mode == CheckLogin && |values| == 2 then values[1] == 1 else s.loggedOn)
            && t.opMode == (if s.mode == CheckOpMode && |values| == 2 then values[1] else s.opMode)
            && (mode == WriteLimit ==> s.mode == ReadLimit && s.loggedOn && s.opMode == MODE_WATT)
  {
  }

  lemma {:induction false} StepKeepsNotes(d: SmaDevice, s: Updater, e: SmaEvent)
    ensures var u := SmaStep(d, s, e);
            && u.loggedOn == (if Answers(s, e, CheckLogin) then e.values[1] == 1 else s.loggedOn)
            && u.opMode == (if Answers(s, e, CheckOpMode) then e.values[1] else s.opMode)
            && (u.mode == WriteLimit ==> s.mode == WriteLimit || (s.mode == ReadLimit && s.loggedOn && s.opMode == MODE_WATT))
  {
    hide NextAction, AfterRead;
    match e
    case SmaReplyOk(i, values) =>
      if i < |s.outstanding| {
        var t := s.(outstanding := Without(s.outstanding, i));
        var (u, mode) := AfterRead(d, t.(retryCount := 0), values);
        ReadKeepsNotes(d, t.(retryCount := 0), values);
        NextIs(d, u, mode);
        NextIs(d, t, AfterWrite(t.mode));
      }
    case SmaReplyError(i) =>
      if i < |s.outstanding| {
        NextIs(d, s.(outstanding := Without(s.outstanding, i)), AfterWrite(s.mode));
      }
    case SmaTimerFires => NextIs(d, s.(timer := false), if s.mode == SmaIdle then CheckCondition else s.mode);
    case SmaConnected => NextIs(d, s.(link := Up), CheckCondition);
    case SmaSocketError => OthersKeepNotes(d, s.(link := Down, outstanding := []), s.outstanding);
    case _ =>
  }

  lemma {:induction false} NotesOnEveryRun(d: SmaDevice, t: SmaTrace)
    ensures NotesAreLatest(d, t)
  {
    hide SmaStep;
    match t
    case SmaStart(_) =>
    case SmaThen(before, e) =>
      NotesOnEveryRun(d, before);
      StepKeepsNotes(d, UpdaterOf(d, before), e);
  }

  function LimitWrites(rs: seq<Request>): nat {
    if rs == [] then 0 else LimitWrites(rs[..|rs| - 1]) + if IsLimitWrite(rs[|rs| - 1]) then 1 else 0
  }

  predicate IsLimitWrite(r: Request) {
    r.Write? && r.start == 40212
  }

  lemma {:induction false} FewerWrites(rs: seq<Request>, i: nat)
    requires i < |rs|
    ensures LimitWrites(Without(rs, i)) <= LimitWrites(rs)
  {
    var n := |rs| - 1;
    if i == n {
      assert Without(rs, i) == rs[..n];
    } else {
      assert Without(rs, i)[..n - 1] == Without(rs[..n], i);
      assert Without(rs, i)[n - 1] == rs[n];
      FewerWrites(rs[..n], i);
    }
  }

  lemma {:induction false} MoreWrites(d: SmaDevice, s: Updater, mode: SmaState)
    ensures LimitWrites(NextAction(d, s, mode).outstanding) <= LimitWrites(s.outstanding) + if mode == WriteLimit then 1 else 0
  {
    if mode != SmaIdle && mode != Error {
      var r := SmaRequest(d, s, mode);
      assert (s.outstanding + [r])[..|s.outstanding|] == s.outstanding;
    }
  }

  lemma {:induction false} FailuresWriteNothing(d: SmaDevice, s: Updater, rs: seq<Request>)
    ensures LimitWrites(FailReplies(d, s, rs).outstanding) <= LimitWrites(s.outstanding)
    decreases |rs|
  {
    hide SmaRequest, NextAction, LimitWrites;
    if rs != [] {
      var u := OnFailedReply(d, s, rs[0]);
      MoreWrites(d, s, AfterWrite(s.mode));
      FailuresWriteNothing(d, u, rs[1..]);
    }
  }

  /** An event after which more writes of a limit are outstanding has led to the state WriteLimit. */
  lemma {:induction false} WritesStart(d: SmaDevice, s: Updater, e: SmaEvent)
    requires LimitWrites(SmaStep(d, s, e).outstanding) > LimitWrites(s.outstanding)
    ensures SmaStep(d, s, e).mode == WriteLimit
  {
    hide SmaRequest, NextAction, LimitWrites, AfterRead;
    match e
    case SmaReplyOk(i, values) =>
      if i < |s.outstanding| {
        FewerWrites(s.outstanding, i);
        var t := s.(outstanding := Without(s.outstanding, i));
        var (u, mode) := AfterRead(d, t.(retryCount := 0), values);
        ReadKeepsRest(d, t.(retryCount := 0), values);
        MoreWrites(d, u, mode);
        MoreWrites(d, t, AfterWrite(t.mode));
        ModeIs(d, u, WriteLimit);
      }
    case SmaReplyError(i) =>
      if i < |s.outstanding| {
        FewerWrites(s.outstanding, i);
        MoreWrites(d, s.(outstanding := Without(s.outstanding, i)), AfterWrite(s.mode));
      }
    case SmaTimerFires =>
      var mode := if s.mode == SmaIdle then CheckCondition else s.mode;
      MoreWrites(d, s.(timer := false), mode);
      ModeIs(d, s.(timer := false), mode);
    case SmaConnected => MoreWrites(d, s.(link := Up), CheckCondition);
    case SmaSocketError =>
      FailuresWriteNothing(d, s.(link := Down, outstanding := []), s.outstanding);
      assert LimitWrites([]) == 0 by { NoWrites(); }
    case _ =>
  }

  lemma NoWrites()
    ensures LimitWrites([]) == 0
  {
  }

  lemma ModeIs(d: SmaDevice, s: Updater, mode: SmaState)
    ensures NextAction(d, s, mode).mode == mode
  {
  }

  /**
   On every run, whatever is lost or fails, a power limit is written only when the latest reply about the
   login was 1 and the latest reply about the operating mode was power control in watts.
   */
  lemma {:induction false} LimitIsWrittenOnlyWhenAllowed(d: SmaDevice, t: SmaTrace, e: SmaEvent)
    requires LimitWrites(UpdaterOf(d, SmaThen(t, e)).outstanding) > LimitWrites(UpdaterOf(d, t).outstanding)
    ensures Latest(d, t, CheckLogin) == Some(1) && Latest(d, t, CheckOpMode) == Some(MODE_WATT)
  {
    hide SmaStep, LimitWrites;
    var s := UpdaterOf(d, t);
    WritesStart(d, s, e);
    NotesOnEveryRun(d, t);
    StepKeepsNotes(d, s, e);
  }

  // ---- What is written. ----

  /** An event after which more writes of a limit are outstanding has added that of the limit noted. */
  lemma {:induction false} LastIsLimit(d: SmaDevice, s: Updater, e: SmaEvent)
    requires LimitWrites(SmaStep(d, s, e).outstanding) > LimitWrites(s.outstanding)
    ensures var rs := SmaStep(d, s, e).outstanding; rs != [] && rs[|rs| - 1] == Write(40212, [0, ToQuint16(s.limitWatt)])
  {
    hide NextAction, LimitWrites, AfterRead, AfterWrite;
    match e
    case SmaReplyOk(i, values) =>
      if i < |s.outstanding| {
        FewerWrites(s.outstanding, i);
        var t := s.(outstanding := Without(s.outstanding, i));
        var (u, mode) := AfterRead(d, t.(retryCount := 0), values);
        ReadKeepsRest(d, t.(retryCount := 0), values);
        ReadKeepsLimit(d, t.(retryCount := 0), values);
        LimitIsLast(d, u, mode);
        LimitIsLast(d, t, AfterWrite(t.mode));
      }
    case SmaReplyError(i) =>
      if i < |s.outstanding| {
        FewerWrites(s.outstanding, i);
        LimitIsLast(d, s.(outstanding := Without(s.outstanding, i)), AfterWrite(s.mode));
      }
    case SmaTimerFires => LimitIsLast(d, s.(timer := false), if s.mode == SmaIdle then CheckCondition else s.mode);
    case SmaConnected => LimitIsLast(d, s.(link := Up), CheckCondition);
    case SmaSocketError =>
      FailuresWriteNothing(d, s.(link := Down, outstanding := []), s.outstanding);
      assert LimitWrites([]) == 0 by { NoWrites(); }
    case _ =>
  }

  lemma {:induction false} ReadKeepsLimit(d: SmaDevice, s: Updater, values: seq<u16>)
    ensures AfterRead(d, s, values).0.limitWatt == s.limitWatt
  {
  }

  lemma {:induction false} LimitIsLast(d: SmaDevice, s: Updater, mode: SmaState)
    ensures var rs := NextAction(d, s, mode).outstanding;
            LimitWrites(rs) > LimitWrites(s.outstanding) ==>
              rs != [] && rs[|rs| - 1] == Write(40212, [0, ToQuint16(s.limitWatt)])
  {
    if mode != SmaIdle && mode != Error {
      assert (s.outstanding + [SmaRequest(d, s, mode)])[..|s.outstanding|] == s.outstanding;
    }
  }

  /** The limit of the last request, no more than the maximum power. */
  function LimitAt(d: SmaDevice, t: SmaTrace): real {
    match t
    case SmaStart(limit) => limit
    case SmaThen(before, SmaLimitRequested(value)) => if value <= d.maxPower then value else d.maxPower
    case SmaThen(before, _) => LimitAt(d, before)
  }

  lemma {:induction false} FailuresKeepLimit(d: SmaDevice, s: Updater, rs: seq<Request>)
    ensures FailReplies(d, s, rs).limitWatt == s.limitWatt
    decreases |rs|
  {
    hide SmaRequest;
    if rs != [] {
      FailuresKeepLimit(d, OnFailedReply(d, s, rs[0]), rs[1..]);
    }
  }

  lemma {:induction false} NextKeepsLimit(d: SmaDevice, s: Updater, mode: SmaState)
    ensures NextAction(d, s, mode).limitWatt == s.limitWatt
  {
  }

  lemma {:induction false} StepKeepsLimit(d: SmaDevice, s: Updater, e: SmaEvent)
    requires !e.SmaLimitRequested?
    ensures SmaStep(d, s, e).limitWatt == s.limitWatt
  {
    hide NextAction, AfterRead;
    match e
    case SmaReplyOk(i, values) =>
      if i < |s.outstanding| {
        var t := s.(outstanding := Without(s.outstanding, i));
        var (u, mode) := AfterRead(d, t.(retryCount := 0), values);
        ReadKeepsLimit(d, t.(retryCount := 0), values);
        NextKeepsLimit(d, u, mode);
        NextKeepsLimit(d, t, AfterWrite(t.mode));
      }
    case SmaReplyError(i) =>
      if i < |s.outstanding| { NextKeepsLimit(d, s.(outstanding := Without(s.outstanding, i)), AfterWrite(s.mode)); }
    case SmaTimerFires => NextKeepsLimit(d, s.(timer := false), if s.mode == SmaIdle then CheckCondition else s.mode);
    case SmaConnected => NextKeepsLimit(d, s.(link := Up), CheckCondition);
    case SmaSocketError => FailuresKeepLimit(d, s.(link := Down, outstanding := []), s.outstanding);
    case _ =>
  }

  lemma {:induction false} LimitOnEveryRun(d: SmaDevice, t: SmaTrace)
    ensures UpdaterOf(d, t).limitWatt == LimitAt(d, t)
  {
    hide SmaStep;
    match t
    case SmaStart(_) =>
    case SmaThen(before, e) =>
      LimitOnEveryRun(d, before);
      if e.SmaLimitRequested? {
        LimitIsBounded(d, UpdaterOf(d, before), e.value);
      } else {
        StepKeepsLimit(d, UpdaterOf(d, before), e);
      }
  }

  lemma LimitIsBounded(d: SmaDevice, s: Updater, value: real)
    ensures SmaStep(d, s, SmaLimitRequested(value)).limitWatt == if value <= d.maxPower then value else d.maxPower
  {
  }

  /** w is what is left of x in 16 bits, without its fraction. */
  ghost predicate IsTruncated(w: u16, x: real) {
    exists n: int :: w == n % 0x1_0000 && if x >= 0.0 then n as real <= x < n as real + 1.0 else n as real - 1.0 < x <= n as real
  }

  lemma Truncated(x: real)
    ensures IsTruncated(ToQuint16(x), x)
  {
    var n := if x >= 0.0 then x.Floor else -(-x).Floor;
    assert ToQuint16(x) == n % 0x1_0000;
  }

  /** On every run, a write of a limit carries the one requested last, or the maximum power if that is less, in watts. */
  lemma {:induction false} WrittenLimitIsRequested(d: SmaDevice, t: SmaTrace, e: SmaEvent)
    requires LimitWrites(UpdaterOf(d, SmaThen(t, e)).outstanding) > LimitWrites(UpdaterOf(d, t).outstanding)
    ensures var rs := UpdaterOf(d, SmaThen(t, e)).outstanding;
            && rs != [] && rs[|rs| - 1].Write? && rs[|rs| - 1].start == 40212
            && var values := rs[|rs| - 1].values; |values| == 2 && values[0] == 0 && IsTruncated(values[1], LimitAt(d, t))
  {
    hide SmaStep, LimitWrites, ToQuint16, IsTruncated;
    LastIsLimit(d, UpdaterOf(d, t), e);
    LimitOnEveryRun(d, t);
    Truncated(LimitAt(d, t));
  }

  /** A read asks for as many registers as its reply must have. */
  lemma SizeIsRequested(d: SmaDevice, s: Updater, mode: SmaState)
    requires IsRead(mode)
    ensures SmaRequest(d, s, mode).count == SizeFor(mode)
  {
  }

  /** What is written is read back from the same register: the login, the mode and the limit. */
  lemma WrittenIsRead(d: SmaDevice, s: Updater)
    ensures SmaRequest(d, s, DoLogin).start == SmaRequest(d, s, CheckLogin).start == 43090
    ensures SmaRequest(d, s, SetOpMode).start == SmaRequest(d, s, CheckOpMode).start == 40210
    ensures SmaRequest(d, s, WriteLimit).start == SmaRequest(d, s, ReadLimit).start == 40212
    ensures SmaRequest(d, s, SetOpMode).values == [0, 1077]
  {
  }

  /** Where the registers are that a cycle reads. */
  lemma ReadRegisters(d: SmaDevice, s: Updater)
    ensures SmaRequest(d, s, CheckCondition) == Read(30201, 2) && SmaRequest(d, s, CheckState) == Read(40029, 2)
    ensures SmaRequest(d, s, ReadPowerYield) == Read(30513, 8) && SmaRequest(d, s, ReadACFrequency) == Read(40135, 2)
    ensures SmaRequest(d, s, ReadACCurrent) == Read(30795, 2) && SmaRequest(d, s, ReadACPowerAndVoltage) == Read(30775, 10)
    ensures SmaRequest(d, s, ReadTemperature) == Read(34113, 2)
    ensures SmaRequest(d, s, ReadPVData1) == Read(30769, 6) && SmaRequest(d, s, ReadPVData2) == Read(30957, 6)
  {
  }

  // ---- Errors and the timer. ----

  function SmaErrors(s: Updater, n: nat): Updater {
    if n == 0 then s else OnError(SmaErrors(s, n - 1))
  }

  /** Every sixth error in a row loses the connection, and the count starts over. */
  lemma {:induction false} SixErrorsLoseSma(s: Updater, n: nat)
    requires s.retryCount <= 5
    ensures var t := SmaErrors(s, n);
            && t.connectionsLost == s.connectionsLost + (s.retryCount + n) / 6 && t.retryCount == (s.retryCount + n) % 6
            && (n > 0 ==> t.timer) && t == s.(retryCount := t.retryCount, connectionsLost := t.connectionsLost, timer := t.timer)
  {
    if n > 0 {
      SixErrorsLoseSma(s, n - 1);
    }
  }

  /** The timer repeats the state, or starts a cycle; without a connection it connects. */
  lemma SmaTimerRepeats(d: SmaDevice, s: Updater)
    requires OneTask(s) && s.timer
    ensures var t := SmaStep(d, s, SmaTimerFires);
            var mode := if s.mode == SmaIdle then CheckCondition else s.mode;
            && !t.timer
            && if s.link == Up then t.mode == mode && t.outstanding == [SmaRequest(d, s, mode)]
               else t.link == Connecting && t.mode == s.mode && t.outstanding == []
  {
    hide ToQuint16;
  }

  // ---- The length of a cycle. ----

  /** How many more replies a cycle can take. */
  function Left(s: Updater): nat {
    LeftIn(s.mode, s.writeCount)
  }

  function LeftIn(mode: SmaState, writeCount: nat): nat {
    match mode
    case CheckCondition => 23
    case CheckState => 22
    case CheckLogin => LoginLeft(writeCount)
    case DoLogin => 1 + LoginLeft(writeCount)
    case CheckOpMode => ModeLeft(writeCount)
    case SetOpMode => 1 + ModeLeft(writeCount)
    case ReadPowerYield => 9
    case ReadACFrequency => 8
    case ReadACCurrent => 7
    case ReadACPowerAndVoltage => 6
    case ReadTemperature => 5
    case ReadPVData1 => 4
    case ReadPVData2 => 3
    case ReadLimit => 2
    case WriteLimit => 1
    case _ => 0
  }

  function LoginLeft(writeCount: nat): nat {
    if writeCount >= 3 then 10 else 21 - 2 * writeCount
  }

  function ModeLeft(writeCount: nat): nat {
    if writeCount >= 3 then 10 else 16 - 2 * writeCount
  }

  /** The reply to the only outstanding request. */
  function Reply(d: SmaDevice, s: Updater, values: seq<u16>): Updater {
    SmaStep(d, s, SmaReplyOk(0, values))
  }

  predicate CycleIsOver(s: Updater) {
    s.mode == SmaIdle || s.mode == Error
  }

  /** In the middle of a cycle. */
  predicate Polling(s: Updater) {
    OneTask(s) && s.outstanding != []
  }

  lemma {:induction false} ReadShortens(d: SmaDevice, s: Updater, values: seq<u16>)
    requires IsRead(s.mode)
    ensures var (t, mode) := AfterRead(d, s, values); LeftIn(mode, t.writeCount) < Left(s)
  {
  }

  lemma {:induction false} ReplyShortens(d: SmaDevice, s: Updater, values: seq<u16>)
    requires Polling(s)
    ensures var u := Reply(d, s, values);
            Left(u) < Left(s) && (CycleIsOver(u) || Polling(u))
  {
    hide NextAction, AfterRead;
    OneIsAll(s, 0);
    ReplyKeepsOneTask(d, s, 0, values);
    var t := s.(outstanding := []);
    if IsWrite(s.mode) {
      NextIs(d, t, AfterWrite(s.mode));
    } else {
      var (u, mode) := AfterRead(d, t.(retryCount := 0), values);
      ReadShortens(d, t.(retryCount := 0), values);
      NextIs(d, u, mode);
    }
  }

  lemma NextIs(d: SmaDevice, s: Updater, mode: SmaState)
    ensures var u := NextAction(d, s, mode);
            && u.mode == mode && u.writeCount == s.writeCount && u.loggedOn == s.loggedOn
            && u.opMode == s.opMode && u.opState == s.opState
            && (mode != SmaIdle && mode != Error ==> u.outstanding != [])
  {
  }

  /** A cycle with the given replies. */
  function Cycle(d: SmaDevice, s: Updater, replies: seq<seq<u16>>): Updater
    decreases |replies|
  {
    if replies == [] || CycleIsOver(s) then s else Cycle(d, Reply(d, s, replies[0]), replies[1..])
  }

  /** Without errors a cycle ends after as many replies as are left at most: 23 from its start. */
  lemma {:induction false} CycleEnds(d: SmaDevice, s: Updater, replies: seq<seq<u16>>)
    requires Polling(s) && |replies| >= Left(s)
    ensures CycleIsOver(Cycle(d, s, replies))
    decreases |replies|
  {
    hide Reply, OneTask;
    assert Left(s) > 0 by { SomeLeft(s); }
    var u := Reply(d, s, replies[0]);
    ReplyShortens(d, s, replies[0]);
    if Polling(u) && !CycleIsOver(u) {
      CycleEnds(d, u, replies[1..]);
    }
  }

  lemma SomeLeft(s: Updater)
    requires Polling(s)
    ensures Left(s) > 0
  {
  }

  /** The bound for one cycle, from the reply to the first request on. */
  lemma {:induction false} CycleEndsWithin23(d: SmaDevice, s: Updater, replies: seq<seq<u16>>)
    requires OneTask(s) && s.mode == CheckCondition && s.outstanding != [] && |replies| >= 23
    ensures CycleIsOver(Cycle(d, s, replies))
  {
    CycleEnds(d, s, replies);
  }

  // ---- The bound is exact. ----

  /** The reply that makes the cycle last longest. */
  function Slowest(s: Updater): seq<u16> {
    match s.mode
    case CheckCondition => [0, CONDITION_OK]
    case CheckState => [0, STATE_MPP]
    case CheckLogin => [0, if s.writeCount < 2 then 0 else 1]
    case CheckOpMode => [0, if s.writeCount < 3 then 0 else MODE_WATT]
    case _ => seq(SizeFor(s.mode), _ => 0)
  }

  predicate ReadsData(mode: SmaState) {
    IsRead(mode) && mode != CheckCondition && mode != CheckState && mode != CheckLogin && mode != CheckOpMode
  }

  /** What is noted on the way that takes longest. */
  predicate SlowNotes(mode: SmaState, s: Updater) {
    && (mode != CheckCondition && mode != CheckState ==> s.opState == STATE_MPP)
    && (mode == CheckLogin ==> s.writeCount <= 2)
    && (mode == DoLogin ==> s.writeCount <= 2)
    && (mode == CheckOpMode || mode == SetOpMode ==> s.loggedOn && s.writeCount <= 3)
    && (ReadsData(mode) ==> s.loggedOn && s.opMode == MODE_WATT)
  }

  predicate OnSlowestWay(s: Updater) {
    Polling(s) && SlowNotes(s.mode, s)
  }

  lemma {:induction false} SlowestRead(d: SmaDevice, s: Updater)
    requires IsRead(s.mode) && d.gridCode != 0 && SlowNotes(s.mode, s)
    ensures var (t, mode) := AfterRead(d, s, Slowest(s));
            && LeftIn(mode, t.writeCount) == Left(s) - 1 && SlowNotes(mode, t)
  {
    if s.mode == CheckLogin {
      LoginIs(d, s, Slowest(s));
      hide AfterRead;
    } else if s.mode == CheckOpMode {
      OpModeIs(d, s, Slowest(s));
      hide AfterRead;
    }
  }

  lemma {:induction false} SlowestStep(d: SmaDevice, s: Updater)
    requires OnSlowestWay(s) && d.gridCode != 0
    ensures var u := Reply(d, s, Slowest(s));
            Left(u) == Left(s) - 1 && (CycleIsOver(u) || OnSlowestWay(u))
  {
    hide NextAction, AfterRead, Slowest;
    OneIsAll(s, 0);
    ReplyKeepsOneTask(d, s, 0, Slowest(s));
    var t := s.(outstanding := []);
    if IsWrite(s.mode) {
      NextIs(d, t, AfterWrite(s.mode));
    } else {
      var r := t.(retryCount := 0);
      SameSlowest(s, r);
      var (u, mode) := AfterRead(d, r, Slowest(r));
      SlowestRead(d, r);
      NextIs(d, u, mode);
    }
  }

  lemma SameSlowest(s: Updater, r: Updater)
    requires s.mode == r.mode && s.writeCount == r.writeCount
    ensures Slowest(s) == Slowest(r)
  {
  }

  /** With a grid code there are replies with which the cycle is not over one reply earlier. */
  lemma {:induction false} BoundIsExact(d: SmaDevice, s: Updater) returns (replies: seq<seq<u16>>)
    requires OnSlowestWay(s) && d.gridCode != 0
    ensures |replies| == Left(s) - 1 && !CycleIsOver(Cycle(d, s, replies))
    decreases Left(s)
  {
    hide Reply, OneTask;
    SlowestStep(d, s);
    SomeLeft(s);
    var u := Reply(d, s, Slowest(s));
    if Left(s) == 1 {
      replies := [];
      assert !CycleIsOver(s) by { NotOver(s); }
    } else {
      assert !CycleIsOver(u);
      var rest := BoundIsExact(d, u);
      replies := [Slowest(s)] + rest;
      assert replies[1..] == rest;
      assert !CycleIsOver(s) by { NotOver(s); }
    }
  }

  lemma NotOver(s: Updater)
    requires Polling(s)
    ensures !CycleIsOver(s)
  {
  }

  // ---- A login that succeeds late. ----

  /** Whoever logs in or sets the mode has seen the inverter at work. */
  predicate AtWork(s: Updater) {
    s.mode == CheckLogin || s.mode == DoLogin || s.mode == CheckOpMode || s.mode == SetOpMode ==> s.opState == STATE_MPP
  }

  lemma {:induction false} StepKeepsAtWork(d: SmaDevice, s: Updater, e: SmaEvent)
    requires AtWork(s)
    ensures AtWork(SmaStep(d, s, e))
  {
    hide NextAction, AfterRead;
    match e
    case SmaReplyOk(i, values) =>
      if i < |s.outstanding| {
        var t := s.(outstanding := Without(s.outstanding, i));
        var (u, mode) := AfterRead(d, t.(retryCount := 0), values);
        ReadKeepsAtWork(d, t.(retryCount := 0), values);
        NextIs(d, u, mode);
        NextIs(d, t, AfterWrite(t.mode));
      }
    case SmaReplyError(i) =>
      if i < |s.outstanding| {
        NextIs(d, s.(outstanding := Without(s.outstanding, i)), AfterWrite(s.mode));
      }
    case SmaTimerFires => NextIs(d, s.(timer := false), if s.mode == SmaIdle then CheckCondition else s.mode);
    case SmaConnected => NextIs(d, s.(link := Up), CheckCondition);
    case _ =>
  }

  lemma {:induction false} ReadKeepsAtWork(d: SmaDevice, s: Updater, values: seq<u16>)
    requires AtWork(s)
    ensures var (t, mode) := AfterRead(d, s, values); AtWork(t.(mode := mode))
  {
  }

  lemma {:induction false} AtWorkOnEveryRun(d: SmaDevice, t: SmaTrace)
    ensures AtWork(UpdaterOf(d, t))
  {
    hide SmaStep;
    match t
    case SmaStart(_) =>
    case SmaThen(before, e) =>
      AtWorkOnEveryRun(d, before);
      StepKeepsAtWork(d, UpdaterOf(d, before), e);
  }

  /** The state that follows when a reply with data has the right size. */
  function DataNext(mode: SmaState): SmaState {
    match mode
    case ReadPowerYield => ReadACFrequency
    case ReadACFrequency => ReadACCurrent
    case ReadACCurrent => ReadACPowerAndVoltage
    case ReadACPowerAndVoltage => ReadTemperature
    case ReadTemperature => ReadPVData1
    case ReadPVData1 => ReadPVData2
    case _ => ReadLimit
  }

  /** Replies of the right sizes, up to the one that reads the limit. */
  predicate Fitting(mode: SmaState, replies: seq<seq<u16>>)
    decreases |replies|
  {
    if replies == [] then false
    else |replies[0]| == SizeFor(mode) && if mode == ReadLimit then |replies| == 1 else Fitting(DataNext(mode), replies[1..])
  }

  lemma {:induction false} DataStep(d: SmaDevice, s: Updater, values: seq<u16>)
    requires Polling(s) && ReadsData(s.mode) && s.opState == STATE_MPP && |values| == SizeFor(s.mode)
    ensures var u := Reply(d, s, values);
            && u.loggedOn == s.loggedOn && u.opMode == s.opMode && u.opState == s.opState
            && u.mode == (if s.mode != ReadLimit then DataNext(s.mode)
                          else if s.loggedOn && s.opMode == MODE_WATT then WriteLimit else SmaIdle)
            && (s.mode != ReadLimit ==> Polling(u))
  {
    hide NextAction, AfterRead;
    OneIsAll(s, 0);
    ReplyKeepsOneTask(d, s, 0, values);
    var t := s.(outstanding := [], retryCount := 0);
    var (u, mode) := AfterRead(d, t, values);
    DataRead(d, t, values);
    NextIs(d, u, mode);
  }

  lemma {:induction false} DataRead(d: SmaDevice, s: Updater, values: seq<u16>)
    requires ReadsData(s.mode) && s.opState == STATE_MPP && |values| == SizeFor(s.mode)
    ensures var (u, mode) := AfterRead(d, s, values);
            && u.loggedOn == s.loggedOn && u.opMode == s.opMode && u.opState == s.opState
            && mode == if s.mode != ReadLimit then DataNext(s.mode)
                       else if s.loggedOn && s.opMode == MODE_WATT then WriteLimit else SmaIdle
  {
  }

  lemma {:induction false} DataCycle(d: SmaDevice, s: Updater, replies: seq<seq<u16>>)
    requires Polling(s) && ReadsData(s.mode) && s.opState == STATE_MPP && Fitting(s.mode, replies)
    ensures Cycle(d, s, replies).mode == if s.loggedOn && s.opMode == MODE_WATT then WriteLimit else SmaIdle
    decreases |replies|
  {
    hide Reply, Polling, OneTask;
    var u := Reply(d, s, replies[0]);
    DataStep(d, s, replies[0]);
    if s.mode == ReadLimit {
      assert replies[1..] == [];
      assert Cycle(d, u, []) == u;
    } else {
      DataCycle(d, u, replies[1..]);
    }
  }

  /**
   On every orderly run: when the third attempt to log in has succeeded, the mode is not checked any more.
   With replies of the right sizes the cycle comes to write a limit if and only if the mode noted before,
   maybe in an earlier cycle, was power control in watts.
   */
  lemma {:induction false} ThirdLoginSkipsMode(d: SmaDevice, t: SmaTrace, values: seq<u16>, replies: seq<seq<u16>>)
    requires InOrderRun(d, t)
    requires var s := UpdaterOf(d, t); s.mode == CheckLogin && s.outstanding != [] && s.writeCount >= 3
    requires |values| == 2 && values[1] == 1 && Fitting(ReadPowerYield, replies)
    ensures var s := UpdaterOf(d, t);
            Cycle(d, s, [values] + replies).mode == if s.opMode == MODE_WATT then WriteLimit else SmaIdle
  {
    hide UpdaterOf, InOrderRun, OneTask, Fitting;
    var s := UpdaterOf(d, t);
    OneTaskOnEveryRun(d, t);
    AtWorkOnEveryRun(d, t);
    var u := Reply(d, s, values);
    ThirdLogin(d, s, values);
    assert ([values] + replies)[1..] == replies;
    DataCycle(d, u, replies);
  }

  lemma {:induction false} ThirdLogin(d: SmaDevice, s: Updater, values: seq<u16>)
    requires Polling(s) && s.mode == CheckLogin && s.writeCount >= 3 && |values| == 2 && values[1] == 1
    ensures var u := Reply(d, s, values);
            && Polling(u) && u.mode == ReadPowerYield && u.loggedOn && u.opMode == s.opMode && u.opState == s.opState
  {
    OneIsAll(s, 0);
    ReplyKeepsOneTask(d, s, 0, values);
  }

  // ---- Numbers in registers. ----

  /** getULong. */
  function GetULong(high: u16, low: u16): int {
    high * 0x1_0000 + low
  }

  /** The two registers of a login are the grid code. */
  lemma LoginIsGridCode(d: SmaDevice, s: Updater)
    requires ValidDevice(d)
    ensures var r := SmaRequest(d, s, DoLogin); GetULong(r.values[0], r.values[1]) == d.gridCode
  {
  }
}
