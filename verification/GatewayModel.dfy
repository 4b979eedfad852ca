/** The scan scheduler of InverterGateway (inverter_gateway.cpp) as a state machine over its events. */
module GatewayModel {
  import opened Addresses

  const MAX_SIMULTANEOUS_REQUESTS: nat := 64
  const NET_MASK_LIMIT: u32 := 0xFFFF_F000

  datatype ScanType = None | Full | Priority | TryPriority

  /** A HostScan: the detectors it has not started yet; one detector is at work. */
  datatype HostScan = HostScan(address: HostAddress, left: nat)

  /** What the settings, the network and the UDP detector look like. */
  datatype Environment = Environment(
    autoScan: bool,
    ipAddresses: seq<HostAddress>,
    knownIpAddresses: seq<HostAddress>,
    interfaces: seq<Interface>,
    udpFound: seq<HostAddress>,
    udpRunning: bool)

  /** The active hosts, the addresses the generator has still to give, and since its last reset: given, all. */
  datatype Pool = Pool(active: seq<HostScan>, todo: seq<HostAddress>, given: seq<HostAddress>, plan: seq<HostAddress>)

  datatype State = State(
    scanType: ScanType,
    found: set<HostAddress>,
    autoDetect: bool,
    triedFull: bool,
    fallbacks: nat,
    pool: Pool,
    env: Environment,
    detectors: nat)

  datatype Event =
    | StartDetection
    | FullScan
    | PortNumberChanged
    | IpAddressesChanged(addresses: seq<HostAddress>)
    | AutoScanChanged(on: bool)
    | InterfacesChanged(interfaces: seq<Interface>)
    | Timer
    | UdpResponse(from: HostAddress)
    | UdpTimeout
    | DeviceFound(i: nat, address: HostAddress)
    | DetectorDone(i: nat)

  /** The constructor of the generator has already listed the networks, without a limit. */
  function Init(env: Environment, detectors: nat): State {
    var hosts := NetworkHosts(EntriesOf(env.interfaces), 0, {});
    State(None, {}, false, false, 0, Pool([], hosts, [], hosts), env.(udpFound := [], udpRunning := false), detectors)
  }

  /** Appends what is not there yet. */
  function AppendNew(list: seq<HostAddress>, more: seq<HostAddress>): seq<HostAddress>
    decreases |more|
  {
    if more == [] then list
    else AppendNew(if more[0] in list then list else list + [more[0]], more[1..])
  }

  function PriorityAddresses(env: Environment): seq<HostAddress> {
    AppendNew(env.udpFound, env.ipAddresses + env.knownIpAddresses)
  }

  function SetOf(s: seq<HostAddress>): set<HostAddress> {
    set a | a in s
  }

  function PlanOf(env: Environment, scanType: ScanType): seq<HostAddress> {
    var addresses := PriorityAddresses(env);
    addresses + if scanType != Full then []
                else NetworkHosts(EntriesOf(env.interfaces), NET_MASK_LIMIT, SetOf(addresses))
  }

  function NewHosts(addresses: seq<HostAddress>, detectors: nat): seq<HostScan>
    requires detectors > 0
  {
    seq(|addresses|, i requires 0 <= i < |addresses| => HostScan(addresses[i], detectors - 1))
  }

  /** Hands out n addresses. */
  function Give(p: Pool, n: nat, detectors: nat): Pool
    requires n <= |p.todo| && detectors > 0
  {
    Pool(p.active + NewHosts(p.todo[..n], detectors), p.todo[n..], p.given + p.todo[..n], p.plan)
  }

  function Room(p: Pool): (n: nat)
    ensures n <= |p.todo|
  {
    var room := MAX_SIMULTANEOUS_REQUESTS - |p.active|;
    if room < 0 then 0 else if room < |p.todo| then room else |p.todo|
  }

  function ContinueScan(s: State): State
    requires s.detectors > 0
  {
    if s.scanType == Priority && PriorityAddresses(s.env) == [] then s
    else
      var plan := PlanOf(s.env, s.scanType);
      var p := Pool(s.pool.active, plan, [], plan);
      s.(pool := Give(p, Room(p), s.detectors))
  }

  function Scan(s: State, scanType: ScanType): State
    requires s.detectors > 0
  {
    var t := s.(scanType := scanType, found := {}, autoDetect := scanType == Full, env := s.env.(udpFound := []));
    if scanType == Full || (scanType == TryPriority && s.env.autoScan) then t.(env := t.env.(udpRunning := true))
    else ContinueScan(t)
  }

  /** onInverterFound: unless configured by hand, the address is added to the known ones. */
  function InverterFound(s: State, a: HostAddress): State {
    s.(found := s.found + {a},
       env := if a in s.env.ipAddresses then s.env
              else s.env.(knownIpAddresses := AppendNew(s.env.knownIpAddresses, [a])))
  }

  function Without<T>(s: seq<T>, i: nat): seq<T>
    requires i < |s|
  {
    s[..i] + s[i + 1..]
  }

  /** Known addresses at which no inverter was found in this scan. */
  predicate PiggiesShort(s: State) {
    exists a | a in s.env.knownIpAddresses :: a !in s.found
  }

  predicate FallsBack(s: State) {
    s.scanType == TryPriority && s.env.autoScan && PiggiesShort(s) && !s.triedFull
  }

  /** onDetectionDone for the host at index i. */
  function DetectionDone(s: State, i: nat): State
    requires s.detectors > 0 && i < |s.pool.active|
  {
    var p := s.pool.(active := Without(s.pool.active, i));
    if s.scanType != None && p.todo != [] then s.(pool := Give(p, 1, s.detectors))
    else if p.active != [] then s.(pool := p)
    else if FallsBack(s) then
      ContinueScan(s.(pool := p, scanType := Full, triedFull := true, fallbacks := s.fallbacks + 1, autoDetect := true))
    else s.(pool := p, scanType := None, autoDetect := false)
  }

  function Step(s: State, e: Event): State
    requires s.detectors > 0
  {
    match e
    case StartDetection => Scan(s, TryPriority)
    case FullScan => Scan(s, Full)
    case PortNumberChanged => Scan(s, TryPriority)
    case IpAddressesChanged(list) => Scan(s.(env := s.env.(ipAddresses := list)), Priority)
    case AutoScanChanged(on) => s.(env := s.env.(autoScan := on))
    case InterfacesChanged(ifs) => s.(env := s.env.(interfaces := ifs))
    case Timer => if s.scanType != None then s else Scan(s, TryPriority)
    case UdpResponse(a) => s.(env := s.env.(udpFound := AppendNew(s.env.udpFound, [a])))
    case UdpTimeout => if s.env.udpRunning then ContinueScan(s.(env := s.env.(udpRunning := false))) else s
    case DeviceFound(i, a) =>
      if i >= |s.pool.active| then s
      else InverterFound(s.(pool := s.pool.(active := s.pool.active[i := s.pool.active[i].(left := 0)])), a)
    case DetectorDone(i) =>
      if i >= |s.pool.active| then s
      else if s.pool.active[i].left > 0 then
        s.(pool := s.pool.(active := s.pool.active[i := s.pool.active[i].(left := s.pool.active[i].left - 1)]))
      else DetectionDone(s, i)
  }

  // ---- Runs. ----

  datatype Trace = Start(env: Environment, detectors: nat) | Then(before: Trace, event: Event)

  function StateOf(t: Trace): (s: State)
    requires Detectors(t) > 0
    ensures s.detectors == Detectors(t)
  {
    match t
    case Start(env, detectors) => Init(env, detectors)
    case Then(before, event) =>
      StepKeepsDetectors(StateOf(before), event);
      Step(StateOf(before), event)
  }

  function Detectors(t: Trace): nat {
    match t
    case Start(_, detectors) => detectors
    case Then(before, _) => Detectors(before)
  }

  lemma StepKeepsDetectors(s: State, e: Event)
    requires s.detectors > 0
    ensures Step(s, e).detectors == s.detectors
  {
  }

  // ---- What holds on every run. ----

  /** The bound of the pool, the meaning of the flags, and that each address is handed out once, in order. */
  predicate Inv(s: State) {
    && s.detectors > 0
    && |s.pool.active| <= MAX_SIMULTANEOUS_REQUESTS
    && s.autoDetect == (s.scanType == Full)
    && s.fallbacks == (if s.triedFull then 1 else 0)
    && s.pool.plan == s.pool.given + s.pool.todo
    && forall h | h in s.pool.active :: h.left < s.detectors
  }

  lemma GiveKeepsInv(p: Pool, n: nat, detectors: nat)
    requires n <= |p.todo| && detectors > 0 && p.plan == p.given + p.todo
    requires forall h | h in p.active :: h.left < detectors
    ensures var q := Give(p, n, detectors);
            && q.plan == q.given + q.todo && |q.active| == |p.active| + n
            && forall h | h in q.active :: h.left < detectors
  {
    assert p.todo == p.todo[..n] + p.todo[n..];
  }

  lemma ContinueKeepsInv(s: State)
    requires Inv(s)
    ensures Inv(ContinueScan(s))
  {
    hide NetworkHosts, PlanOf, NewHosts;
    var plan := PlanOf(s.env, s.scanType);
    var p := Pool(s.pool.active, plan, [], plan);
    assert [] + plan == plan;
    GiveKeepsInv(p, Room(p), s.detectors);
  }

  lemma DoneKeepsInv(s: State, i: nat)
    requires Inv(s) && i < |s.pool.active|
    ensures Inv(DetectionDone(s, i))
  {
    hide ContinueScan, FallsBack, NewHosts;
    var p := s.pool.(active := Without(s.pool.active, i));
    assert forall h | h in p.active :: h in s.pool.active;
    if s.scanType != None && p.todo != [] {
      GiveKeepsInv(p, 1, s.detectors);
    } else if p.active == [] && FallsBack(s) {
      assert !s.triedFull by { FallsBackOnce(s); }
      ContinueKeepsInv(s.(pool := p, scanType := Full, triedFull := true, fallbacks := s.fallbacks + 1, autoDetect := true));
    }
  }

  lemma FallsBackOnce(s: State)
    requires FallsBack(s)
    ensures !s.triedFull && s.scanType == TryPriority
  {
  }

  lemma ScanKeepsInv(s: State, scanType: ScanType)
    requires Inv(s.(scanType := scanType, autoDetect := scanType == Full))
    ensures Inv(Scan(s, scanType))
  {
    hide ContinueScan;
    var t := s.(scanType := scanType, found := {}, autoDetect := scanType == Full, env := s.env.(udpFound := []));
    ContinueKeepsInv(t);
  }

  lemma StepKeepsInv(s: State, e: Event)
    requires Inv(s)
    ensures Inv(Step(s, e))
  {
    hide Scan, ContinueScan, DetectionDone;
    match e
    case StartDetection => ScanKeepsInv(s, TryPriority);
    case FullScan => ScanKeepsInv(s, Full);
    case PortNumberChanged => ScanKeepsInv(s, TryPriority);
    case IpAddressesChanged(list) => ScanKeepsInv(s.(env := s.env.(ipAddresses := list)), Priority);
    case Timer => if s.scanType == None { ScanKeepsInv(s, TryPriority); }
    case UdpTimeout => ContinueKeepsInv(s.(env := s.env.(udpRunning := false)));
    case DetectorDone(i) => if i < |s.pool.active| && s.pool.active[i].left == 0 { DoneKeepsInv(s, i); }
    case _ =>
  }

  /**
   On every run, whatever starts or restarts a scan: at most 64 hosts at once; auto detect means a full scan;
   at most one automatic fallback; and the addresses of the current plan are handed out once each, in order.
   */
  lemma {:induction false} InvOnEveryRun(t: Trace)
    requires Detectors(t) > 0
    ensures Inv(StateOf(t)) && StateOf(t).fallbacks <= 1 && |StateOf(t).pool.active| <= 64
  {
    match t
    case Start(_, _) =>
    case Then(before, event) =>
      InvOnEveryRun(before);
      StepKeepsInv(StateOf(before), event);
  }

  // ---- Which hosts are scanned. ----

  function AddressesOf(active: seq<HostScan>): (addresses: seq<HostAddress>)
    ensures |addresses| == |active|
  {
    seq(|active|, i requires 0 <= i < |active| => active[i].address)
  }

  /** The reply with which the last detector of a host is done. */
  predicate EndsHost(s: State, e: Event) {
    e.DetectorDone? && e.i < |s.pool.active| && s.pool.active[e.i].left == 0
  }

  /** The hosts that are scanned on. */
  function KeptHosts(s: State, e: Event): (hosts: seq<HostScan>) {
    if EndsHost(s, e) then s.pool.active[..e.i] + s.pool.active[e.i + 1..] else s.pool.active
  }

  /** The addresses that a scan with this state hands out before any others. */
  predicate HasPriority(s: State) {
    s.env.udpFound != [] || s.env.ipAddresses != [] || s.env.knownIpAddresses != []
  }

  /** The generator is reset: a scan starts or goes on with a new plan. */
  predicate Restarts(s: State, e: Event)
    requires s.detectors > 0
  {
    match e
    case StartDetection => !s.env.autoScan
    case PortNumberChanged => !s.env.autoScan
    case Timer => s.scanType == None && !s.env.autoScan
    case IpAddressesChanged(list) => list != [] || s.env.knownIpAddresses != []
    case UdpTimeout => s.env.udpRunning && (s.scanType == Priority ==> HasPriority(s))
    case DetectorDone(i) => Step(s, e).fallbacks > s.fallbacks
    case _ => false
  }

  /** From s to t the hosts in kept are scanned on, and behind them those of the addresses handed out meanwhile. */
  predicate Follows(s: State, e: Event, t: State)
    requires s.detectors > 0
  {
    var n := |KeptHosts(s, e)|;
    && |t.pool.active| >= n && AddressesOf(t.pool.active[..n]) == AddressesOf(KeptHosts(s, e))
    && t.pool.given == (if Restarts(s, e) then [] else s.pool.given) + AddressesOf(t.pool.active[n..])
    && forall h | h in t.pool.active[n..] :: h.left == s.detectors - 1
  }

  lemma {:induction false} GiveFollows(p: Pool, n: nat, detectors: nat)
    requires n <= |p.todo| && detectors > 0
    ensures var q, k := Give(p, n, detectors), |p.active|;
            && |q.active| >= k && q.active[..k] == p.active && q.given == p.given + AddressesOf(q.active[k..])
            && forall h | h in q.active[k..] :: h.left == detectors - 1
  {
    var q, k := Give(p, n, detectors), |p.active|;
    assert q.active[k..] == NewHosts(p.todo[..n], detectors);
    assert AddressesOf(NewHosts(p.todo[..n], detectors)) == p.todo[..n];
  }

  /** Going on with a scan keeps the hosts, and starts others for the addresses it hands out. */
  lemma {:induction false} ContinueFollows(s: State)
    requires s.detectors > 0
    ensures var t, k := ContinueScan(s), |s.pool.active|;
            && |t.pool.active| >= k && t.pool.active[..k] == s.pool.active
            && t.pool.given == (if s.scanType == Priority && !HasPriority(s) then s.pool.given else [])
                               + AddressesOf(t.pool.active[k..])
            && forall h | h in t.pool.active[k..] :: h.left == s.detectors - 1
  {
    hide NetworkHosts, PlanOf, Give, Room, AppendNew;
    NoPriority(s.env);
    var plan := PlanOf(s.env, s.scanType);
    var p := Pool(s.pool.active, plan, [], plan);
    GiveFollows(p, Room(p), s.detectors);
    if ContinueScan(s) == s {
      assert s.pool.active[|s.pool.active|..] == [];
      assert s.pool.given + AddressesOf([]) == s.pool.given;
    }
  }

  lemma {:induction false} NoPriority(env: Environment)
    ensures PriorityAddresses(env) == [] <==> env.udpFound == [] && env.ipAddresses == [] && env.knownIpAddresses == []
  {
    hide AppendNew;
    AppendedIsEmpty(env.udpFound, env.ipAddresses + env.knownIpAddresses);
  }

  lemma {:induction false} AppendedIsEmpty(list: seq<HostAddress>, more: seq<HostAddress>)
    ensures AppendNew(list, more) == [] <==> list == [] && more == []
    decreases |more|
  {
    if more != [] {
      AppendedIsEmpty(if more[0] in list then list else list + [more[0]], more[1..]);
    }
  }

  lemma {:induction false} ScanFollows(s: State, scanType: ScanType)
    requires s.detectors > 0
    ensures var t, k := Scan(s, scanType), |s.pool.active|;
            var goesOn := !(scanType == Full || (scanType == TryPriority && s.env.autoScan));
            && |t.pool.active| >= k && t.pool.active[..k] == s.pool.active
            && t.pool.given == (if goesOn && (scanType == Priority ==> HasPriority(s.(env := s.env.(udpFound := []))))
                                then [] else s.pool.given) + AddressesOf(t.pool.active[k..])
            && forall h | h in t.pool.active[k..] :: h.left == s.detectors - 1
  {
    hide ContinueScan;
    var t := s.(scanType := scanType, found := {}, autoDetect := scanType == Full, env := s.env.(udpFound := []));
    ContinueFollows(t);
    assert s.pool.active[|s.pool.active|..] == [];
    assert s.pool.given + AddressesOf([]) == s.pool.given;
  }

  /**
   Every event: the hosts stay, in order, but for the one that is done, and behind them come the hosts of
   exactly the addresses that the generator has given out, with all detectors before them.
   */
  lemma {:induction false} StepFollows(s: State, e: Event)
    requires Inv(s)
    ensures Follows(s, e, Step(s, e))
  {
    hide Step, Follows;
    match e
    case DetectorDone(i) => ReplyFollows(s, i);
    case DeviceFound(i, a) => FoundFollows(s, i, a);
    case UdpTimeout => UdpFollows(s);
    case _ => OtherFollows(s, e);
  }

  lemma {:induction false} UdpFollows(s: State)
    requires Inv(s)
    ensures Follows(s, UdpTimeout, Step(s, UdpTimeout))
  {
    hide ContinueScan, AddressesOf;
    NothingFollows(s);
    ContinueFollows(s.(env := s.env.(udpRunning := false)));
  }

  lemma {:induction false} OtherFollows(s: State, e: Event)
    requires Inv(s) && !e.DetectorDone? && !e.DeviceFound? && !e.UdpTimeout?
    ensures Follows(s, e, Step(s, e))
  {
    hide Scan, AddressesOf, AppendNew;
    NothingFollows(s);
    match e
    case StartDetection => ScanFollows(s, TryPriority);
    case PortNumberChanged => ScanFollows(s, TryPriority);
    case Timer => ScanFollows(s, TryPriority);
    case FullScan => ScanFollows(s, Full);
    case IpAddressesChanged(list) => ScanFollows(s.(env := s.env.(ipAddresses := list)), Priority);
    case _ =>
  }

  lemma NothingFollows(s: State)
    ensures s.pool.active[|s.pool.active|..] == [] && s.pool.active[..|s.pool.active|] == s.pool.active
    ensures s.pool.given + AddressesOf([]) == s.pool.given
  {
  }

  lemma {:induction false} FoundFollows(s: State, i: nat, a: HostAddress)
    requires Inv(s)
    ensures Follows(s, DeviceFound(i, a), Step(s, DeviceFound(i, a)))
  {
    hide AppendNew;
    NothingFollows(s);
    var t := Step(s, DeviceFound(i, a));
    NothingFollows(t);
  }

  lemma {:induction false} ReplyFollows(s: State, i: nat)
    requires Inv(s)
    ensures Follows(s, DetectorDone(i), Step(s, DetectorDone(i)))
  {
    hide ContinueScan, FallsBack, Give;
    var t := Step(s, DetectorDone(i));
    NothingFollows(s);
    NothingFollows(t);
    if EndsHost(s, DetectorDone(i)) {
      var p := s.pool.(active := Without(s.pool.active, i));
      if s.scanType != None && p.todo != [] {
        GiveFollows(p, 1, s.detectors);
      } else if p.active == [] && FallsBack(s) {
        var u := s.(pool := p, scanType := Full, triedFull := true, fallbacks := s.fallbacks + 1, autoDetect := true);
        ContinueFollows(u);
        ContinueKeepsCounters(u);
      }
    }
  }

  /** The addresses of the hosts that were created since the generator was reset. */
  function Created(t: Trace): seq<HostAddress>
    requires Detectors(t) > 0
  {
    match t
    case Start(_, _) => []
    case Then(before, e) =>
      var s := StateOf(before);
      InvOnEveryRun(before);
      StepFollows(s, e);
      (if Restarts(s, e) then [] else Created(before)) + AddressesOf(StateOf(t).pool.active[|KeptHosts(s, e)|..])
  }

  /** On every run the hosts created since then are those of the addresses given out, in order. */
  lemma {:induction false} CreatedAreGiven(t: Trace)
    requires Detectors(t) > 0
    ensures Created(t) == StateOf(t).pool.given
  {
    hide Restarts, KeptHosts, Step;
    match t
    case Start(_, _) =>
    case Then(before, e) =>
      InvOnEveryRun(before);
      StepFollows(StateOf(before), e);
      CreatedAreGiven(before);
  }

  // ---- A scan that starts without hosts and is not restarted. ----

  /** The events that ask for a scan. */
  predicate StartsScan(e: Event) {
    e.StartDetection? || e.FullScan? || e.PortNumberChanged? || e.IpAddressesChanged?
  }

  /** The events that start one, the periodic timer among them if there is none. */
  predicate Starts(s: State, e: Event) {
    StartsScan(e) || (e == Timer && s.scanType == None)
  }

  /** No host of another scan is active, and the UDP detector does not run for one. */
  predicate Quiescent(s: State) {
    s.pool.active == [] && !s.env.udpRunning
  }

  /** When the last scan was started, whatever went before, there was no host and the UDP detector did not run. */
  predicate OrderlyScan(t: Trace)
    requires Detectors(t) > 0
  {
    match t
    case Start(_, _) => true
    case Then(before, event) => if Starts(StateOf(before), event) then Quiescent(StateOf(before)) else OrderlyScan(before)
  }

  /**
   When nothing is scanned, or while the UDP detector runs, there is no host. As long as there are hosts
   and addresses are left, the pool is full.
   */
  predicate Calm(s: State) {
    && Inv(s)
    && (s.scanType == None ==> !s.env.udpRunning)
    && (s.scanType == None || s.env.udpRunning ==> s.pool.active == [])
    && (s.pool.active != [] && s.pool.todo != [] ==> |s.pool.active| == MAX_SIMULTANEOUS_REQUESTS)
  }

  lemma ContinueIsCalm(s: State)
    requires Inv(s) && s.scanType != None && !s.env.udpRunning && s.pool.active == []
    ensures Calm(ContinueScan(s))
    ensures ContinueScan(s).pool.active == [] ==> ContinueScan(s).pool == s.pool || ContinueScan(s).pool.plan == []
  {
    hide NetworkHosts, PlanOf, NewHosts;
    ContinueKeepsInv(s);
    var plan := PlanOf(s.env, s.scanType);
    var p := Pool(s.pool.active, plan, [], plan);
    GiveKeepsInv(p, Room(p), s.detectors);
  }

  lemma ScanIsCalm(s: State, scanType: ScanType)
    requires Inv(s) && Quiescent(s) && scanType != None
    ensures Calm(Scan(s, scanType))
  {
    hide ContinueScan;
    ScanKeepsInv(s, scanType);
    var t := s.(scanType := scanType, found := {}, autoDetect := scanType == Full, env := s.env.(udpFound := []));
    ContinueIsCalm(t);
  }

  lemma DoneIsCalm(s: State, i: nat)
    requires Calm(s) && i < |s.pool.active|
    ensures Calm(DetectionDone(s, i))
  {
    hide ContinueScan, FallsBack, NewHosts;
    DoneKeepsInv(s, i);
    var p := s.pool.(active := Without(s.pool.active, i));
    if s.scanType != None && p.todo != [] {
      GiveLength(p, s.detectors);
    } else if p.active == [] && FallsBack(s) {
      var t := s.(pool := p, scanType := Full, triedFull := true, fallbacks := s.fallbacks + 1, autoDetect := true);
      FallsBackOnce(s);
      ContinueIsCalm(t);
    }
  }

  lemma GiveLength(p: Pool, detectors: nat)
    requires p.todo != [] && detectors > 0
    ensures |Give(p, 1, detectors).active| == |p.active| + 1
  {
  }

  lemma StepIsCalm(s: State, e: Event)
    requires Inv(s) && if Starts(s, e) then Quiescent(s) else Calm(s)
    ensures Calm(Step(s, e))
  {
    hide Scan, ContinueScan, DetectionDone;
    StepKeepsInv(s, e);
    match e
    case StartDetection => ScanIsCalm(s, TryPriority);
    case FullScan => ScanIsCalm(s, Full);
    case PortNumberChanged => ScanIsCalm(s, TryPriority);
    case IpAddressesChanged(list) => ScanIsCalm(s.(env := s.env.(ipAddresses := list)), Priority);
    case Timer => if s.scanType == None { ScanIsCalm(s, TryPriority); }
    case UdpTimeout => if s.env.udpRunning { ContinueIsCalm(s.(env := s.env.(udpRunning := false))); }
    case DetectorDone(i) => if i < |s.pool.active| && s.pool.active[i].left == 0 { DoneIsCalm(s, i); }
    case _ =>
  }

  /** In a scan that started without hosts and was not restarted the pool is full as long as addresses are left. */
  lemma {:induction false} CalmInOrderlyScan(t: Trace)
    requires Detectors(t) > 0 && OrderlyScan(t)
    ensures Calm(StateOf(t))
  {
    match t
    case Start(_, _) =>
    case Then(before, event) =>
      InvOnEveryRun(before);
      if !Starts(StateOf(before), event) {
        CalmInOrderlyScan(before);
      }
      StepIsCalm(StateOf(before), event);
  }

  /** When such a scan ends, it has handed out every address of its plan, and every host is done. */
  lemma {:induction false} ScanEndsComplete(t: Trace, e: Event)
    requires Detectors(t) > 0 && OrderlyScan(t)
    requires StateOf(t).scanType != None && Step(StateOf(t), e).scanType == None
    ensures var p := Step(StateOf(t), e).pool;
            p.active == [] && p.todo == [] && p.given == p.plan == StateOf(t).pool.plan
  {
    hide NetworkHosts, PlanOf, NewHosts, StateOf;
    var s := StateOf(t);
    CalmInOrderlyScan(t);
    EndsByDetector(s, e);
    StepKeepsInv(s, e);
  }

  lemma {:induction false} EndsByDetector(s: State, e: Event)
    requires Inv(s) && s.scanType != None && Step(s, e).scanType == None
    ensures e.DetectorDone? && |s.pool.active| == 1 && s.pool.todo == []
    ensures Step(s, e).pool == s.pool.(active := [])
  {
    hide PlanOf, NewHosts;
  }

  /** What is still to do: one call for each detector that is at work or waits. */
  function Work(active: seq<HostScan>): nat {
    if active == [] then 0 else active[0].left + 1 + Work(active[1..])
  }

  function Effort(s: State): nat {
    Work(s.pool.active) + s.detectors * |s.pool.todo|
  }

  lemma {:induction false} WorkAppend(a: seq<HostScan>, b: seq<HostScan>)
    ensures Work(a + b) == Work(a) + Work(b)
  {
    if a == [] {
      assert a + b == b;
    } else {
      assert (a + b)[1..] == a[1..] + b;
      WorkAppend(a[1..], b);
    }
  }

  lemma WorkAt(active: seq<HostScan>, i: nat)
    requires i < |active|
    ensures Work(active) == Work(Without(active, i)) + active[i].left + 1
    ensures forall h :: Work(active[i := h]) == Work(Without(active, i)) + h.left + 1
  {
    var a, b := active[..i], active[i + 1..];
    WorkAppend(a, b);
    forall h ensures Work(active[i := h]) == Work(Without(active, i)) + h.left + 1 {
      assert active[i := h] == a + ([h] + b);
      WorkAppend(a, [h] + b);
      assert ([h] + b)[1..] == b;
    }
    assert active[i := active[i]] == active;
  }

  /**
   Each reply of a detector brings the scan one step nearer to its end: after exactly as many replies as
   there is effort left the scan is over, or falls back to a full one, unless an inverter is found before.
   */
  lemma ScanProceeds(s: State, i: nat)
    requires Inv(s) && s.scanType != None && i < |s.pool.active|
    ensures var s' := Step(s, DetectorDone(i));
            || (Effort(s') == Effort(s) - 1 && s'.scanType == s.scanType)
            || (Effort(s) == 1 && (s'.scanType == None || s'.fallbacks == s.fallbacks + 1))
  {
    hide ContinueScan, FallsBack;
    WorkAt(s.pool.active, i);
    var h := s.pool.active[i];
    var rest := Without(s.pool.active, i);
    if h.left == 0 {
      if s.pool.todo != [] {
        GivesWork(s.pool.(active := rest), s.detectors);
      } else if rest == [] {
        ContinueKeepsCounters(s.(pool := s.pool.(active := rest), scanType := Full, triedFull := true, fallbacks := s.fallbacks + 1, autoDetect := true));
      }
    }
  }

  /** The scan is over, or has become a full one. */
  predicate Over(s: State, fallbacks: nat) {
    s.scanType == None || s.fallbacks > fallbacks
  }

  lemma HostsAreLeft(s: State, i: nat)
    requires Inv(s) && s.scanType != None && i < |s.pool.active|
    ensures var t := Step(s, DetectorDone(i)); Over(t, s.fallbacks) || t.pool.active != []
    ensures Step(s, DetectorDone(i)).fallbacks >= s.fallbacks
  {
    hide ContinueScan, FallsBack;
    var rest := Without(s.pool.active, i);
    if s.pool.active[i].left == 0 && s.pool.todo == [] && rest == [] {
      ContinueKeepsCounters(s.(pool := s.pool.(active := rest), scanType := Full, triedFull := true,
                               fallbacks := s.fallbacks + 1, autoDetect := true));
    }
  }

  /** A scan is under way: it has a host, and does not wait for the UDP detector. */
  predicate UnderWay(s: State) {
    Inv(s) && s.scanType != None && s.pool.active != [] && !s.env.udpRunning
  }

  /** A detector of an active host answers. */
  predicate Answers(s: State, e: Event) {
    e.DetectorDone? && e.i < |s.pool.active|
  }

  lemma {:induction false} FindingShortens(s: State, i: nat, a: HostAddress)
    requires Inv(s) && i < |s.pool.active|
    ensures Effort(Step(s, DeviceFound(i, a))) <= Effort(s)
  {
    hide AppendNew;
    WorkAt(s.pool.active, i);
  }

  /** A known address is one of the priority addresses. */
  lemma {:induction false} Appended(list: seq<HostAddress>, more: seq<HostAddress>, a: HostAddress)
    requires a in list || a in more
    ensures a in AppendNew(list, more)
    decreases |more|
  {
    if more != [] {
      Appended(if more[0] in list then list else list + [more[0]], more[1..], a);
    }
  }

  /** A scan falls back because of a known address, so the full one has a host. */
  lemma {:induction false} FallbackHasHost(s: State, t: State)
    requires Inv(s) && PiggiesShort(s) && s.pool.active == []
    requires t == s.(scanType := Full, triedFull := true, fallbacks := s.fallbacks + 1, autoDetect := true)
    ensures ContinueScan(t).pool.active != [] && ContinueScan(t) == t.(pool := ContinueScan(t).pool)
  {
    hide NetworkHosts, AppendNew;
    var a :| a in s.env.knownIpAddresses && a !in s.found;
    Appended(s.env.udpFound, s.env.ipAddresses + s.env.knownIpAddresses, a);
    var plan := PlanOf(t.env, Full);
    assert a in plan;
    var p := Pool([], plan, [], plan);
    assert |Give(p, Room(p), t.detectors).active| == Room(p) > 0;
  }

  /** The host that answers is the last one, and an address is missing: the fallback is under way. */
  lemma {:induction false} AnswerStep(s: State, e: Event)
    requires UnderWay(s) && Answers(s, e)
    ensures var t := Step(s, e);
            t.scanType == None ||
            (UnderWay(t) && if t.fallbacks == s.fallbacks then Effort(t) + 1 == Effort(s) else t.fallbacks == s.fallbacks + 1)
  {
    hide ContinueScan, Effort;
    var i := e.i;
    StepKeepsInv(s, e);
    ScanProceeds(s, i);
    var rest := Without(s.pool.active, i);
    if s.pool.active[i].left == 0 && s.pool.todo == [] && rest == [] && FallsBack(s) {
      var t := s.(pool := s.pool.(active := rest));
      FallbackHasHost(t, t.(scanType := Full, triedFull := true, fallbacks := s.fallbacks + 1, autoDetect := true));
    } else {
      AnswerGoesOn(s, e);
    }
  }

  lemma {:induction false} AnswerGoesOn(s: State, e: Event)
    requires UnderWay(s) && Answers(s, e)
    requires !(s.pool.active[e.i].left == 0 && s.pool.todo == [] && Without(s.pool.active, e.i) == [] && FallsBack(s))
    ensures var t := Step(s, e);
            t.scanType == None || (t.fallbacks == s.fallbacks && t.pool.active != [] && !t.env.udpRunning)
  {
    hide ContinueScan, FallsBack;
  }

  /** Any event that does not ask for a scan: the scan is over, goes on, or falls back to a full one with a host. */
  lemma {:induction false} EventStep(s: State, e: Event)
    requires UnderWay(s) && !StartsScan(e)
    ensures var t := Step(s, e);
            t.scanType == None ||
            (UnderWay(t) && if t.fallbacks == s.fallbacks then Effort(t) + (if Answers(s, e) then 1 else 0) <= Effort(s)
                            else t.fallbacks == s.fallbacks + 1)
  {
    if Answers(s, e) {
      hide Effort, Step;
      AnswerStep(s, e);
    } else {
      StepKeepsInv(s, e);
      OtherStep(s, e);
    }
  }

  lemma {:induction false} OtherStep(s: State, e: Event)
    requires UnderWay(s) && !StartsScan(e) && !Answers(s, e)
    ensures var t := Step(s, e);
            && t.scanType == s.scanType && t.fallbacks == s.fallbacks && t.pool.active != [] && !t.env.udpRunning
            && Effort(t) <= Effort(s)
  {
    hide AppendNew, DetectionDone;
    if e.DeviceFound? && e.i < |s.pool.active| {
      FindingShortens(s, e.i, e.address);
    }
  }

  /** How many events of a run are answers of a detector of an active host. */
  function AnswersIn(s: State, es: seq<Event>): nat
    requires s.detectors > 0
    decreases |es|
  {
    if es == [] then 0
    else
      StepKeepsDetectors(s, es[0]);
      (if Answers(s, es[0]) then 1 else 0) + AnswersIn(Step(s, es[0]), es[1..])
  }

  /**
   Whatever else happens, unless another scan is asked for: at some point of a run with as many answers of
   detectors as there is effort left the scan is over, or has fallen back to a full one that is under way.
   */
  lemma {:induction false} ScanEnds(s: State, es: seq<Event>) returns (k: nat)
    requires UnderWay(s) && (forall e | e in es :: !StartsScan(e)) && AnswersIn(s, es) >= Effort(s)
    ensures k <= |es|
    ensures var t := After(s, es[..k]); t.scanType == None || (UnderWay(t) && t.fallbacks == s.fallbacks + 1)
    decreases |es|
  {
    InvDetectors(s);
    hide UnderWay, Step, Effort, Answers;
    SomeEffort(s) by { WayHasHost(s); }
    var t := Step(s, es[0]);
    EventStep(s, es[0]);
    StepKeepsDetectors(s, es[0]);
    if t.scanType == None || t.fallbacks != s.fallbacks {
      k := 1;
      assert es[..1][1..] == [];
    } else {
      var n := ScanEnds(t, es[1..]);
      k := n + 1;
      assert es[..k][1..] == es[1..][..n];
    }
  }

  lemma WayHasHost(s: State)
    requires UnderWay(s)
    ensures s.pool.active != []
  {
  }

  lemma SomeEffort(s: State)
    requires s.pool.active != []
    ensures Effort(s) > 0
  {
  }

  lemma ContinueKeepsCounters(s: State)
    requires s.detectors > 0
    ensures ContinueScan(s) == s.(pool := ContinueScan(s).pool)
  {
    hide PlanOf, Give, Room, PriorityAddresses;
  }

  lemma GivesWork(p: Pool, detectors: nat)
    requires p.todo != [] && detectors > 0
    ensures var q := Give(p, 1, detectors); Work(q.active) == Work(p.active) + detectors && |q.todo| == |p.todo| - 1
    ensures detectors * |p.todo| == detectors * (|p.todo| - 1) + detectors
  {
    var hosts := NewHosts(p.todo[..1], detectors);
    WorkAppend(p.active, hosts);
    assert hosts == [HostScan(p.todo[0], detectors - 1)];
    assert Work(hosts) == detectors by { assert hosts[1..] == []; }
  }

  // ---- Scans that do not end. ----

  /** A scan that has no host and does not wait for the UDP detector: nothing is left that could end it. */
  predicate Stuck(s: State) {
    s.scanType != None && s.pool.active == [] && !s.env.udpRunning
  }

  /** A scan that goes on without a host gets stuck if and only if its plan is empty. */
  lemma {:induction false} StuckWithoutPlan(s: State)
    requires s.detectors > 0 && s.scanType != None && s.pool.active == [] && !s.env.udpRunning
    ensures Stuck(ContinueScan(s)) <==> PlanOf(s.env, s.scanType) == []
  {
    hide PriorityAddresses, NetworkHosts;
    var plan := PlanOf(s.env, s.scanType);
    if s.scanType != Priority || PriorityAddresses(s.env) != [] {
      var p := Pool([], plan, [], plan);
      assert |Give(p, Room(p), s.detectors).active| == Room(p);
    }
  }

  /** A stuck scan stays stuck, unless another scan is asked for; the periodic timer does not ask. */
  lemma {:induction false} StuckStays(s: State, e: Event)
    requires s.detectors > 0 && Stuck(s) && !StartsScan(e)
    ensures Step(s, e).detectors > 0 && Stuck(Step(s, e)) && Step(s, e).pool == s.pool
  {
  }

  /** The state after some events. */
  function After(s: State, es: seq<Event>): State
    requires s.detectors > 0
    decreases |es|
  {
    if es == [] then s
    else
      StepKeepsDetectors(s, es[0]);
      After(Step(s, es[0]), es[1..])
  }

  lemma {:induction false} StuckForEver(s: State, es: seq<Event>)
    requires s.detectors > 0 && Stuck(s) && forall e | e in es :: !StartsScan(e)
    ensures Stuck(After(s, es)) && After(s, es).pool == s.pool
    decreases |es|
  {
    hide Step;
    if es != [] {
      StuckStays(s, es[0]);
      StuckForEver(Step(s, es[0]), es[1..]);
    }
  }

  // ---- Scans that end. ----

  /** A run without end, of events that do not ask for a scan. */
  ghost predicate Undisturbed(es: nat -> Event) {
    forall n: nat :: !StartsScan(es(n))
  }

  /** The state before event n. */
  function At(s: State, es: nat -> Event, n: nat): State
    requires s.detectors > 0
    ensures At(s, es, n).detectors > 0
  {
    if n == 0 then s
    else
      StepKeepsDetectors(At(s, es, n - 1), es(n - 1));
      Step(At(s, es, n - 1), es(n - 1))
  }

  /** From event n on, a detector of an active host answers at some time. */
  ghost predicate AnsweredFrom(s: State, es: nat -> Event, n: nat)
    requires s.detectors > 0
  {
    exists m: nat :: m >= n && Answers(At(s, es, m), es(m))
  }

  /** As long as there are hosts, detectors answer. */
  ghost predicate DetectorsAnswer(s: State, es: nat -> Event)
    requires s.detectors > 0
  {
    forall n: nat :: At(s, es, n).pool.active != [] ==> AnsweredFrom(s, es, n)
  }

  ghost predicate ComesToEnd(s: State, es: nat -> Event)
    requires s.detectors > 0
  {
    exists n: nat :: At(s, es, n).scanType == None
  }

  /** Up to event m the scan is under way, or over, or has fallen back. */
  lemma {:induction false} Meanwhile(s: State, es: nat -> Event, n: nat, m: nat) returns (k: nat)
    requires s.detectors > 0 && Undisturbed(es) && n <= m && UnderWay(At(s, es, n))
    ensures n <= k <= m
    ensures var a, t := At(s, es, n), At(s, es, k);
            if t.scanType == None then true
            else UnderWay(t) && if t.fallbacks == a.fallbacks then k == m && Effort(t) <= Effort(a)
                                else t.fallbacks == a.fallbacks + 1
    decreases m
  {
    hide UnderWay, Effort, Step, Answers;
    k := n;
    if n < m {
      k := Meanwhile(s, es, n, m - 1);
      var t := At(s, es, k);
      if t.scanType != None && t.fallbacks == At(s, es, n).fallbacks {
        EventStep(t, es(k));
        k := m;
      }
    }
  }

  /** With the next answer the scan is over, has fallen back, or is nearer to its end. */
  lemma {:induction false} Nearer(s: State, es: nat -> Event, n: nat) returns (k: nat)
    requires s.detectors > 0 && Undisturbed(es) && DetectorsAnswer(s, es) && UnderWay(At(s, es, n))
    ensures k >= n
    ensures var a, t := At(s, es, n), At(s, es, k);
            t.scanType == None ||
            (UnderWay(t) && if t.fallbacks == a.fallbacks then Effort(t) < Effort(a) else t.fallbacks == a.fallbacks + 1)
  {
    hide UnderWay, Effort, Step, Answers, At, DetectorsAnswer;
    var m := NextAnswer(s, es, n);
    k := Meanwhile(s, es, n, m);
    var t := At(s, es, k);
    if t.scanType != None && t.fallbacks == At(s, es, n).fallbacks {
      AnswerStep(t, es(m));
      AtNext(s, es, m);
      k := m + 1;
    }
  }

  /** With answers to come, the scan is over at some time, or has fallen back. */
  lemma {:induction false} PhaseEnds(s: State, es: nat -> Event, n: nat) returns (k: nat)
    requires s.detectors > 0 && Undisturbed(es) && DetectorsAnswer(s, es) && UnderWay(At(s, es, n))
    ensures k >= n
    ensures var t := At(s, es, k); t.scanType == None || (UnderWay(t) && t.fallbacks == At(s, es, n).fallbacks + 1)
    decreases Effort(At(s, es, n))
  {
    hide UnderWay, Effort, At, Undisturbed, DetectorsAnswer;
    k := Nearer(s, es, n);
    var t := At(s, es, k);
    if t.scanType != None && t.fallbacks == At(s, es, n).fallbacks {
      k := PhaseEnds(s, es, k);
    }
  }

  lemma NextAnswer(s: State, es: nat -> Event, n: nat) returns (m: nat)
    requires s.detectors > 0 && DetectorsAnswer(s, es) && UnderWay(At(s, es, n))
    ensures m >= n && Answers(At(s, es, m), es(m))
  {
    hide At, Answers, Step;
    assert AnsweredFrom(s, es, n);
    m :| m >= n && Answers(At(s, es, m), es(m));
  }

  lemma AtNext(s: State, es: nat -> Event, n: nat)
    requires s.detectors > 0
    ensures At(s, es, n + 1) == Step(At(s, es, n), es(n))
  {
  }

  /** A scan under way comes to its end, at the latest with the full scan that it falls back to. */
  lemma {:induction false} WayEnds(s: State, es: nat -> Event)
    requires UnderWay(s) && s.detectors > 0 && Undisturbed(es) && DetectorsAnswer(s, es)
    ensures ComesToEnd(s, es)
  {
    hide UnderWay, DetectorsAnswer;
    assert At(s, es, 0) == s;
    var k := PhaseEnds(s, es, 0);
    var t := At(s, es, k);
    if t.scanType != None {
      var l := PhaseEnds(s, es, k);
      OneFallback(s, t, At(s, es, l));
      assert At(s, es, l).scanType == None;
    } else {
      assert At(s, es, k).scanType == None;
    }
  }

  /** There is no second fallback. */
  lemma OneFallback(s: State, t: State, u: State)
    requires t.fallbacks == s.fallbacks + 1
    ensures !(UnderWay(u) && u.fallbacks == t.fallbacks + 1)
  {
  }

  lemma {:induction false} StuckAt(s: State, es: nat -> Event, n: nat)
    requires s.detectors > 0 && Stuck(s) && Undisturbed(es)
    ensures Stuck(At(s, es, n))
    decreases n
  {
    hide Step, Stuck;
    if n > 0 {
      StuckAt(s, es, n - 1);
      StuckStays(At(s, es, n - 1), es(n - 1));
    }
  }

  ghost predicate AlwaysEnds(s: State)
    requires s.detectors > 0
  {
    forall es | Undisturbed(es) && DetectorsAnswer(s, es) :: ComesToEnd(s, es)
  }

  /**
   A scan that goes on without a host comes to its end on every run in which no scan is asked for and the
   detectors answer, whatever they find and whatever else happens, if and only if there is an address to scan.
   */
  lemma {:induction false} EndsUnlessEmpty(s: State)
    requires Inv(s) && s.scanType != None && s.pool.active == [] && !s.env.udpRunning
    ensures var t := ContinueScan(s);
            Inv(t) && (AlwaysEnds(t) <==> PlanOf(s.env, s.scanType) != [])
  {
    hide ContinueScan, Inv, PlanOf, ComesToEnd, DetectorsAnswer;
    InvDetectors(s);
    var t := ContinueScan(s);
    ContinueKeepsInv(s);
    InvDetectors(t);
    ContinueKeepsCounters(s);
    StuckWithoutPlan(s);
    if Stuck(t) {
      var es: nat -> Event := n => UdpTimeout;
      StuckRuns(t, es);
      assert !AlwaysEnds(t);
    } else {
      forall es | Undisturbed(es) && DetectorsAnswer(t, es) ensures ComesToEnd(t, es) {
        WayEnds(t, es);
      }
    }
  }

  lemma {:induction false} StuckRuns(s: State, es: nat -> Event)
    requires s.detectors > 0 && Stuck(s) && Undisturbed(es)
    ensures DetectorsAnswer(s, es) && !ComesToEnd(s, es)
  {
    forall n: nat ensures Stuck(At(s, es, n)) {
      StuckAt(s, es, n);
    }
  }

  lemma InvDetectors(s: State)
    requires Inv(s)
    ensures s.detectors > 0
  {
  }

  /** At the first start, with automatic scans but without a known address, a detection that finds nothing is stuck. */
  lemma {:induction false} FirstStartIsStuck(env: Environment, detectors: nat, es: seq<Event>)
    requires detectors > 0 && env.ipAddresses == [] && env.knownIpAddresses == []
    requires forall e | e in es :: !StartsScan(e)
    ensures var a := Step(Init(env, detectors), StartDetection);
            var b := if env.autoScan then Step(a, UdpTimeout) else a;
            b.scanType == TryPriority && Stuck(b) && Stuck(After(b, es))
  {
    hide NetworkHosts, After;
    assert AppendNew([], [] + []) == [];
    var a := Step(Init(env, detectors), StartDetection);
    var b := if env.autoScan then Step(a, UdpTimeout) else a;
    StuckForEver(b, es);
  }

  // ---- A full scan that is asked for while hosts of another scan are active. ----

  /** Events that neither ask for a scan nor end the UDP detector. */
  predicate Quiet(e: Event) {
    !StartsScan(e) && e != UdpTimeout
  }

  lemma {:induction false} QuietKeepsEmpty(s: State, es: seq<Event>)
    requires s.detectors > 0 && s.scanType == Full && s.pool.active == [] && forall e | e in es :: Quiet(e)
    ensures After(s, es).scanType == Full && After(s, es).pool.active == []
    decreases |es|
  {
    hide AppendNew;
    if es != [] {
      assert Quiet(es[0]);
      QuietKeepsEmpty(Step(s, es[0]), es[1..]);
    }
  }

  /** What is left of another scan ends the full one, before the UDP detector does. */
  lemma {:induction false} OldHostsEndIt(s: State) returns (es: seq<Event>)
    requires Inv(s) && s.scanType == Full && s.pool.active != [] && s.env.udpRunning
    ensures forall e | e in es :: Quiet(e)
    ensures var t := After(s, es);
            && Inv(t) && t.scanType == None && !t.autoDetect && t.pool.active == [] && t.env == s.env
    decreases Effort(s)
  {
    hide Inv, Effort, After;
    InvDetectors(s);
    var e := DetectorDone(0);
    var t := Step(s, e);
    SomeEffort(s);
    ScanProceeds(s, 0);
    HostsAreLeft(s, 0);
    StepKeepsInv(s, e);
    FullStep(s);
    AfterOne(s, e, []);
    if t.scanType == None {
      es := [e];
      InvFlags(t);
      assert [e] + [] == [e];
    } else {
      var rest := OldHostsEndIt(t);
      es := [e] + rest;
      AfterOne(s, e, rest);
    }
  }

  lemma AfterOne(s: State, e: Event, es: seq<Event>)
    requires s.detectors > 0
    ensures Step(s, e).detectors > 0 && After(s, [e] + es) == After(Step(s, e), es) && After(Step(s, e), []) == Step(s, e)
  {
    StepKeepsDetectors(s, e);
    assert ([e] + es)[1..] == es;
  }

  lemma InvFlags(s: State)
    requires Inv(s)
    ensures s.autoDetect == (s.scanType == Full)
  {
  }

  /** The reply of a detector during a full scan: it goes on, or it is over. */
  lemma {:induction false} FullStep(s: State)
    requires s.detectors > 0 && s.scanType == Full && s.pool.active != []
    ensures var t := Step(s, DetectorDone(0));
            && t.env == s.env && t.fallbacks == s.fallbacks
            && if t.scanType == None then t.pool.active == [] else t.scanType == Full
  {
  }

  /** A full scan waits for the UDP detector, whatever comes first, if and only if there was no host when it was asked for. */
  lemma {:induction false} FullScanSurvives(s: State)
    requires Inv(s)
    ensures Step(s, FullScan).detectors > 0
    ensures (forall es | (forall e | e in es :: Quiet(e)) :: After(Step(s, FullScan), es).scanType == Full)
            <==> s.pool.active == []
  {
    hide After, Effort;
    var a := Step(s, FullScan);
    StepKeepsInv(s, FullScan);
    if s.pool.active == [] {
      forall es | forall e | e in es :: Quiet(e) ensures After(a, es).scanType == Full {
        QuietKeepsEmpty(a, es);
      }
    } else {
      var es := OldHostsEndIt(a);
      assert After(a, es).scanType == None;
    }
  }

  /**
   With a host left from another scan the full scan can be lost: the UDP detector then starts a scan of the
   priority addresses only, which nothing continues.
   */
  lemma {:induction false} FullScanIsLost(s: State) returns (es: seq<Event>)
    requires Inv(s) && s.pool.active != []
    ensures Step(s, FullScan).detectors > 0 && forall e | e in es :: Quiet(e)
    ensures var b := After(Step(s, FullScan), es);
            b.detectors > 0 &&
            var c := Step(b, UdpTimeout);
            && b.scanType == None && !b.autoDetect && b.env.udpRunning
            && c.scanType == None && c.pool.plan == PriorityAddresses(c.env)
            && c.detectors > 0 && forall i :: Step(c, DetectorDone(i)).pool.todo == c.pool.todo
  {
    hide After, PriorityAddresses, NewHosts;
    var a := Step(s, FullScan);
    StepKeepsInv(s, FullScan);
    es := OldHostsEndIt(a);
    var b := After(a, es);
    assert PlanOf(b.env.(udpRunning := false), None) == PriorityAddresses(b.env.(udpRunning := false));
  }

  // ---- When a plan names no address twice. ----

  predicate NoRepeats(s: seq<HostAddress>) {
    forall i, j | 0 <= i < j < |s| :: s[i] != s[j]
  }

  lemma {:induction false} AppendNewKeeps(list: seq<HostAddress>, more: seq<HostAddress>)
    requires NoRepeats(list)
    ensures NoRepeats(AppendNew(list, more))
    decreases |more|
  {
    if more != [] {
      AppendNewKeeps(if more[0] in list then list else list + [more[0]], more[1..]);
    }
  }

  /** No address is found twice by UDP, on every run. */
  lemma {:induction false} UdpFoundOnce(t: Trace)
    requires Detectors(t) > 0
    ensures NoRepeats(StateOf(t).env.udpFound)
  {
    match t
    case Start(_, _) =>
    case Then(before, event) =>
      UdpFoundOnce(before);
      UdpStep(StateOf(before), event);
  }

  lemma {:induction false} UdpStep(s: State, e: Event)
    requires s.detectors > 0 && NoRepeats(s.env.udpFound)
    ensures NoRepeats(Step(s, e).env.udpFound)
  {
    hide AppendNew, PlanOf, NoRepeats;
    assert NoRepeats([]) by { NoneTwice(); }
    if e.UdpResponse? {
      AppendNewKeeps(s.env.udpFound, [e.from]);
    }
  }

  lemma NoneTwice()
    ensures NoRepeats([])
  {
  }

  /** The addresses that are scanned for an entry. */
  function HostsOf(e: Entry, exceptions: set<HostAddress>): seq<HostAddress>
    requires UsableEntry(e)
  {
    Hosts(FirstOf(e, NET_MASK_LIMIT) + 1, LastOf(e, NET_MASK_LIMIT), e.ip.a, exceptions)
  }

  predicate Apart(a: seq<HostAddress>, b: seq<HostAddress>) {
    forall h | h in a :: h !in b
  }

  /** No address belongs to two of the networks. */
  predicate Disjoint(us: seq<Entry>, exceptions: set<HostAddress>)
    requires forall u | u in us :: UsableEntry(u)
  {
    forall i, j | 0 <= i < j < |us| :: Apart(HostsOf(us[i], exceptions), HostsOf(us[j], exceptions))
  }

  lemma {:induction false} HostsOnce(e: Entry, exceptions: set<HostAddress>)
    requires UsableEntry(e)
    ensures NoRepeats(HostsOf(e, exceptions))
  {
    var hs := HostsOf(e, exceptions);
    forall i, j | 0 <= i < j < |hs| ensures hs[i] != hs[j] {
      HostsAscend(FirstOf(e, NET_MASK_LIMIT) + 1, LastOf(e, NET_MASK_LIMIT), e.ip.a, exceptions, i, j);
    }
  }

  /** Two lists have no repetition together if and only if neither has one and they have nothing in common. */
  lemma {:induction false} OnceTogether(a: seq<HostAddress>, b: seq<HostAddress>)
    ensures NoRepeats(a + b) <==> NoRepeats(a) && NoRepeats(b) && Apart(a, b)
  {
    var all := a + b;
    if NoRepeats(all) {
      forall i, j | 0 <= i < j < |a| ensures a[i] != a[j] {
        assert all[i] == a[i] && all[j] == a[j];
      }
      forall i, j | 0 <= i < j < |b| ensures b[i] != b[j] {
        assert all[|a| + i] == b[i] && all[|a| + j] == b[j];
      }
      forall i, j | 0 <= i < |a| && 0 <= j < |b| ensures a[i] != b[j] {
        assert all[i] == a[i] && all[|a| + j] == b[j];
      }
    } else {
      var i, j :| 0 <= i < j < |all| && all[i] == all[j];
      assert j < |a| ==> a[i] == a[j];
      assert i < |a| <= j ==> a[i] in a && b[j - |a|] in b && a[i] == b[j - |a|];
      assert i >= |a| ==> b[i - |a|] == b[j - |a|];
    }
  }

  lemma {:induction false} DisjointCons(us: seq<Entry>, exceptions: set<HostAddress>)
    requires us != [] && forall u | u in us :: UsableEntry(u)
    ensures Disjoint(us, exceptions) <==>
            Disjoint(us[1..], exceptions) &&
            forall j | 0 <= j < |us[1..]| :: Apart(HostsOf(us[0], exceptions), HostsOf(us[1..][j], exceptions))
  {
    hide HostsOf, Apart;
    var rest := us[1..];
    assert forall j | 0 <= j < |rest| :: rest[j] == us[j + 1];
    assert forall j | 0 < j < |us| :: us[j] == rest[j - 1];
  }

  /** To have nothing in common with all the networks is to have nothing in common with any. */
  lemma {:induction false} ApartFromAll(a: seq<HostAddress>, us: seq<Entry>, exceptions: set<HostAddress>)
    requires forall u | u in us :: UsableEntry(u)
    ensures Apart(a, NetworkHosts(us, NET_MASK_LIMIT, exceptions))
            <==> forall j | 0 <= j < |us| :: Apart(a, HostsOf(us[j], exceptions))
  {
    if us != [] {
      var first, rest := HostsOf(us[0], exceptions), us[1..];
      assert NetworkHosts(us, NET_MASK_LIMIT, exceptions) == first + NetworkHosts(rest, NET_MASK_LIMIT, exceptions);
      hide HostsOf, NetworkHosts;
      ApartFromAll(a, rest, exceptions);
      assert Apart(a, first + NetworkHosts(rest, NET_MASK_LIMIT, exceptions))
             <==> Apart(a, first) && Apart(a, NetworkHosts(rest, NET_MASK_LIMIT, exceptions));
      hide Apart;
      assert forall j | 0 <= j < |rest| :: rest[j] == us[j + 1];
      assert forall j | 0 < j < |us| :: us[j] == rest[j - 1];
    }
  }

  lemma {:induction false} NetworksOnce(us: seq<Entry>, exceptions: set<HostAddress>)
    requires forall u | u in us :: UsableEntry(u)
    ensures NoRepeats(NetworkHosts(us, NET_MASK_LIMIT, exceptions)) <==> Disjoint(us, exceptions)
  {
    if us != [] {
      var first, rest := HostsOf(us[0], exceptions), NetworkHosts(us[1..], NET_MASK_LIMIT, exceptions);
      assert NetworkHosts(us, NET_MASK_LIMIT, exceptions) == first + rest;
      hide HostsOf, NetworkHosts, Disjoint, NoRepeats, Apart;
      OnceTogether(first, rest);
      HostsOnce(us[0], exceptions);
      DisjointCons(us, exceptions);
      ApartFromAll(first, us[1..], exceptions);
      NetworksOnce(us[1..], exceptions);
    } else {
      NoneTwice();
    }
  }

  /**
   On every run, the plan of a scan names no address twice if and only if no address belongs to two of the
   networks it scans. So then each address is handed out once.
   */
  lemma {:induction false} PlanNamesOnce(t: Trace, scanType: ScanType)
    requires Detectors(t) > 0
    ensures var env := StateOf(t).env;
            NoRepeats(PlanOf(env, scanType)) <==>
            scanType == Full ==> Disjoint(EntriesOf(env.interfaces), SetOf(PriorityAddresses(env)))
  {
    var env := StateOf(t).env;
    UdpFoundOnce(t);
    var addresses := PriorityAddresses(env);
    AppendNewKeeps(env.udpFound, env.ipAddresses + env.knownIpAddresses);
    hide StateOf, NetworkHosts, NoRepeats, Disjoint, HostsOf, AppendNew, PriorityAddresses;
    var exceptions := SetOf(addresses);
    var us := if scanType == Full then EntriesOf(env.interfaces) else [];
    var hosts := NetworkHosts(us, NET_MASK_LIMIT, exceptions);
    forall h | h in addresses ensures h !in hosts {
      NetworkHostsExact(us, NET_MASK_LIMIT, exceptions, h);
    }
    NetworksOnce(us, exceptions);
    OnceTogether(addresses, hosts);
    if scanType != Full {
      assert hosts == [] by { NoNetworks(exceptions); }
      assert NoRepeats([]) by { NoneTwice(); }
    }
  }

  lemma NoNetworks(exceptions: set<HostAddress>)
    ensures NetworkHosts([], NET_MASK_LIMIT, exceptions) == []
  {
  }
}
