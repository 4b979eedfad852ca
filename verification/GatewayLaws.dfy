/** What every event makes of a scan and its environment (inverter_gateway.cpp). */
module GatewayLaws {
  import opened Addresses
  import opened GatewayModel

  /** The host at index i of an event that is about one. */
  predicate IsFind(s: State, e: Event) {
    e.DeviceFound? && e.i < |s.pool.active|
  }

  /** e is the reply with which the last host is done, and there is no address to go on with. */
  predicate EndsScan(s: State, e: Event) {
    EndsHost(s, e) && |s.pool.active| == 1 && (s.scanType == None || s.pool.todo == [])
  }

  /** An inverter that answered before did not answer in this scan. */
  predicate Misses(s: State) {
    exists a | a in s.env.knownIpAddresses :: a !in s.found
  }

  /** The scan goes on as a full one: only if it may, for the first time, and not all known inverters have answered. */
  predicate BecomesFull(s: State) {
    s.scanType == TryPriority && s.env.autoScan && s.fallbacks == 0 && Misses(s)
  }

  /** The type of the scan after every event. */
  lemma {:induction false} TypeAfter(s: State, e: Event)
    requires Inv(s)
    ensures Step(s, e).scanType ==
            match e {
              case StartDetection => TryPriority
              case PortNumberChanged => TryPriority
              case FullScan => Full
              case IpAddressesChanged(_) => Priority
              case Timer => if s.scanType == None then TryPriority else s.scanType
              case DetectorDone(_) => if !EndsScan(s, e) then s.scanType else if BecomesFull(s) then Full else None
              case _ => s.scanType
            }
    ensures Step(s, e).fallbacks == s.fallbacks + if EndsScan(s, e) && BecomesFull(s) then 1 else 0
  {
    hide PlanOf, Give, Room, PriorityAddresses, AppendNew;
    InvDetectors(s);
  }

  /** The inverters found in this scan, and those that are known. */
  lemma {:induction false} FoundAfter(s: State, e: Event)
    requires Inv(s)
    ensures Step(s, e).found == if Starts(s, e) then {} else if IsFind(s, e) then s.found + {e.address} else s.found
    ensures Step(s, e).env.knownIpAddresses ==
            if IsFind(s, e) && e.address !in s.env.ipAddresses && e.address !in s.env.knownIpAddresses
            then s.env.knownIpAddresses + [e.address] else s.env.knownIpAddresses
  {
    hide PlanOf, Give, Room, PriorityAddresses;
    InvDetectors(s);
    if IsFind(s, e) {
      AppendOne(s.env.knownIpAddresses, e.address);
    }
  }

  lemma AppendOne(list: seq<HostAddress>, a: HostAddress)
    ensures AppendNew(list, [a]) == if a in list then list else list + [a]
  {
    assert [a][1..] == [];
  }

  /** The UDP detector, and what it has found. */
  lemma {:induction false} UdpAfter(s: State, e: Event)
    requires Inv(s)
    ensures Step(s, e).env.udpRunning ==
            match e {
              case FullScan => true
              case StartDetection => s.env.autoScan || s.env.udpRunning
              case PortNumberChanged => s.env.autoScan || s.env.udpRunning
              case Timer => (s.scanType == None && s.env.autoScan) || s.env.udpRunning
              case UdpTimeout => false
              case _ => s.env.udpRunning
            }
    ensures Step(s, e).env.udpFound ==
            if Starts(s, e) then []
            else if e.UdpResponse? && e.from !in s.env.udpFound then s.env.udpFound + [e.from] else s.env.udpFound
  {
    hide PlanOf, Give, Room, PriorityAddresses;
    InvDetectors(s);
    if e.UdpResponse? {
      AppendOne(s.env.udpFound, e.from);
    }
  }

  /** Settings and interfaces change only by themselves. */
  lemma {:induction false} SettingsAfter(s: State, e: Event)
    requires Inv(s)
    ensures var t := Step(s, e).env;
            && t.autoScan == (if e.AutoScanChanged? then e.on else s.env.autoScan)
            && t.ipAddresses == (if e.IpAddressesChanged? then e.addresses else s.env.ipAddresses)
            && t.interfaces == (if e.InterfacesChanged? then e.interfaces else s.env.interfaces)
  {
    hide PlanOf, Give, Room, PriorityAddresses, AppendNew;
    InvDetectors(s);
  }

  // ---- How many hosts there are. ----

  /** When a host is done while there are addresses, exactly one is started in its place. */
  lemma {:induction false} OneForOne(s: State, e: Event)
    requires Inv(s) && EndsHost(s, e) && s.scanType != None && s.pool.todo != []
    ensures var t := Step(s, e); |t.pool.active| == |s.pool.active| && t.pool.todo == s.pool.todo[1..]
  {
    InvDetectors(s);
    hide ContinueScan, FallsBack;
  }

  /** A new plan is begun as far as there is room for 64 hosts. */
  lemma {:induction false} RestartFills(s: State, e: Event)
    requires Inv(s) && Restarts(s, e)
    ensures var p := Step(s, e).pool; p.todo == [] || |p.active| >= 64
  {
    InvDetectors(s);
    hide PlanOf, AppendNew, FallsBack;
    match e
    case UdpTimeout => ContinueFills(s.(env := s.env.(udpRunning := false)));
    case IpAddressesChanged(list) =>
      var u := s.(env := s.env.(ipAddresses := list, udpFound := []), scanType := Priority, found := {}, autoDetect := false);
      ContinueFills(u);
    case DetectorDone(i) => ReplyFills(s, i);
    case _ =>
      ContinueFills(s.(scanType := TryPriority, found := {}, autoDetect := false, env := s.env.(udpFound := [])));
  }

  lemma {:induction false} ReplyFills(s: State, i: nat)
    requires Inv(s) && Step(s, DetectorDone(i)).fallbacks > s.fallbacks
    ensures var p := Step(s, DetectorDone(i)).pool; p.todo == [] || |p.active| >= 64
  {
    hide ContinueScan, FallsBack;
    var p := s.pool.(active := Without(s.pool.active, i));
    ContinueFills(s.(pool := p, scanType := Full, triedFull := true, fallbacks := s.fallbacks + 1, autoDetect := true));
  }

  lemma {:induction false} ContinueFills(s: State)
    requires s.detectors > 0 && (s.scanType == Priority ==> HasPriority(s))
    ensures var p := ContinueScan(s).pool; p.todo == [] || |p.active| >= 64
  {
    hide PlanOf, AppendNew, PriorityAddresses;
    NoPriority(s.env);
    var plan := PlanOf(s.env, s.scanType);
    var p := Pool(s.pool.active, plan, [], plan);
    var q := Give(p, Room(p), s.detectors);
    assert |q.active| == |p.active| + Room(p);
  }
}
