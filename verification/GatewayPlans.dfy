/** Which addresses a scan is made of, and in which order (inverter_gateway.cpp). */
module GatewayPlans {
  import opened Addresses
  import opened GatewayModel
  import opened Networks

  // ---- The plan. ----

  /** A new plan is made exactly when the generator is reset, for the environment and the type of the scan then. */
  lemma {:induction false} PlanAfter(s: State, e: Event)
    requires Inv(s)
    ensures var t := Step(s, e); t.pool.plan == if Restarts(s, e) then PlanOf(t.env, t.scanType) else s.pool.plan
  {
    InvDetectors(s);
    hide PlanOf, NewHosts, AppendNew;
    match e
    case StartDetection => ScanPlan(s, TryPriority);
    case PortNumberChanged => ScanPlan(s, TryPriority);
    case Timer => ScanPlan(s, TryPriority);
    case FullScan => ScanPlan(s, Full);
    case IpAddressesChanged(list) => ScanPlan(s.(env := s.env.(ipAddresses := list)), Priority);
    case UdpTimeout => ContinuePlan(s.(env := s.env.(udpRunning := false)));
    case DetectorDone(i) =>
      var p := s.pool.(active := if i < |s.pool.active| then Without(s.pool.active, i) else []);
      ContinuePlan(s.(pool := p, scanType := Full, triedFull := true, fallbacks := s.fallbacks + 1, autoDetect := true));
    case _ =>
  }

  lemma {:induction false} ContinuePlan(s: State)
    requires s.detectors > 0
    ensures ContinueScan(s) == s.(pool := ContinueScan(s).pool)
    ensures ContinueScan(s).pool.plan == if s.scanType == Priority && !HasPriority(s) then s.pool.plan
                                         else PlanOf(s.env, s.scanType)
  {
    hide PlanOf, NewHosts, PriorityAddresses;
    NoPriority(s.env);
  }

  lemma {:induction false} ScanPlan(s: State, scanType: ScanType)
    requires s.detectors > 0
    ensures var t := Scan(s, scanType);
            var goesOn := !(scanType == Full || (scanType == TryPriority && s.env.autoScan));
            && t.scanType == scanType
            && t.pool.plan == if goesOn && (scanType == Priority ==> HasPriority(s.(env := s.env.(udpFound := []))))
                              then PlanOf(t.env, scanType) else s.pool.plan
  {
    hide ContinueScan, PlanOf;
    ContinuePlan(s.(scanType := scanType, found := {}, autoDetect := scanType == Full, env := s.env.(udpFound := [])));
  }

  // ---- What is in it. ----

  predicate IsPriority(env: Environment, a: HostAddress) {
    a in env.udpFound || a in env.ipAddresses || a in env.knownIpAddresses
  }

  /** The gateway scans at most 12 host bits of a network. */
  lemma LimitIsTwelveBits()
    ensures NET_MASK_LIMIT == PrefixMask(12)
  {
    assert Pow2(12) == 0x1000 by { assert Pow2(6) == 0x40; }
  }

  /** An address of a network of this host that lies in the range scanned of it. */
  ghost predicate InNetwork(env: Environment, a: HostAddress) {
    a.IPv4? && exists i, e | i in env.interfaces && GivesNetwork(i, e) ::
      UsableEntry(e) && a != e.ip && FirstOf(e, NET_MASK_LIMIT) < a.a <= LastOf(e, NET_MASK_LIMIT)
  }

  lemma {:induction false} AppendedExactly(list: seq<HostAddress>, more: seq<HostAddress>, a: HostAddress)
    ensures a in AppendNew(list, more) <==> a in list || a in more
    decreases |more|
  {
    if more != [] {
      AppendedExactly(if more[0] in list then list else list + [more[0]], more[1..], a);
    }
  }

  lemma {:induction false} PriorityExact(env: Environment, a: HostAddress)
    ensures a in PriorityAddresses(env) <==> IsPriority(env, a)
  {
    hide AppendNew;
    AppendedExactly(env.udpFound, env.ipAddresses + env.knownIpAddresses, a);
  }

  lemma {:induction false} HostsOfNetworks(env: Environment, exceptions: set<HostAddress>, a: HostAddress)
    ensures a in NetworkHosts(EntriesOf(env.interfaces), NET_MASK_LIMIT, exceptions)
            <==> a !in exceptions && InNetwork(env, a)
  {
    hide NetworkHosts, EntriesOf, FirstOf, LastOf, GivesNetwork;
    var us := EntriesOf(env.interfaces);
    NetworkHostsExact(us, NET_MASK_LIMIT, exceptions, a);
    if InNetwork(env, a) {
      var i, e :| i in env.interfaces && GivesNetwork(i, e) &&
                  UsableEntry(e) && a != e.ip && FirstOf(e, NET_MASK_LIMIT) < a.a <= LastOf(e, NET_MASK_LIMIT);
      EntriesExact(env.interfaces, e);
      assert e in us;
    }
    if a.IPv4? && exists e | e in us :: FirstOf(e, NET_MASK_LIMIT) < a.a <= LastOf(e, NET_MASK_LIMIT) && a != e.ip {
      var e :| e in us && FirstOf(e, NET_MASK_LIMIT) < a.a <= LastOf(e, NET_MASK_LIMIT) && a != e.ip;
      EntriesExact(env.interfaces, e);
      var i :| i in env.interfaces && GivesNetwork(i, e);
    }
  }

  /**
   When a scan starts or goes on with a new plan, this consists of exactly the addresses found by UDP, the
   configured and the known ones, and in a full scan those of the networks.
   */
  lemma {:induction false} PlanExact(s: State, e: Event, a: HostAddress)
    requires Inv(s) && Restarts(s, e)
    ensures var t := Step(s, e);
            a in t.pool.plan <==> IsPriority(t.env, a) || (t.scanType == Full && InNetwork(t.env, a))
  {
    hide Step, NetworkHosts, EntriesOf, PriorityAddresses, InNetwork, Restarts;
    PlanAfter(s, e);
    var t := Step(s, e);
    PriorityExact(t.env, a);
    HostsOfNetworks(t.env, SetOf(PriorityAddresses(t.env)), a);
  }

  // ---- In which order. ----

  /** The elements of s where they come first. */
  function FirstOccurrences(s: seq<HostAddress>): seq<HostAddress> {
    if s == [] then []
    else
      var n := |s| - 1;
      FirstOccurrences(s[..n]) + if s[n] in s[..n] then [] else [s[n]]
  }

  lemma {:induction false} SameElements(s: seq<HostAddress>, a: HostAddress)
    ensures a in FirstOccurrences(s) <==> a in s
  {
    if s != [] {
      SameElements(s[..|s| - 1], a);
    }
  }

  lemma {:induction false} AllFirst(s: seq<HostAddress>)
    requires NoRepeats(s)
    ensures FirstOccurrences(s) == s
  {
    if s != [] {
      var n := |s| - 1;
      assert s[..n] + [s[n]] == s;
      assert s[n] !in s[..n];
      AllFirst(s[..n]);
    }
  }

  lemma OneMoreFirst(s: seq<HostAddress>, a: HostAddress)
    ensures FirstOccurrences(s + [a]) == FirstOccurrences(s) + if a in s then [] else [a]
  {
    assert (s + [a])[..|s|] == s;
  }

  lemma {:induction false} AppendsFirst(s: seq<HostAddress>, more: seq<HostAddress>)
    ensures AppendNew(FirstOccurrences(s), more) == FirstOccurrences(s + more)
    decreases |more|
  {
    if more == [] {
      assert s + more == s;
    } else {
      hide FirstOccurrences;
      var t := s + [more[0]];
      SameElements(s, more[0]);
      OneMoreFirst(s, more[0]);
      assert FirstOccurrences(s) + [] == FirstOccurrences(s);
      assert s + more == t + more[1..];
      AppendsFirst(t, more[1..]);
    }
  }

  /**
   On every run: first the addresses found by UDP, then the configured, then the known ones, each where it comes
   first; the networks behind them.
   */
  lemma {:induction false} PlanOrder(t: Trace, scanType: ScanType)
    requires Detectors(t) > 0
    ensures var env := StateOf(t).env;
            var first := FirstOccurrences(env.udpFound + env.ipAddresses + env.knownIpAddresses);
            && first <= PlanOf(env, scanType) && (scanType != Full ==> PlanOf(env, scanType) == first)
            && forall a | a in PlanOf(env, scanType)[|first|..] :: a !in first
  {
    hide NetworkHosts, StateOf, EntriesOf, AppendNew, FirstOccurrences, NoRepeats;
    UdpFoundOnce(t);
    var env := StateOf(t).env;
    AllFirst(env.udpFound);
    AppendsFirst(env.udpFound, env.ipAddresses + env.knownIpAddresses);
    assert env.udpFound + (env.ipAddresses + env.knownIpAddresses) == env.udpFound + env.ipAddresses + env.knownIpAddresses;
    var first := PriorityAddresses(env);
    var hosts := NetworkHosts(EntriesOf(env.interfaces), NET_MASK_LIMIT, SetOf(first));
    forall a | a in hosts ensures a !in first {
      NetworkHostsExact(EntriesOf(env.interfaces), NET_MASK_LIMIT, SetOf(first), a);
    }
    assert first + [] == first;
  }
}
