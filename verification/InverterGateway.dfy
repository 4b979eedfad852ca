/** InverterGateway (inverter_gateway.cpp): each slot is one step of the scheduler of GatewayModel. */
module Gateway {
  import opened Addresses
  import opened AddressProgress
  import opened AddressGenerator
  import opened GatewayModel

  class InverterGateway {
    var mScanType: ScanType
    var mDevicesFound: set<HostAddress>
    var mActiveHosts: seq<HostScan>
    const mAddressGenerator: LocalIpAddressGenerator
    const mDetectors: nat // how many detectors there are
    var mAutoDetect: bool
    var mTriedFull: bool
    var environment: Environment // the settings, the UDP detector and the network interfaces
    ghost var given: seq<HostAddress>
    ghost var plan: seq<HostAddress>
    ghost var fallbacks: nat

    ghost predicate Valid()
      reads this, mAddressGenerator
    {
      mAddressGenerator.Valid() && mAddressGenerator.mNetMaskLimit == NET_MASK_LIMIT && mDetectors > 0
    }

    ghost function Abs(): State
      reads this, mAddressGenerator
      requires Valid()
    {
      State(mScanType, mDevicesFound, mAutoDetect, mTriedFull, fallbacks,
            Pool(mActiveHosts, mAddressGenerator.Remaining(), given, plan), environment, mDetectors)
    }

    constructor (env: Environment, detectors: nat)
      requires detectors > 0
      ensures Valid() && fresh(mAddressGenerator) && Abs() == Init(env, detectors)
    {
      hide NetworkHosts, LocalIpAddressGenerator.Remaining;
      mScanType, mDevicesFound, mActiveHosts, mDetectors := None, {}, [], detectors;
      mAutoDetect, mTriedFull := false, false;
      environment := env.(udpFound := [], udpRunning := false);
      given, plan, fallbacks := [], NetworkHosts(EntriesOf(env.interfaces), 0, {}), 0;
      var generator := new LocalIpAddressGenerator(env.interfaces);
      mAddressGenerator := generator;
      new;
      mAddressGenerator.SetNetMaskLimit(NET_MASK_LIMIT);
    }

    /** The addresses of the UDP detector, and behind them those of the settings that are not among them. */
    method CollectAddresses() returns (addresses: seq<HostAddress>)
      ensures addresses == PriorityAddresses(environment)
    {
      addresses := environment.udpFound;
      var more := environment.ipAddresses + environment.knownIpAddresses;
      for i := 0 to |more|
        invariant AppendNew(addresses, more[i..]) == PriorityAddresses(environment)
      {
        assert more[i..][1..] == more[i + 1..];
        if more[i] !in addresses {
          addresses := addresses + [more[i]];
        }
      }
    }

    method ScanHost(address: HostAddress)
      requires Valid()
      modifies this`mActiveHosts, this`given
      ensures mActiveHosts == old(mActiveHosts) + NewHosts([address], mDetectors) && given == old(given) + [address]
    {
      mActiveHosts := mActiveHosts + [HostScan(address, mDetectors - 1)];
      given := given + [address];
      assert NewHosts([address], mDetectors) == [HostScan(address, mDetectors - 1)];
    }

    /** scanHost(mAddressGenerator.next()). */
    method ScanNext()
      requires Valid() && mAddressGenerator.Remaining() != []
      modifies this`mActiveHosts, this`given
      modifies mAddressGenerator`mPriorityIndex, mAddressGenerator`mSubnetIndex, mAddressGenerator`mSubnets
      ensures Valid() && Abs() == old(Abs().(pool := Give(Abs().pool, 1, mDetectors)))
    {
      hide LocalIpAddressGenerator.Valid, LocalIpAddressGenerator.Remaining, NewHosts;
      ghost var todo := mAddressGenerator.Remaining();
      var a := mAddressGenerator.Next();
      ScanHost(a);
      assert todo[..1] == [a] && todo[1..] == mAddressGenerator.Remaining();
    }

    /** The generator hands out the plan from its start. */
    method Restart(addresses: seq<HostAddress>)
      requires Valid() && addresses == PriorityAddresses(environment)
      modifies mAddressGenerator, this`given, this`plan
      ensures Valid() && given == [] && plan == mAddressGenerator.Remaining() == PlanOf(environment, mScanType)
    {
      hide NetworkHosts, Hosts, SubnetsRest, MadeFor;
      mAddressGenerator.SetPriorityAddresses(addresses);
      mAddressGenerator.SetPriorityOnly(mScanType != Full, environment.interfaces);
      mAddressGenerator.Reset(environment.interfaces);
      given, plan := [], mAddressGenerator.Remaining();
      assert mAddressGenerator.Exceptions() == SetOf(addresses);
    }

    method ContinueScan()
      requires Valid()
      modifies this, mAddressGenerator
      ensures Valid() && Abs() == GatewayModel.ContinueScan(old(Abs()))
    {
      hide LocalIpAddressGenerator.Valid, LocalIpAddressGenerator.Remaining, NewHosts, PlanOf, PriorityAddresses;
      var addresses := CollectAddresses();
      if mScanType == Priority && addresses == [] {
        return;
      }
      Restart(addresses);
      ghost var s := Abs();
      var more := mAddressGenerator.HasNext();
      GiveNone(s.pool, mDetectors);
      ghost var n: nat := 0;
      while |mActiveHosts| < MAX_SIMULTANEOUS_REQUESTS && more
        invariant Valid() && n <= Room(s.pool)
        invariant Abs() == s.(pool := Give(s.pool, n, mDetectors))
        invariant more <==> mAddressGenerator.Remaining() != []
        decreases |mAddressGenerator.Remaining()|
      {
        GiveMore(s.pool, n, mDetectors);
        ScanNext();
        more := mAddressGenerator.HasNext();
        n := n + 1;
      }
      GiveLengths(s.pool, n, mDetectors);
      assert n == Room(s.pool);
      assert s == old(Abs()).(pool := Pool(old(mActiveHosts), s.pool.plan, [], s.pool.plan));
    }

    method Scan(scanType: ScanType)
      requires Valid()
      modifies this, mAddressGenerator
      ensures Valid() && Abs() == GatewayModel.Scan(old(Abs()), scanType)
    {
      hide LocalIpAddressGenerator.Valid, LocalIpAddressGenerator.Remaining, GatewayModel.ContinueScan;
      mScanType := scanType;
      mDevicesFound := {};
      mAutoDetect := mScanType == Full;
      environment := environment.(udpFound := []);
      if scanType == Full || (scanType == TryPriority && environment.autoScan) {
        environment := environment.(udpRunning := true);
      } else {
        ContinueScan();
      }
    }

    method StartDetection()
      requires Valid()
      modifies this, mAddressGenerator
      ensures Valid() && Abs() == Step(old(Abs()), Event.StartDetection)
    {
      Scan(TryPriority);
    }

    method FullScan()
      requires Valid()
      modifies this, mAddressGenerator
      ensures Valid() && Abs() == Step(old(Abs()), Event.FullScan)
    {
      Scan(Full);
    }

    method OnPortNumberChanged()
      requires Valid()
      modifies this, mAddressGenerator
      ensures Valid() && Abs() == Step(old(Abs()), PortNumberChanged)
    {
      Scan(TryPriority);
    }

    method OnIpAddressesChanged(addresses: seq<HostAddress>)
      requires Valid()
      modifies this, mAddressGenerator
      ensures Valid() && Abs() == Step(old(Abs()), IpAddressesChanged(addresses))
    {
      hide LocalIpAddressGenerator.Valid, LocalIpAddressGenerator.Remaining, GatewayModel.Scan;
      environment := environment.(ipAddresses := addresses);
      Scan(Priority);
    }

    method OnTimer()
      requires Valid()
      modifies this, mAddressGenerator
      ensures Valid() && Abs() == Step(old(Abs()), Timer)
    {
      hide LocalIpAddressGenerator.Valid, LocalIpAddressGenerator.Remaining, GatewayModel.Scan;
      if mScanType != None {
        return;
      }
      Scan(TryPriority);
    }

    /** finished() of the UDP detector, which runs. */
    method OnUdpFinished()
      requires Valid() && environment.udpRunning
      modifies this, mAddressGenerator
      ensures Valid() && Abs() == Step(old(Abs()), UdpTimeout)
    {
      hide LocalIpAddressGenerator.Valid, LocalIpAddressGenerator.Remaining, GatewayModel.ContinueScan;
      environment := environment.(udpRunning := false);
      ContinueScan();
    }

    /** deviceFound of the host at index i; onDeviceFound drops its other detectors. */
    method OnInverterFound(i: nat, address: HostAddress)
      requires Valid() && i < |mActiveHosts|
      modifies this
      ensures Valid() && Abs() == Step(old(Abs()), DeviceFound(i, address))
    {
      hide LocalIpAddressGenerator.Valid, LocalIpAddressGenerator.Remaining;
      mActiveHosts := mActiveHosts[i := mActiveHosts[i].(left := 0)];
      mDevicesFound := mDevicesFound + {address};
      if address !in environment.ipAddresses {
        var addresses := environment.knownIpAddresses;
        assert [address][1..] == [];
        assert AppendNew(addresses, [address]) == if address in addresses then addresses else addresses + [address];
        if address !in addresses {
          addresses := addresses + [address];
          environment := environment.(knownIpAddresses := addresses);
        }
      }
    }

    /** finished of a detector reply of the host at index i: HostScan::continueScan. */
    method OnDetectorReplyFinished(i: nat)
      requires Valid() && i < |mActiveHosts|
      modifies this, mAddressGenerator
      ensures Valid() && Abs() == Step(old(Abs()), DetectorDone(i))
    {
      hide LocalIpAddressGenerator.Valid, LocalIpAddressGenerator.Remaining, GatewayModel.DetectionDone;
      if mActiveHosts[i].left > 0 {
        mActiveHosts := mActiveHosts[i := mActiveHosts[i].(left := mActiveHosts[i].left - 1)];
      } else {
        OnDetectionDone(i);
      }
    }

    method OnDetectionDone(i: nat)
      requires Valid() && i < |mActiveHosts|
      modifies this, mAddressGenerator
      ensures Valid() && Abs() == DetectionDone(old(Abs()), i)
    {
      hide LocalIpAddressGenerator.Valid, LocalIpAddressGenerator.Remaining, GatewayModel.ContinueScan, NewHosts;
      mActiveHosts := mActiveHosts[..i] + mActiveHosts[i + 1..];
      var more := mAddressGenerator.HasNext();
      if mScanType != None && more {
        ScanNext();
      } else if |mActiveHosts| == 0 {
        var scanType := mScanType;
        mScanType := None;
        if scanType == TryPriority && environment.autoScan {
          var missing := set a | a in environment.knownIpAddresses && a !in mDevicesFound;
          PiggiesAre(old(Abs()), missing);
          if |missing| != 0 && !mTriedFull {
            mScanType := Full;
            mTriedFull := true;
            fallbacks := fallbacks + 1;
            mAutoDetect := true;
            ContinueScan();
            return;
          }
        }
        mAutoDetect := false;
      }
    }
  }

  lemma PiggiesAre(s: State, missing: set<HostAddress>)
    requires missing == set a | a in s.env.knownIpAddresses && a !in s.found
    ensures PiggiesShort(s) <==> |missing| != 0
  {
    if PiggiesShort(s) {
      var a :| a in s.env.knownIpAddresses && a !in s.found;
      assert a in missing;
    } else {
      assert missing == {};
    }
  }

  lemma GiveNone(p: Pool, detectors: nat)
    requires detectors > 0
    ensures Give(p, 0, detectors) == p
  {
  }

  lemma GiveLengths(p: Pool, n: nat, detectors: nat)
    requires n <= |p.todo| && detectors > 0
    ensures |Give(p, n, detectors).active| == |p.active| + n && |Give(p, n, detectors).todo| == |p.todo| - n
  {
  }

  lemma GiveMore(p: Pool, n: nat, detectors: nat)
    requires n < |p.todo| && detectors > 0
    ensures Give(Give(p, n, detectors), 1, detectors) == Give(p, n + 1, detectors)
    ensures |Give(p, n, detectors).active| == |p.active| + n && |Give(p, n, detectors).todo| == |p.todo| - n
  {
    assert p.todo[..n + 1] == p.todo[..n] + p.todo[n..][..1];
  }
}
