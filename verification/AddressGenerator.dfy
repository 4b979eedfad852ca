/** LocalIpAddressGenerator: the priority addresses, and then the networks of this host. */
module AddressGenerator {
  import opened Addresses
  import opened AddressProgress
  import opened Numbers

  lemma {:induction false} HostsSnoc(us: seq<Entry>, e: Entry, limit: u32, exceptions: set<HostAddress>)
    requires forall u | u in us + [e] :: UsableEntry(u)
    ensures NetworkHosts(us + [e], limit, exceptions)
            == NetworkHosts(us, limit, exceptions) +
               Hosts(FirstOf(e, limit) + 1, LastOf(e, limit), e.ip.a, exceptions)
  {
    if us == [] {
      assert us + [e] == [e];
    } else {
      assert (us + [e])[1..] == us[1..] + [e];
      HostsSnoc(us[1..], e, limit, exceptions);
    }
  }

  lemma RestOfNew(e: Entry, limit: u32, exceptions: set<HostAddress>)
    requires UsableEntry(e)
    ensures SubnetRest(SubnetFor(e, limit, exceptions), exceptions)
            == Hosts(FirstOf(e, limit) + 1, LastOf(e, limit), e.ip.a, exceptions)
  {
    SkipKeeps(FirstOf(e, limit) + 1, LastOf(e, limit), e.ip.a, exceptions);
  }

  class LocalIpAddressGenerator {
    var mPriorityOnly: bool
    var mSubnets: seq<Subnet>
    var mPriorityAddresses: seq<HostAddress>
    var mNetMaskLimit: u32
    var mPriorityIndex: int
    var mSubnetIndex: int

    ghost predicate Valid()
      reads this
      ensures Valid() ==> forall s | s in mSubnets :: ValidSubnet(s)
    {
      && 0 <= mPriorityIndex <= |mPriorityAddresses|
      && 0 <= mSubnetIndex <= |mSubnets|
      && (forall i | 0 <= i < |mSubnets| :: ValidSubnet(mSubnets[i]))
      && (forall i | 0 <= i < mSubnetIndex :: mSubnets[i].current > mSubnets[i].last)
      && (mPriorityOnly ==> mSubnets == [])
    }

    ghost function Exceptions(): set<HostAddress>
      reads this
    {
      set a | a in mPriorityAddresses
    }

    /** The addresses that are still to come. */
    ghost function Remaining(): seq<HostAddress>
      reads this
      requires Valid()
    {
      mPriorityAddresses[mPriorityIndex..] + SubnetsRest(mSubnets[mSubnetIndex..], Exceptions())
    }

    constructor (interfaces: seq<Interface>)
      ensures Valid() && Remaining() == NetworkHosts(EntriesOf(interfaces), 0, {})
      ensures !mPriorityOnly && mNetMaskLimit == 0 && mPriorityAddresses == []
    {
      hide Hosts, NetworkHosts, EntriesOf, SubnetsRest, MadeFor;
      mPriorityOnly, mNetMaskLimit, mPriorityIndex, mSubnetIndex := false, 0, 0, 0;
      mPriorityAddresses, mSubnets := [], [];
      new;
      Reset(interfaces);
      assert Exceptions() == {} && [] + NetworkHosts(EntriesOf(interfaces), 0, {}) == NetworkHosts(EntriesOf(interfaces), 0, {});
    }

    /** Subnet::next: the address under the cursor, which moves to the next one that is not skipped. */
    method SubnetNext(s: Subnet) returns (a: HostAddress, t: Subnet)
      requires (ValidSubnet(s) && s.current <= s.last) || (s.current == s.first <= s.last + 1 <= MAX_U32 && s.first < MAX_U32)
      ensures a == IPv4(s.current) && t == Advance(s, Exceptions())
    {
      var current: u32 := s.current;
      var c: u32 := current + 1;
      while c <= s.last && (c == s.localHost || IPv4(c) in mPriorityAddresses)
        invariant current < c && (c <= s.last + 1 || c == current + 1)
        invariant SkipTo(c, s.last, s.localHost, Exceptions()) == SkipTo(current + 1, s.last, s.localHost, Exceptions())
        decreases s.last - c
      {
        c := c + 1;
      }
      a, t := IPv4(current), s.(current := c);
    }

    method HasNext() returns (b: bool)
      requires Valid()
      ensures b <==> Remaining() != []
    {
      hide SubnetsRest, SubnetRest, ValidSubnet;
      var idx := mSubnetIndex;
      if mPriorityIndex < |mPriorityAddresses| {
        return true;
      }
      assert Remaining() == SubnetsRest(mSubnets[mSubnetIndex..], Exceptions());
      while idx < |mSubnets|
        invariant mSubnetIndex <= idx <= |mSubnets|
        invariant SubnetsRest(mSubnets[idx..], Exceptions()) == SubnetsRest(mSubnets[mSubnetIndex..], Exceptions())
      {
        RestCons(mSubnets, idx, Exceptions());
        if mSubnets[idx].current <= mSubnets[idx].last {
          return true;
        }
        idx := idx + 1;
      }
      assert mSubnets[idx..] == [];
      RestOfNone([], Exceptions());
      return false;
    }

    /** The next address, and no other, is taken; the assertion at the end of next is never reached. */
    method Next() returns (a: HostAddress)
      requires Valid() && Remaining() != []
      modifies this`mPriorityIndex, this`mSubnetIndex, this`mSubnets
      ensures Valid() && [a] + Remaining() == old(Remaining())
      ensures if old(mPriorityIndex) < |mPriorityAddresses|
              then mPriorityIndex == old(mPriorityIndex) + 1 && mSubnets == old(mSubnets)
              else mPriorityIndex == old(mPriorityIndex) && mSubnets == NextIn(old(mSubnets), Exceptions())
    {
      hide SubnetsRest, SubnetRest, ValidSubnet, NextIn;
      if mPriorityIndex < |mPriorityAddresses| {
        a := mPriorityAddresses[mPriorityIndex];
        mPriorityIndex := mPriorityIndex + 1;
        return;
      }
      ghost var all := SubnetsRest(mSubnets[mSubnetIndex..], Exceptions());
      assert Remaining() == all;
      while mSubnetIndex < |mSubnets|
        invariant Valid() && all == SubnetsRest(mSubnets[mSubnetIndex..], Exceptions())
        invariant mSubnets == old(mSubnets) && mPriorityIndex == old(mPriorityIndex)
        decreases |mSubnets| - mSubnetIndex
      {
        RestCons(mSubnets, mSubnetIndex, Exceptions());
        if mSubnets[mSubnetIndex].current <= mSubnets[mSubnetIndex].last {
          a := TakeFromSubnet();
          return;
        }
        mSubnetIndex := mSubnetIndex + 1;
      }
      assert mSubnets[mSubnetIndex..] == [];
      RestOfNone([], Exceptions());
      assert false;
    }

    /** mSubnets[mSubnetIndex].next(). */
    method TakeFromSubnet() returns (a: HostAddress)
      requires Valid() && mPriorityIndex == |mPriorityAddresses| && mSubnetIndex < |mSubnets|
      requires mSubnets[mSubnetIndex].current <= mSubnets[mSubnetIndex].last
      modifies this`mSubnets
      ensures Valid() && mSubnets == NextIn(old(mSubnets), Exceptions())
      ensures [a] + SubnetsRest(mSubnets[mSubnetIndex..], Exceptions())
              == old(SubnetsRest(mSubnets[mSubnetIndex..], Exceptions()))
    {
      hide SubnetsRest, SubnetRest, Advance, NextIn;
      var s;
      a, s := SubnetNext(mSubnets[mSubnetIndex]);
      TakeStep(mSubnets, mSubnetIndex, Exceptions());
      NextInIs(mSubnets, mSubnetIndex, Exceptions());
      mSubnets := mSubnets[mSubnetIndex := s];
    }

    method AddEntries(entries: seq<Entry>, ghost us: seq<Entry>)
      requires forall e | e in us :: UsableEntry(e)
      requires MadeFor(mSubnets, us, mNetMaskLimit, Exceptions())
      modifies this`mSubnets
      ensures MadeFor(mSubnets, us + UsableEntries(entries), mNetMaskLimit, Exceptions())
    {
      hide MadeFor, UsableEntry;
      ghost var vs := us;
      for i := 0 to |entries|
        invariant forall e | e in vs :: UsableEntry(e)
        invariant vs + UsableEntries(entries[i..]) == us + UsableEntries(entries)
        invariant MadeFor(mSubnets, vs, mNetMaskLimit, Exceptions())
      {
        assert entries[i..][1..] == entries[i + 1..];
        if UsableEntry(entries[i]) {
          AddEntry(entries[i], vs);
          vs := vs + [entries[i]];
        }
      }
      assert entries[|entries|..] == [] && vs + [] == vs;
    }

    method AddEntry(e: Entry, ghost us: seq<Entry>)
      requires UsableEntry(e) && forall e | e in us :: UsableEntry(e)
      requires MadeFor(mSubnets, us, mNetMaskLimit, Exceptions())
      modifies this`mSubnets
      ensures MadeFor(mSubnets, us + [e], mNetMaskLimit, Exceptions())
    {
      hide Hosts, NetworkHosts, SubnetsRest, SubnetRest, FirstOf, LastOf, Advance;
      var first := FirstOf(e, mNetMaskLimit);
      var a, s := SubnetNext(Subnet(first, first, LastOf(e, mNetMaskLimit), e.ip.a));
      assert s == SubnetFor(e, mNetMaskLimit, Exceptions());
      assert forall t | t in mSubnets + [s] :: ValidSubnet(t);
      assert forall u | u in us + [e] :: UsableEntry(u);
      RestSnoc(mSubnets, s, Exceptions());
      RestOfNew(e, mNetMaskLimit, Exceptions());
      HostsSnoc(us, e, mNetMaskLimit, Exceptions());
      mSubnets := mSubnets + [s];
    }

    /** After reset all addresses are to come: the priority list, and then every network in order. */
    method Reset(interfaces: seq<Interface>)
      modifies this`mPriorityIndex, this`mSubnetIndex, this`mSubnets
      ensures Valid() && mPriorityIndex == mSubnetIndex == 0
      ensures Remaining() == mPriorityAddresses + if mPriorityOnly then []
                                                  else NetworkHosts(EntriesOf(interfaces), mNetMaskLimit, Exceptions())
      ensures MadeFor(mSubnets, if mPriorityOnly then [] else EntriesOf(interfaces), mNetMaskLimit, Exceptions())
    {
      mPriorityIndex := 0;
      mSubnetIndex := 0;
      mSubnets := [];
      if mPriorityOnly {
        return;
      }
      AddInterfaces(interfaces);
      assert mSubnets[0..] == mSubnets;
    }

    method AddInterfaces(interfaces: seq<Interface>)
      requires mSubnets == []
      modifies this`mSubnets
      ensures MadeFor(mSubnets, EntriesOf(interfaces), mNetMaskLimit, Exceptions())
    {
      hide UsableEntries, UsableEntry;
      ghost var us: seq<Entry> := [];
      assert MadeFor(mSubnets, us, mNetMaskLimit, Exceptions());
      hide MadeFor;
      for i := 0 to |interfaces|
        invariant forall e | e in us :: UsableEntry(e)
        invariant us + EntriesOf(interfaces[i..]) == EntriesOf(interfaces)
        invariant MadeFor(mSubnets, us, mNetMaskLimit, Exceptions())
      {
        assert interfaces[i..][1..] == interfaces[i + 1..];
        if UsableInterface(interfaces[i]) {
          AddEntries(interfaces[i].entries, us);
          us := us + UsableEntries(interfaces[i].entries);
        }
      }
      assert interfaces[|interfaces|..] == [] && us + [] == us;
    }

    ghost function Total(): int
      reads this
    {
      |mPriorityAddresses| + TotalSize(mSubnets)
    }

    ghost function Done(): int
      reads this
    {
      mPriorityIndex + TotalPosition(mSubnets)
    }

    /** 100 * done fits an int. */
    ghost predicate Fits()
      reads this
    {
      Ranged(mSubnets) && 100 * (Total() + Hostless(mSubnets)) <= 0x7FFF_FFFF
    }

    /** The sums of progress. */
    method Count() returns (total: int, done: int)
      requires Valid()
      ensures total == Total() && done == Done()
    {
      hide SubnetSize, SubnetPosition, ValidSubnet;
      total, done := |mPriorityAddresses|, mPriorityIndex;
      if !mPriorityOnly {
        for i := 0 to |mSubnets|
          invariant total == |mPriorityAddresses| + TotalSize(mSubnets[..i])
          invariant done == mPriorityIndex + TotalPosition(mSubnets[..i])
        {
          assert mSubnets[..i + 1][..i] == mSubnets[..i];
          total := total + SubnetSize(mSubnets[i]);
          done := done + SubnetPosition(mSubnets[i]);
        }
        assert mSubnets[..|mSubnets|] == mSubnets;
      }
    }

    /**
     The percentage of the counts. If every network has a host bit, it is one, and with no active host it is
     100 if and only if every address has been taken and there was one at all.
     */
    method Progress(activeCount: nat) returns (p: int)
      requires Valid() && Fits()
      ensures p == Percentage(Done(), Total(), activeCount) >= 0
      ensures 0 <= Done() <= Total() + Hostless(mSubnets)
      ensures Done() == Total() + Hostless(mSubnets) <==> Remaining() == []
      ensures Hostless(mSubnets) == 0 ==> p <= 100 && (activeCount == 0 ==> (p == 100 <==> Remaining() == [] && Total() > 0))
    {
      hide Remaining, Valid, TotalSize, TotalPosition, Ranged, Hostless;
      ProgressIsComplete();
      var total, done := Count();
      if total == 0 {
        return 0;
      }
      if Hostless(mSubnets) == 0 {
        PercentageBounds(done, total, activeCount);
      }
      QuotientGrows(0, 100 * Max(0, done - activeCount), total);
      QuotientIs(0, total, 0);
      p := (100 * Max(0, done - activeCount)) / total;
    }

    lemma ProgressIsComplete()
      requires Valid() && Ranged(mSubnets)
      ensures 0 <= Done() <= Total() + Hostless(mSubnets) && Total() >= 0
      ensures Done() == Total() + Hostless(mSubnets) <==> Remaining() == []
    {
      Positions(mSubnets);
      var ss := mSubnets[mSubnetIndex..];
      if Remaining() == [] {
        RestIsNone(ss, Exceptions());
        assert mSubnets == mSubnets[..mSubnetIndex] + ss;
      }
      if Done() == Total() + Hostless(mSubnets) {
        RestOfNone(ss, Exceptions());
      }
    }

    method SetPriorityOnly(p: bool, interfaces: seq<Interface>)
      requires Valid()
      modifies this`mPriorityOnly, this`mPriorityIndex, this`mSubnetIndex, this`mSubnets
      ensures Valid() && mPriorityOnly == p
      ensures Remaining() == if p && !old(mPriorityOnly) then mPriorityAddresses else old(Remaining())
    {
      if mPriorityOnly == p {
        return;
      }
      mPriorityOnly := p;
      if p {
        Reset(interfaces);
      }
    }

    /** A new list is handed out from its start, unless the old one has been handed out already. */
    method SetPriorityAddresses(addresses: seq<HostAddress>)
      requires Valid()
      modifies this`mPriorityAddresses, this`mPriorityIndex
      ensures Valid() && mPriorityAddresses == addresses
      ensures Remaining() == (if old(mPriorityIndex) > 0 && old(mPriorityIndex == |mPriorityAddresses|) then []
                              else addresses) + SubnetsRest(mSubnets[mSubnetIndex..], set a | a in addresses)
    {
      var atEnd := mPriorityIndex > 0 && mPriorityIndex >= |mPriorityAddresses|;
      mPriorityAddresses := addresses;
      mPriorityIndex := if atEnd then |mPriorityAddresses| else 0;
    }

    method SetNetMaskLimit(limit: u32)
      requires Valid()
      modifies this`mNetMaskLimit
      ensures Valid() && mNetMaskLimit == limit && Remaining() == old(Remaining())
    {
      mNetMaskLimit := limit;
    }

    /** The enumeration that starts at this point. */
    ghost function Ahead(): Enumeration
      reads this
    {
      Enumeration(|mPriorityAddresses|, mSubnets, Exceptions())
    }

    /**
     The loop of the class comment: it ends, and sees exactly the addresses that remain, in order. From the
     start on, the counts of progress after each address are those of the enumeration.
     */
    method UseAll() returns (used: seq<HostAddress>, ghost counts: seq<int>)
      requires Valid()
      modifies this`mPriorityIndex, this`mSubnetIndex, this`mSubnets
      ensures Valid() && used == old(Remaining()) && Remaining() == []
      ensures |counts| == |used| + 1
      ensures old(mPriorityIndex) == 0 && Ranged(old(mSubnets)) ==>
                |used| == Length(old(Ahead())) && forall k | 0 <= k <= |used| :: counts[k] == DoneAfter(old(Ahead()), k)
    {
      hide Valid, Remaining, NextIn, TotalPosition, SubnetsRest, Stands, Ranged, DoneAfter;
      RestOfAll();
      ghost var e, fromStart := Ahead(), mPriorityIndex == 0 && Ranged(mSubnets);
      used, counts := [], [Done()];
      if fromStart {
        StandsFirst(e);
        StandsNext(e, 0, mPriorityIndex, mSubnets);
      }
      var more := HasNext();
      while more
        invariant Valid() && used + Remaining() == old(Remaining())
        invariant more <==> Remaining() != []
        invariant |counts| == |used| + 1 && Exceptions() == e.exceptions
        invariant fromStart ==> Stands(e, |used|, mPriorityIndex, mSubnets)
        invariant fromStart ==> forall k | 0 <= k <= |used| :: counts[k] == DoneAfter(e, k)
        decreases |Remaining()|
      {
        if fromStart {
          StandsNext(e, |used|, mPriorityIndex, mSubnets);
        }
        var a := Next();
        used := used + [a];
        if fromStart {
          StandsNext(e, |used|, mPriorityIndex, mSubnets);
        }
        counts := counts + [Done()];
        more := HasNext();
      }
    }

    lemma RestOfAll()
      requires Valid()
      ensures mPriorityIndex == 0 && Ranged(mSubnets) ==> |Remaining()| == Length(Ahead())
    {
      BehindUsedUp(mSubnets, mSubnetIndex, Exceptions());
    }
  }

  lemma StandsFirst(e: Enumeration)
    requires Ranged(e.ss)
    ensures Stands(e, 0, 0, e.ss)
  {
  }
}
