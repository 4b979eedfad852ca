/** Address arithmetic and the specification of the address generator (local_ip_address_generator.cpp). */
module Addresses {
  const MAX_U32: int := 0xFFFF_FFFF

  type u32 = x: int | 0 <= x <= 0xFFFF_FFFF

  // ---- Bitwise operators on natural numbers. ----

  function And(a: nat, b: nat): nat {
    if a == 0 || b == 0 then 0 else 2 * And(a / 2, b / 2) + if a % 2 == 1 && b % 2 == 1 then 1 else 0
  }

  function Or(a: nat, b: nat): nat {
    if a == 0 then b else 2 * Or(a / 2, b / 2) + if a % 2 == 1 || b % 2 == 1 then 1 else 0
  }

  function Ones(width: nat): nat {
    if width == 0 then 0 else 2 * Ones(width - 1) + 1
  }

  lemma {:induction false} AndBelow(a: nat, b: nat)
    ensures And(a, b) <= a && And(a, b) <= b
  {
    if a != 0 && b != 0 {
      AndBelow(a / 2, b / 2);
    }
  }

  lemma {:induction false} OrAbove(a: nat, b: nat, width: nat)
    requires a <= Ones(width) && b <= Ones(width)
    ensures Or(a, b) <= Ones(width) && Or(a, b) >= b && Or(a, b) >= a
  {
    if a != 0 {
      OrAbove(a / 2, b / 2, width - 1);
    }
  }

  /** A masked number and the complement of the mask have no bit in common. */
  lemma {:induction false} OrOfDisjoint(h: nat, mask: nat, width: nat)
    requires mask <= Ones(width) && h <= Ones(width)
    ensures Or(And(h, mask), Ones(width) - mask) == And(h, mask) + (Ones(width) - mask)
    decreases width
  {
    if width > 0 {
      var x, n := And(h, mask), Ones(width) - mask;
      OrOfDisjoint(h / 2, mask / 2, width - 1);
      var x', n' := And(h / 2, mask / 2), Ones(width - 1) - mask / 2;
      var bit := if h % 2 == 1 && mask % 2 == 1 then 1 else 0;
      assert n == 2 * n' + (1 - mask % 2);
      if h == 0 || mask == 0 {
        assert x == 0;
      } else {
        assert x == 2 * x' + bit;
        assert x / 2 == x' && x % 2 == bit && n / 2 == n';
      }
    }
  }

  lemma OnesOf32()
    ensures Ones(32) == MAX_U32
  {
    assert Ones(8) == 0xFF;
    assert Ones(16) == 0xFFFF;
    assert Ones(24) == 0xFF_FFFF;
    assert Ones(28) == 0xFFF_FFFF;
  }

  // ---- Interfaces. ----

  datatype HostAddress = IPv4(a: u32) | Other(text: string)

  datatype Entry = Entry(ip: HostAddress, netmask: u32)

  datatype Interface = Interface(isUp: bool, isRunning: bool, isLoopBack: bool, entries: seq<Entry>)

  const LOCAL_HOST: HostAddress := IPv4(0x7F00_0001)
  const BROADCAST: HostAddress := IPv4(0xFFFF_FFFF)
  const ANY: HostAddress := IPv4(0)

  predicate UsableInterface(i: Interface) {
    i.isUp && i.isRunning && !i.isLoopBack
  }

  predicate UsableEntry(e: Entry) {
    e.ip.IPv4? && e.ip != LOCAL_HOST && e.ip != BROADCAST && e.ip != ANY
  }

  predicate IsLinkLocal(a: u32) {
    And(a, 0xFFFF_0000) == 0xA9FE_0000
  }

  /** The range (first, last] that is scanned for an entry. */
  function FirstOf(e: Entry, limit: u32): u32
    requires UsableEntry(e)
    ensures FirstOf(e, limit) < 0xFFFF_FFFF
  {
    if IsLinkLocal(e.ip.a) then 0xA9FE_00B3
    else
      AndBelow(e.ip.a, Or(e.netmask, limit));
      And(e.ip.a, Or(e.netmask, limit))
  }

  function LastOf(e: Entry, limit: u32): (last: u32)
    requires UsableEntry(e)
    ensures FirstOf(e, limit) <= last + 1 <= 0xFFFF_FFFF
    ensures Or(e.netmask, limit) < 0xFFFF_FFFF ==> FirstOf(e, limit) <= last
  {
    if IsLinkLocal(e.ip.a) then 0xA9FE_00B4
    else
      var mask := Or(e.netmask, limit);
      LastBounds(e, limit);
      Or(FirstOf(e, limit), MAX_U32 - mask) - 1
  }

  /** The last address of a network is its first one plus all host bits; 32 bits do not wrap around. */
  lemma LastBounds(e: Entry, limit: u32)
    requires UsableEntry(e) && !IsLinkLocal(e.ip.a)
    ensures var mask := Or(e.netmask, limit);
            && mask <= MAX_U32
            && 0 < Or(FirstOf(e, limit), MAX_U32 - mask) == FirstOf(e, limit) + (MAX_U32 - mask) <= MAX_U32
  {
    hide And, Or, Ones;
    OnesOf32();
    OrAbove(e.netmask, limit, 32);
    var mask := Or(e.netmask, limit);
    OrOfDisjoint(e.ip.a, mask, 32);
    AndBelow(e.ip.a, mask);
    if mask == MAX_U32 {
      AndAll(e.ip.a, 32);
    }
  }

  lemma {:induction false} AndAll(h: nat, width: nat)
    requires h <= Ones(width)
    ensures And(h, Ones(width)) == h
  {
    if width > 0 && h > 0 {
      AndAll(h / 2, width - 1);
    }
  }

  /** The host itself is within its network. */
  lemma HostInRange(e: Entry, limit: u32)
    requires UsableEntry(e) && !IsLinkLocal(e.ip.a)
    ensures FirstOf(e, limit) <= e.ip.a <= LastOf(e, limit) + 1
  {
    hide And, Or, Ones;
    OnesOf32();
    OrAbove(e.netmask, limit, 32);
    var mask := Or(e.netmask, limit);
    AndBelow(e.ip.a, mask);
    LastBounds(e, limit);
    AndKeeps(e.ip.a, mask, 32);
  }

  lemma {:induction false} AndKeeps(h: nat, mask: nat, width: nat)
    requires mask <= Ones(width) && h <= Ones(width)
    ensures h <= And(h, mask) + (Ones(width) - mask)
    decreases width
  {
    if width > 0 && h != 0 && mask != 0 {
      AndKeeps(h / 2, mask / 2, width - 1);
    }
  }

  // ---- What is enumerated. ----

  predicate Skipped(a: u32, localHost: u32, exceptions: set<HostAddress>) {
    a == localHost || IPv4(a) in exceptions
  }

  /** The addresses from..last, ascending, without the ones that are skipped. */
  function Hosts(from: u32, last: u32, localHost: u32, exceptions: set<HostAddress>): seq<HostAddress>
    requires last < MAX_U32
    decreases last - from
  {
    if from > last then []
    else (if Skipped(from, localHost, exceptions) then [] else [IPv4(from)]) +
         Hosts(from + 1, last, localHost, exceptions)
  }

  /** Every address of the range except the skipped ones, and no other. */
  lemma {:induction false} HostsExact(from: u32, last: u32, localHost: u32, exceptions: set<HostAddress>, h: HostAddress)
    requires last < MAX_U32
    ensures h in Hosts(from, last, localHost, exceptions)
            <==> h.IPv4? && from <= h.a <= last && h.a != localHost && h !in exceptions
    decreases last - from
  {
    if from <= last {
      HostsExact(from + 1, last, localHost, exceptions, h);
    }
  }

  /** In ascending order, so that no address comes twice. */
  lemma {:induction false} HostsAscend(from: u32, last: u32, localHost: u32, exceptions: set<HostAddress>, i: nat, j: nat)
    requires last < MAX_U32 && i < j < |Hosts(from, last, localHost, exceptions)|
    ensures var hs := Hosts(from, last, localHost, exceptions);
            hs[i].IPv4? && hs[j].IPv4? && hs[i].a < hs[j].a
    decreases last - from
  {
    var rest := Hosts(from + 1, last, localHost, exceptions);
    if Skipped(from, localHost, exceptions) {
      HostsAscend(from + 1, last, localHost, exceptions, i, j);
    } else {
      HostsExact(from + 1, last, localHost, exceptions, rest[j - 1]);
      if i > 0 {
        HostsAscend(from + 1, last, localHost, exceptions, i - 1, j - 1);
      }
    }
  }

  datatype Subnet = Subnet(first: u32, current: u32, last: u32, localHost: u32)

  /** The cursor is in the range or just behind it; a network without host bit has no range to be in. */
  predicate ValidSubnet(s: Subnet) {
    && s.first < s.current && s.first <= s.last + 1 <= MAX_U32
    && (s.current <= s.last + 1 || (s.first == s.last + 1 && s.current == s.first + 1))
  }

  /** The first address from c on that is not skipped, or the one behind the last. */
  function SkipTo(c: u32, last: u32, localHost: u32, exceptions: set<HostAddress>): (d: u32)
    requires last < MAX_U32
    ensures c <= d && (d <= last + 1 || d == c)
    decreases last - c
  {
    if c <= last && Skipped(c, localHost, exceptions) then SkipTo(c + 1, last, localHost, exceptions) else c
  }

  lemma {:induction false} SkipKeeps(c: u32, last: u32, localHost: u32, exceptions: set<HostAddress>)
    requires last < MAX_U32
    ensures var d := SkipTo(c, last, localHost, exceptions);
            Hosts(c, last, localHost, exceptions)
            == if d > last then [] else [IPv4(d)] + Hosts(d + 1, last, localHost, exceptions)
    decreases last - c
  {
    if c <= last && Skipped(c, localHost, exceptions) {
      SkipKeeps(c + 1, last, localHost, exceptions);
    }
  }

  /** Subnet::next, or the first call of it by the constructor. */
  function Advance(s: Subnet, exceptions: set<HostAddress>): (t: Subnet)
    requires (ValidSubnet(s) && s.current <= s.last) || (s.current == s.first <= s.last + 1 <= MAX_U32 && s.first < MAX_U32)
  {
    s.(current := SkipTo(s.current + 1, s.last, s.localHost, exceptions))
  }

  /** The subnet that the constructor makes for an entry. */
  function SubnetFor(e: Entry, limit: u32, exceptions: set<HostAddress>): (s: Subnet)
    requires UsableEntry(e)
    ensures ValidSubnet(s)
  {
    Advance(Subnet(FirstOf(e, limit), FirstOf(e, limit), LastOf(e, limit), e.ip.a), exceptions)
  }

  /** What a subnet has still to give: the current address, and what follows it. */
  function SubnetRest(s: Subnet, exceptions: set<HostAddress>): seq<HostAddress>
    requires ValidSubnet(s)
  {
    if s.current > s.last then []
    else [IPv4(s.current)] + Hosts(s.current + 1, s.last, s.localHost, exceptions)
  }

  function SubnetsRest(ss: seq<Subnet>, exceptions: set<HostAddress>): seq<HostAddress>
    requires forall s | s in ss :: ValidSubnet(s)
  {
    if ss == [] then [] else SubnetRest(ss[0], exceptions) + SubnetsRest(ss[1..], exceptions)
  }

  /** The entries that give a subnet. */
  function UsableEntries(entries: seq<Entry>): (us: seq<Entry>)
    ensures forall e | e in us :: UsableEntry(e)
  {
    if entries == [] then []
    else (if UsableEntry(entries[0]) then [entries[0]] else []) + UsableEntries(entries[1..])
  }

  function EntriesOf(interfaces: seq<Interface>): (us: seq<Entry>)
    ensures forall e | e in us :: UsableEntry(e)
  {
    if interfaces == [] then []
    else (if UsableInterface(interfaces[0]) then UsableEntries(interfaces[0].entries) else []) +
         EntriesOf(interfaces[1..])
  }

  /** All addresses of the networks that the entries belong to. */
  function NetworkHosts(entries: seq<Entry>, limit: u32, exceptions: set<HostAddress>): seq<HostAddress>
    requires forall e | e in entries :: UsableEntry(e)
  {
    if entries == [] then []
    else
      var e := entries[0];
      Hosts(FirstOf(e, limit) + 1, LastOf(e, limit), e.ip.a, exceptions) +
      NetworkHosts(entries[1..], limit, exceptions)
  }

  /** What is handed out is exactly what lies in one of the ranges, is not its own host and not an exception. */
  lemma {:induction false} NetworkHostsExact(entries: seq<Entry>, limit: u32, exceptions: set<HostAddress>, h: HostAddress)
    requires forall e | e in entries :: UsableEntry(e)
    ensures h in NetworkHosts(entries, limit, exceptions) <==>
            h.IPv4? && h !in exceptions &&
            exists e | e in entries :: FirstOf(e, limit) < h.a <= LastOf(e, limit) && h != e.ip
  {
    if entries != [] {
      var e := entries[0];
      HostsExact(FirstOf(e, limit) + 1, LastOf(e, limit), e.ip.a, exceptions, h);
      NetworkHostsExact(entries[1..], limit, exceptions, h);
    }
  }

  /** Of the link-local network exactly the static address 169.254.0.180 of a Fronius inverter is scanned. */
  lemma LinkLocal(e: Entry, limit: u32, exceptions: set<HostAddress>)
    requires UsableEntry(e) && IsLinkLocal(e.ip.a)
    ensures NetworkHosts([e], limit, exceptions)
            == if e.ip == IPv4(0xA9FE_00B4) || IPv4(0xA9FE_00B4) in exceptions then [] else [IPv4(0xA9FE_00B4)]
  {
    var a: u32 := 0xA9FE_00B4;
    assert Hosts(a + 1, a, e.ip.a, exceptions) == [];
    assert [e][1..] == [];
  }
}
