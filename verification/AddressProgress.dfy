/**
 How far an enumeration of addresses has come: the positions of the subnets against their sizes, and the
 percentage that LocalIpAddressGenerator::progress makes of them (local_ip_address_generator.cpp).
 */
module AddressProgress {
  import opened Addresses
  import opened Numbers

  /** The C++ conversion of a quint32 to int. */
  function Int32(x: int): int {
    var y := x % 0x1_0000_0000;
    if y >= 0x8000_0000 then y - 0x1_0000_0000 else y
  }

  /** It is the number modulo 2^32 that an int holds. */
  lemma Int32Is(x: int)
    ensures -0x8000_0000 <= Int32(x) < 0x8000_0000 && (x - Int32(x)) % 0x1_0000_0000 == 0
  {
  }

  function SubnetSize(s: Subnet): int {
    Int32(s.last - s.first + 1)
  }

  function SubnetPosition(s: Subnet): int {
    Int32(s.current - s.first)
  }

  function TotalSize(ss: seq<Subnet>): int {
    if ss == [] then 0 else TotalSize(ss[..|ss| - 1]) + SubnetSize(ss[|ss| - 1])
  }

  function TotalPosition(ss: seq<Subnet>): int {
    if ss == [] then 0 else TotalPosition(ss[..|ss| - 1]) + SubnetPosition(ss[|ss| - 1])
  }

  /** What progress computes. */
  function Percentage(done: int, total: int, activeCount: int): int {
    if total == 0 then 0 else 100 * Max(0, done - activeCount) / total
  }

  lemma Quotient(a: nat, n: int)
    requires n > 0
    ensures n * (a / n) <= a < n * (a / n) + n
  {
  }

  lemma Product(n: nat, x: int, y: int)
    requires x <= y
    ensures n * x <= n * y
  {
  }

  lemma QuotientGrows(a: nat, b: nat, n: int)
    requires a <= b && n > 0
    ensures a / n <= b / n
  {
    Quotient(a, n);
    Quotient(b, n);
    if b / n + 1 <= a / n {
      Product(n, b / n + 1, a / n);
      assert false;
    }
  }

  lemma QuotientIs(a: nat, n: int, q: nat)
    requires n > 0 && n * q <= a < n * q + n
    ensures a / n == q
  {
    Quotient(a, n);
    if a / n + 1 <= q {
      Product(n, a / n + 1, q);
      assert false;
    }
    if q + 1 <= a / n {
      Product(n, q + 1, a / n);
      assert false;
    }
  }

  lemma PercentageBounds(done: int, total: int, activeCount: nat)
    requires 0 <= done <= total && total > 0
    ensures 0 <= Percentage(done, total, activeCount) <= 100
    ensures Percentage(done, total, 0) == 100 <==> done == total
  {
    var a := 100 * Max(0, done - activeCount);
    QuotientIs(100 * total, total, 100);
    QuotientIs(0, total, 0);
    QuotientGrows(0, a, total);
    QuotientGrows(a, 100 * total, total);
    if done < total {
      Quotient(100 * done, total);
      if 100 * done / total >= 100 {
        Product(total, 100, 100 * done / total);
        assert false;
      }
    }
  }

  lemma MoreIsShown(done: int, more: int, total: nat, activeCount: nat)
    requires done <= more
    ensures Percentage(done, total, activeCount) <= Percentage(more, total, activeCount)
  {
    if total > 0 {
      QuotientGrows(100 * Max(0, done - activeCount), 100 * Max(0, more - activeCount), total);
    }
  }

  // ---- Positions and sizes. ----

  /** An int can hold the size of each network. */
  predicate Ranged(ss: seq<Subnet>) {
    forall s | s in ss :: ValidSubnet(s) && s.last - s.first < 0x7FFF_FFFF
  }

  /** How many of the networks have no host bit. */
  function Hostless(ss: seq<Subnet>): nat {
    if ss == [] then 0
    else Hostless(ss[..|ss| - 1]) + if ss[|ss| - 1].first > ss[|ss| - 1].last then 1 else 0
  }

  /** The position of a subnet comes up to its size; but without host bit the size is 0 and the position 1. */
  lemma PositionOf(s: Subnet)
    requires ValidSubnet(s) && s.last - s.first < 0x7FFF_FFFF
    ensures SubnetSize(s) >= 0 && SubnetPosition(s) >= 1
    ensures if s.first > s.last then SubnetSize(s) == 0 && SubnetPosition(s) == 1 && s.current > s.last
            else SubnetPosition(s) <= SubnetSize(s) && (SubnetPosition(s) == SubnetSize(s) <==> s.current > s.last)
  {
  }

  /** When nothing is left the positions are the sizes, and one more for each network without host bit. */
  lemma {:induction false} Positions(ss: seq<Subnet>)
    requires Ranged(ss)
    ensures |ss| <= TotalPosition(ss) <= TotalSize(ss) + Hostless(ss) && TotalSize(ss) >= 0
    ensures TotalPosition(ss) == TotalSize(ss) + Hostless(ss) <==> forall s | s in ss :: s.current > s.last
  {
    hide SubnetSize, SubnetPosition, ValidSubnet;
    if ss != [] {
      var before, s := ss[..|ss| - 1], ss[|ss| - 1];
      assert ss == before + [s];
      assert forall t :: t in ss <==> t in before || t == s;
      Positions(before);
      PositionOf(s);
    }
  }

  lemma {:induction false} PositionMoves(ss: seq<Subnet>, i: nat, t: Subnet)
    requires i < |ss| && Ranged(ss) && Ranged([t]) && ss[i].first == t.first && ss[i].last == t.last
    requires ss[i].current < t.current
    ensures TotalPosition(ss[i := t]) > TotalPosition(ss) && TotalSize(ss[i := t]) == TotalSize(ss)
    ensures Hostless(ss[i := t]) == Hostless(ss)
  {
    hide TotalPosition, TotalSize, Hostless;
    assert t in [t];
    var n := |ss| - 1;
    LastSummand(ss);
    LastSummand(ss[i := t]);
    if i < n {
      assert ss[i := t][..n] == ss[..n][i := t];
      PositionMoves(ss[..n], i, t);
    } else {
      assert ss[i := t][..n] == ss[..n];
    }
  }

  lemma NoSubnets()
    ensures TotalSize([]) == 0 && Hostless([]) == 0
  {
  }

  lemma LastSummand(ss: seq<Subnet>)
    requires ss != []
    ensures var n, s := |ss| - 1, ss[|ss| - 1];
            && TotalPosition(ss) == TotalPosition(ss[..n]) + SubnetPosition(s)
            && TotalSize(ss) == TotalSize(ss[..n]) + SubnetSize(s)
            && Hostless(ss) == Hostless(ss[..n]) + if s.first > s.last then 1 else 0
  {
  }

  lemma {:induction false} RestOfNone(ss: seq<Subnet>, exceptions: set<HostAddress>)
    requires forall s | s in ss :: ValidSubnet(s) && s.current > s.last
    ensures SubnetsRest(ss, exceptions) == []
  {
    if ss != [] {
      RestOfNone(ss[1..], exceptions);
    }
  }

  lemma {:induction false} RestIsNone(ss: seq<Subnet>, exceptions: set<HostAddress>)
    requires forall s | s in ss :: ValidSubnet(s)
    requires SubnetsRest(ss, exceptions) == []
    ensures forall s | s in ss :: s.current > s.last
  {
    if ss != [] {
      RestIsNone(ss[1..], exceptions);
    }
  }

  lemma {:induction false} RestSnoc(ss: seq<Subnet>, s: Subnet, exceptions: set<HostAddress>)
    requires forall t | t in ss + [s] :: ValidSubnet(t)
    ensures SubnetsRest(ss + [s], exceptions) == SubnetsRest(ss, exceptions) + SubnetRest(s, exceptions)
  {
    if ss == [] {
      assert ss + [s] == [s];
    } else {
      assert (ss + [s])[1..] == ss[1..] + [s];
      RestSnoc(ss[1..], s, exceptions);
    }
  }

  lemma RestCons(ss: seq<Subnet>, i: nat, exceptions: set<HostAddress>)
    requires i < |ss| && forall j | 0 <= j < |ss| :: ValidSubnet(ss[j])
    ensures SubnetsRest(ss[i..], exceptions) == SubnetRest(ss[i], exceptions) + SubnetsRest(ss[i + 1..], exceptions)
    ensures SubnetRest(ss[i], exceptions) == [] <==> ss[i].current > ss[i].last
  {
    assert ss[i..][1..] == ss[i + 1..];
  }

  lemma RestOfAdvance(s: Subnet, exceptions: set<HostAddress>)
    requires ValidSubnet(s) && s.current <= s.last
    ensures ValidSubnet(Advance(s, exceptions)) && Advance(s, exceptions).current > s.current
    ensures SubnetRest(s, exceptions) == [IPv4(s.current)] + SubnetRest(Advance(s, exceptions), exceptions)
  {
    SkipKeeps(s.current + 1, s.last, s.localHost, exceptions);
  }

  /** Subnet::next on the subnet at index i. */
  lemma TakeStep(ss: seq<Subnet>, i: nat, exceptions: set<HostAddress>)
    requires i < |ss| && forall j | 0 <= j < |ss| :: ValidSubnet(ss[j])
    requires ss[i].current <= ss[i].last
    ensures var s := Advance(ss[i], exceptions);
            && ValidSubnet(s)
            && [IPv4(ss[i].current)] + SubnetsRest(ss[i := s][i..], exceptions) == SubnetsRest(ss[i..], exceptions)
  {
    RestOfAdvance(ss[i], exceptions);
    hide SubnetsRest, SubnetRest, Advance, ValidSubnet;
    var s := Advance(ss[i], exceptions);
    RestCons(ss, i, exceptions);
    RestCons(ss[i := s], i, exceptions);
    assert ss[i := s][i + 1..] == ss[i + 1..];
  }

  lemma TakeMoves(ss: seq<Subnet>, i: nat, exceptions: set<HostAddress>)
    requires i < |ss| && Ranged(ss) && ValidSubnet(ss[i]) && ss[i].current <= ss[i].last
    ensures var us := ss[i := Advance(ss[i], exceptions)];
            && Ranged(us) && TotalPosition(us) > TotalPosition(ss)
            && TotalSize(us) == TotalSize(ss) && Hostless(us) == Hostless(ss)
  {
    RestOfAdvance(ss[i], exceptions);
    AdvanceRange(ss[i], exceptions);
    hide TotalPosition, TotalSize, Hostless, Advance, ValidSubnet;
    var s := Advance(ss[i], exceptions);
    assert ss[i] in ss;
    assert Ranged([s]);
    PositionMoves(ss, i, s);
  }

  lemma AdvanceRange(s: Subnet, exceptions: set<HostAddress>)
    requires ValidSubnet(s) && s.current <= s.last
    ensures var t := Advance(s, exceptions); t.first == s.first && t.last == s.last && t.localHost == s.localHost
  {
  }

  // ---- The enumeration, one address after the other. ----

  /** Where the cursors are when the next address has been taken. */
  function NextIn(ss: seq<Subnet>, exceptions: set<HostAddress>): seq<Subnet>
    requires forall s | s in ss :: ValidSubnet(s)
  {
    if ss == [] then []
    else if ss[0].current <= ss[0].last then [Advance(ss[0], exceptions)] + ss[1..]
    else [ss[0]] + NextIn(ss[1..], exceptions)
  }

  lemma {:induction false} NextInIs(ss: seq<Subnet>, i: nat, exceptions: set<HostAddress>)
    requires (forall s | s in ss :: ValidSubnet(s)) && i < |ss| && ss[i].current <= ss[i].last
    requires forall j | 0 <= j < i :: ss[j].current > ss[j].last
    ensures NextIn(ss, exceptions) == ss[i := Advance(ss[i], exceptions)]
  {
    hide Advance;
    if i > 0 {
      NextInIs(ss[1..], i - 1, exceptions);
      assert ss[i := Advance(ss[i], exceptions)] == [ss[0]] + ss[1..][i - 1 := Advance(ss[i], exceptions)];
    } else {
      assert ss[0 := Advance(ss[0], exceptions)] == [Advance(ss[0], exceptions)] + ss[1..];
    }
  }

  lemma {:induction false} FirstOpen(ss: seq<Subnet>, exceptions: set<HostAddress>) returns (i: nat)
    requires (forall s | s in ss :: ValidSubnet(s)) && SubnetsRest(ss, exceptions) != []
    ensures i < |ss| && ss[i].current <= ss[i].last && forall j | 0 <= j < i :: ss[j].current > ss[j].last
    ensures SubnetsRest(ss, exceptions) == SubnetsRest(ss[i..], exceptions)
  {
    i := 0;
    assert ss[0..] == ss;
    if ss[0].current > ss[0].last {
      var k := FirstOpen(ss[1..], exceptions);
      i := k + 1;
      assert ss[1..][k..] == ss[i..];
      assert forall j | 1 <= j < i :: ss[j] == ss[1..][j - 1];
    }
  }

  lemma {:induction false} NextStep(ss: seq<Subnet>, exceptions: set<HostAddress>)
    requires Ranged(ss) && SubnetsRest(ss, exceptions) != []
    ensures var us := NextIn(ss, exceptions);
            && Ranged(us) && TotalPosition(us) > TotalPosition(ss)
            && TotalSize(us) == TotalSize(ss) && Hostless(us) == Hostless(ss)
            && SubnetsRest(us, exceptions) == SubnetsRest(ss, exceptions)[1..]
  {
    hide TotalPosition, TotalSize, Hostless, Advance, SubnetRest, NextIn;
    var i := FirstOpen(ss, exceptions);
    NextInIs(ss, i, exceptions);
    TakeStep(ss, i, exceptions);
    TakeMoves(ss, i, exceptions);
    var us := ss[i := Advance(ss[i], exceptions)];
    BehindUsedUp(us, i, exceptions);
  }

  /** What is used up gives nothing. */
  lemma {:induction false} BehindUsedUp(ss: seq<Subnet>, i: nat, exceptions: set<HostAddress>)
    requires (forall s | s in ss :: ValidSubnet(s)) && i <= |ss| && forall j | 0 <= j < i :: ss[j].current > ss[j].last
    ensures SubnetsRest(ss, exceptions) == SubnetsRest(ss[i..], exceptions)
  {
    if i > 0 {
      BehindUsedUp(ss[1..], i - 1, exceptions);
      assert ss[1..][i - 1..] == ss[i..];
    } else {
      assert ss[0..] == ss;
    }
  }

  /** The cursors after n addresses. */
  function SubnetsAfter(ss: seq<Subnet>, exceptions: set<HostAddress>, n: nat): (us: seq<Subnet>)
    requires Ranged(ss) && n <= |SubnetsRest(ss, exceptions)|
    ensures Ranged(us) && TotalSize(us) == TotalSize(ss) && Hostless(us) == Hostless(ss)
    ensures SubnetsRest(us, exceptions) == SubnetsRest(ss, exceptions)[n..]
    ensures TotalPosition(us) >= TotalPosition(ss) + n
  {
    if n == 0 then ss
    else
      AfterStep(ss, SubnetsAfter(ss, exceptions, n - 1), exceptions, n);
      NextIn(SubnetsAfter(ss, exceptions, n - 1), exceptions)
  }

  lemma {:induction false} AfterStep(ss: seq<Subnet>, us: seq<Subnet>, exceptions: set<HostAddress>, n: nat)
    requires Ranged(ss) && Ranged(us) && 0 < n <= |SubnetsRest(ss, exceptions)|
    requires TotalSize(us) == TotalSize(ss) && Hostless(us) == Hostless(ss)
    requires SubnetsRest(us, exceptions) == SubnetsRest(ss, exceptions)[n - 1..]
    requires TotalPosition(us) >= TotalPosition(ss) + n - 1
    ensures SubnetsRest(us, exceptions) != []
    ensures var vs := NextIn(us, exceptions);
            && Ranged(vs) && TotalSize(vs) == TotalSize(ss) && Hostless(vs) == Hostless(ss)
            && SubnetsRest(vs, exceptions) == SubnetsRest(ss, exceptions)[n..]
            && TotalPosition(vs) >= TotalPosition(ss) + n
  {
    hide TotalPosition, TotalSize, Hostless, SubnetsRest, NextIn;
    NextStep(us, exceptions);
    var rest := SubnetsRest(ss, exceptions);
    assert rest[n - 1..][1..] == rest[n..];
  }

  /** An enumeration before its first address: how many priority addresses there are, and the subnets. */
  datatype Enumeration = Enumeration(priority: nat, ss: seq<Subnet>, exceptions: set<HostAddress>)

  function Length(e: Enumeration): nat
    requires Ranged(e.ss)
  {
    e.priority + |SubnetsRest(e.ss, e.exceptions)|
  }

  function Total(e: Enumeration): int {
    e.priority + TotalSize(e.ss)
  }

  /** What progress counts as done after k addresses. */
  function DoneAfter(e: Enumeration, k: nat): int
    requires Ranged(e.ss) && k <= Length(e)
  {
    if k <= e.priority then k + TotalPosition(e.ss)
    else e.priority + TotalPosition(SubnetsAfter(e.ss, e.exceptions, k - e.priority))
  }

  /** The cursors, index among the priority addresses and ss, after k addresses. */
  predicate Stands(e: Enumeration, k: nat, index: int, ss: seq<Subnet>) {
    && Ranged(e.ss) && k <= Length(e)
    && index == Min(k, e.priority) && ss == SubnetsAfter(e.ss, e.exceptions, Max(0, k - e.priority))
  }

  lemma {:induction false} StandsNext(e: Enumeration, k: nat, index: int, ss: seq<Subnet>)
    requires Stands(e, k, index, ss)
    ensures forall s | s in ss :: ValidSubnet(s)
    ensures index + TotalPosition(ss) == DoneAfter(e, k)
    ensures k < Length(e) ==>
              if index < e.priority then Stands(e, k + 1, index + 1, ss)
              else Stands(e, k + 1, index, NextIn(ss, e.exceptions))
  {
    hide NextIn, TotalPosition, SubnetsRest;
  }

  lemma {:induction false} DoneStep(e: Enumeration, k: nat)
    requires Ranged(e.ss) && k < Length(e)
    ensures DoneAfter(e, k) < DoneAfter(e, k + 1)
  {
    hide TotalPosition, NextIn, SubnetsRest;
    if k >= e.priority {
      var us := SubnetsAfter(e.ss, e.exceptions, k - e.priority);
      NextStep(us, e.exceptions);
      assert SubnetsAfter(e.ss, e.exceptions, k + 1 - e.priority) == NextIn(us, e.exceptions);
    }
  }

  lemma {:induction false} DoneGrows(e: Enumeration, k: nat, l: nat)
    requires Ranged(e.ss) && k < l <= Length(e)
    ensures DoneAfter(e, k) < DoneAfter(e, l)
    decreases l
  {
    hide DoneAfter, SubnetsRest;
    DoneStep(e, l - 1);
    if k < l - 1 {
      DoneGrows(e, k, l - 1);
    }
  }

  /** At the end the sizes have been counted, and one more for each network without host bit. */
  lemma {:induction false} DoneAtEnd(e: Enumeration)
    requires Ranged(e.ss)
    ensures DoneAfter(e, Length(e)) == Total(e) + Hostless(e.ss)
    ensures DoneAfter(e, 0) >= 0 && Total(e) >= 0
  {
    var n := |SubnetsRest(e.ss, e.exceptions)|;
    var us := SubnetsAfter(e.ss, e.exceptions, n);
    assert SubnetsRest(us, e.exceptions) == [];
    RestIsNone(us, e.exceptions);
    Positions(us);
    Positions(e.ss);
  }

  // ---- When progress keeps its promise. ----

  /** What is done is at most all there is, and all of it exactly at the end. */
  predicate CountsRight(e: Enumeration, k: nat)
    requires Ranged(e.ss) && k <= Length(e)
  {
    DoneAfter(e, k) <= Total(e) && (DoneAfter(e, k) == Total(e) <==> k == Length(e))
  }

  /** After every number of addresses the count is right, if and only if every network has a host bit. */
  lemma {:induction false} CountIsRight(e: Enumeration)
    requires Ranged(e.ss)
    ensures (forall k | 0 <= k <= Length(e) :: CountsRight(e, k)) <==> Hostless(e.ss) == 0
  {
    hide DoneAfter, TotalPosition, Hostless, SubnetsRest;
    DoneAtEnd(e);
    if Hostless(e.ss) == 0 {
      forall k: nat | k <= Length(e) ensures CountsRight(e, k) {
        if k < Length(e) {
          DoneGrows(e, k, Length(e));
        }
      }
    } else {
      assert !CountsRight(e, Length(e));
    }
  }

  /** With no active host: a percentage, and 100 exactly at the end of an enumeration that is not empty. */
  predicate ShowsRight(e: Enumeration, k: nat)
    requires Ranged(e.ss) && k <= Length(e)
  {
    var p := Percentage(DoneAfter(e, k), Total(e), 0);
    0 <= p <= 100 && (p == 100 <==> k == Length(e) && Total(e) > 0)
  }

  /** By how much the last address moves the count: by one, and by what is skipped behind it. */
  function LastMove(e: Enumeration): int
    requires Ranged(e.ss) && Length(e) > 0
  {
    DoneAfter(e, Length(e)) - DoneAfter(e, Length(e) - 1)
  }

  /**
   After every number of addresses the percentage is right, if and only if every network has a host bit, or
   there is nothing to count, or those without are less than a hundredth of the rest and fewer than what the
   last address moves the count by.
   */
  lemma {:induction false} PercentageIsRight(e: Enumeration)
    requires Ranged(e.ss)
    ensures (forall k | 0 <= k <= Length(e) :: ShowsRight(e, k))
            <==> Hostless(e.ss) == 0 || Total(e) == 0 ||
                 (100 * Hostless(e.ss) < Total(e) && (Length(e) > 0 ==> Hostless(e.ss) < LastMove(e)))
  {
    hide DoneAfter, TotalPosition, TotalSize, Hostless, SubnetsRest, Percentage;
    DoneAtEnd(e);
    var z, t, n := Hostless(e.ss), Total(e), Length(e);
    if z == 0 || t == 0 || (100 * z < t && (n > 0 ==> z < LastMove(e))) {
      forall k: nat | k <= n ensures ShowsRight(e, k) {
        if k > 0 {
          DoneGrows(e, 0, k);
        }
        if k < n {
          DoneGrows(e, k, n);
          if k < n - 1 {
            DoneGrows(e, k, n - 1);
          }
        }
        PercentageOf(DoneAfter(e, k), t, z);
      }
    } else if 100 * z >= t {
      PercentageOf(DoneAfter(e, n), t, z);
      assert !ShowsRight(e, n);
    } else {
      if n > 1 {
        DoneGrows(e, 0, n - 1);
      }
      PercentageOf(DoneAfter(e, n - 1), t, z);
      assert !ShowsRight(e, n - 1);
    }
  }

  lemma PercentageOf(done: int, total: int, z: nat)
    requires done >= 0 && total >= 0
    ensures total == 0 ==> Percentage(done, total, 0) == 0
    ensures total > 0 && done < total ==> 0 <= Percentage(done, total, 0) < 100
    ensures total > 0 && done >= total ==> Percentage(done, total, 0) >= 100
    ensures total > 0 && done == total + z && 100 * z < total ==> Percentage(done, total, 0) == 100
    ensures total > 0 && done == total + z && 100 * z >= total ==> Percentage(done, total, 0) > 100
  {
    if total > 0 {
      if done <= total {
        PercentageBounds(done, total, 0);
      } else {
        QuotientGrows(100 * total, 100 * done, total);
        QuotientIs(100 * total, total, 100);
        if done == total + z && 100 * z < total {
          QuotientIs(100 * done, total, 100);
        }
        if done == total + z && 100 * z >= total {
          QuotientGrows(101 * total, 100 * done, total);
          QuotientIs(101 * total, total, 101);
        }
      }
    }
  }

  /** Taking addresses never lowers the progress, as long as the number of active hosts is the same. */
  lemma {:induction false} ProgressGrows(e: Enumeration, k: nat, l: nat, activeCount: nat)
    requires Ranged(e.ss) && k <= l <= Length(e)
    ensures Percentage(DoneAfter(e, k), Total(e), activeCount) <= Percentage(DoneAfter(e, l), Total(e), activeCount)
  {
    hide DoneAfter, SubnetsRest, Percentage;
    DoneAtEnd(e);
    if k < l {
      DoneGrows(e, k, l);
    }
    MoreIsShown(DoneAfter(e, k), DoneAfter(e, l), Total(e), activeCount);
  }

  /** The assertion of progress: if there is nothing to count, nothing is done. */
  predicate AssertionHolds(e: Enumeration, k: nat)
    requires Ranged(e.ss) && k <= Length(e)
  {
    Total(e) == 0 ==> DoneAfter(e, k) == 0
  }

  /** It fails if and only if there are networks, but neither one with a host bit nor a priority address. */
  lemma {:induction false} AssertionIsRight(e: Enumeration)
    requires Ranged(e.ss)
    ensures (forall k | 0 <= k <= Length(e) :: AssertionHolds(e, k))
            <==> !(e.priority == 0 && e.ss != [] && Hostless(e.ss) == |e.ss|)
  {
    hide SubnetsRest, Hostless, TotalSize;
    NothingToCount(e.ss);
    Positions(e.ss);
    if e.priority == 0 && e.ss != [] && Hostless(e.ss) == |e.ss| {
      assert !AssertionHolds(e, 0);
    } else if e.ss == [] {
      assert TotalSize([]) == 0 && Hostless([]) == 0;
      DoneAtEnd(e);
      forall k: nat | k <= Length(e) ensures AssertionHolds(e, k) {
        if k < Length(e) {
          DoneGrows(e, k, Length(e));
        }
      }
    }
  }

  /** The sizes are all 0 if and only if no network has a host bit. */
  lemma {:induction false} NothingToCount(ss: seq<Subnet>)
    requires Ranged(ss)
    ensures TotalSize(ss) >= 0 && Hostless(ss) <= |ss| && (TotalSize(ss) == 0 <==> Hostless(ss) == |ss|)
  {
    if ss != [] {
      PositionOf(ss[|ss| - 1]);
      NothingToCount(ss[..|ss| - 1]);
    }
  }

  // ---- In terms of the masks. ----

  /** The subnets that were made for a list of entries, before the first address is taken. */
  ghost predicate MadeFor(ss: seq<Subnet>, us: seq<Entry>, limit: u32, exceptions: set<HostAddress>)
    requires forall e | e in us :: UsableEntry(e)
  {
    && |ss| == |us|
    && (forall i | 0 <= i < |ss| :: ss[i] == SubnetFor(us[i], limit, exceptions))
    && SubnetsRest(ss, exceptions) == NetworkHosts(us, limit, exceptions)
  }

  /** The limited mask of an entry leaves no host bit; of a link-local network the mask does not matter. */
  predicate NoHostBit(e: Entry, limit: u32)
    requires UsableEntry(e)
  {
    !IsLinkLocal(e.ip.a) && Or(e.netmask, limit) == MAX_U32
  }

  function CountNoHostBit(us: seq<Entry>, limit: u32): nat
    requires forall u | u in us :: UsableEntry(u)
  {
    if us == [] then 0
    else CountNoHostBit(us[..|us| - 1], limit) + if NoHostBit(us[|us| - 1], limit) then 1 else 0
  }

  /** How many addresses the mask of an entry leaves, with the limit, besides the first one. */
  function RoomOf(e: Entry, limit: u32): int
    requires UsableEntry(e)
  {
    if IsLinkLocal(e.ip.a) then 1 else MAX_U32 - Or(e.netmask, limit)
  }

  lemma SubnetOf(e: Entry, limit: u32, exceptions: set<HostAddress>)
    requires UsableEntry(e)
    ensures var s := SubnetFor(e, limit, exceptions);
            && s.first == FirstOf(e, limit) && s.last == LastOf(e, limit)
            && (s.first > s.last <==> NoHostBit(e, limit))
            && (!IsLinkLocal(e.ip.a) ==> s.last + 1 - s.first == RoomOf(e, limit))
  {
    if !IsLinkLocal(e.ip.a) {
      LastBounds(e, limit);
    }
  }

  /** The networks without host bit are those whose limited mask leaves none. */
  lemma {:induction false} HostlessByMask(ss: seq<Subnet>, us: seq<Entry>, limit: u32, exceptions: set<HostAddress>)
    requires forall u | u in us :: UsableEntry(u)
    requires |ss| == |us| && forall i | 0 <= i < |ss| :: ss[i] == SubnetFor(us[i], limit, exceptions)
    requires forall u | u in us :: RoomOf(u, limit) <= 0x7FFF_FFFF
    ensures Ranged(ss) && Hostless(ss) == CountNoHostBit(us, limit)
  {
    hide SubnetFor, NoHostBit, IsLinkLocal;
    if ss != [] {
      var n := |ss| - 1;
      assert ss == ss[..n] + [ss[n]] && us == us[..n] + [us[n]];
      assert us[n] in us;
      SubnetOf(us[n], limit, exceptions);
      if IsLinkLocal(us[n].ip.a) {
        LinkLocalRange(us[n], limit);
      }
      HostlessByMask(ss[..n], us[..n], limit, exceptions);
      assert Ranged([ss[n]]);
    }
  }

  lemma LinkLocalRange(e: Entry, limit: u32)
    requires UsableEntry(e) && IsLinkLocal(e.ip.a)
    ensures FirstOf(e, limit) == 0xA9FE_00B3 && LastOf(e, limit) == 0xA9FE_00B4
  {
  }

  /** The limit of the gateway leaves 4095 addresses to a network, so that 5000 networks fit the int of progress. */
  lemma {:induction false} SizeUnderLimit(ss: seq<Subnet>, us: seq<Entry>, limit: u32, exceptions: set<HostAddress>)
    requires forall u | u in us :: UsableEntry(u)
    requires |ss| == |us| && forall i | 0 <= i < |ss| :: ss[i] == SubnetFor(us[i], limit, exceptions)
    requires limit == 0xFFFF_F000
    ensures Ranged(ss) && TotalSize(ss) + Hostless(ss) <= 4095 * |us|
    ensures |us| <= 5000 ==> 100 * (TotalSize(ss) + Hostless(ss)) <= 0x7FFF_FFFF
  {
    hide SubnetFor, TotalSize, Hostless, SubnetSize;
    if ss == [] {
      NoSubnets();
    } else {
      var n := |ss| - 1;
      LastSummand(ss);
      assert ss == ss[..n] + [ss[n]];
      assert us[n] in us;
      OneUnderLimit(us[n], limit, exceptions);
      SizeUnderLimit(ss[..n], us[..n], limit, exceptions);
      assert Ranged([ss[n]]);
    }
  }

  lemma OneUnderLimit(e: Entry, limit: u32, exceptions: set<HostAddress>)
    requires UsableEntry(e) && limit == 0xFFFF_F000
    ensures var s := SubnetFor(e, limit, exceptions);
            ValidSubnet(s) && s.last - s.first < 0x7FFF_FFFF && SubnetSize(s) + (if s.first > s.last then 1 else 0) <= 4095
  {
    hide SubnetFor, NoHostBit, IsLinkLocal;
    SubnetOf(e, limit, exceptions);
    MaskUnderLimit(e, limit);
    if IsLinkLocal(e.ip.a) {
      LinkLocalRange(e, limit);
    }
  }

  lemma MaskUnderLimit(e: Entry, limit: u32)
    requires UsableEntry(e)
    ensures limit <= Or(e.netmask, limit) <= MAX_U32
  {
    OnesOf32();
    OrAbove(e.netmask, limit, 32);
  }

  /** The subnet of a link-local address has two addresses, and gives the second one. */
  lemma LinkLocalSubnet(e: Entry, limit: u32)
    requires UsableEntry(e) && IsLinkLocal(e.ip.a) && e.ip != IPv4(0xA9FE_00B4)
    ensures var s := SubnetFor(e, limit, {});
            && s.first == 0xA9FE_00B3 && s.current == s.last == 0xA9FE_00B4
            && SubnetRest(s, {}) == [IPv4(0xA9FE_00B4)]
  {
    LinkLocalRange(e, limit);
    hide FirstOf, LastOf, IsLinkLocal;
    var s := SubnetFor(e, limit, {});
    assert !Skipped(0xA9FE_00B4, s.localHost, {});
    assert Hosts(0xA9FE_00B5, 0xA9FE_00B4, s.localHost, {}) == [];
  }

  /** The sums over two subnets. */
  lemma SumsOfTwo(s: Subnet, t: Subnet, exceptions: set<HostAddress>)
    requires ValidSubnet(s) && ValidSubnet(t)
    ensures TotalSize([s, t]) == SubnetSize(s) + SubnetSize(t)
    ensures TotalPosition([s, t]) == SubnetPosition(s) + SubnetPosition(t)
    ensures Hostless([s, t]) == (if s.first > s.last then 1 else 0) + (if t.first > t.last then 1 else 0)
    ensures SubnetsRest([s, t], exceptions) == SubnetRest(s, exceptions) + SubnetRest(t, exceptions)
  {
    hide SubnetSize, SubnetPosition, SubnetRest, ValidSubnet;
    var ss := [s, t];
    assert ss[..1] == [s] && [s][..0] == [] && ss[1..] == [t] && [t][1..] == [];
    assert TotalSize([s]) == SubnetSize(s) && TotalPosition([s]) == SubnetPosition(s);
    assert Hostless([s]) == if s.first > s.last then 1 else 0;
    assert SubnetsRest([t], exceptions) == SubnetRest(t, exceptions) + SubnetsRest([], exceptions);
    assert SubnetsRest(ss, exceptions) == SubnetRest(s, exceptions) + SubnetsRest([t], exceptions);
    assert TotalSize(ss) == TotalSize(ss[..1]) + SubnetSize(t);
    assert TotalPosition(ss) == TotalPosition(ss[..1]) + SubnetPosition(t);
    assert Hostless(ss) == Hostless(ss[..1]) + if t.first > t.last then 1 else 0;
  }

  /**
   Beside a link-local network, one whose mask leaves no host bit makes the progress 100 while the only
   address is still to come, and 150 when it has been taken.
   */
  lemma NetworkOfOne(e: Entry, u: Entry, limit: u32)
    requires UsableEntry(e) && IsLinkLocal(e.ip.a) && e.ip != IPv4(0xA9FE_00B4)
    requires UsableEntry(u) && NoHostBit(u, limit)
    ensures var ss := [SubnetFor(e, limit, {}), SubnetFor(u, limit, {})];
            Ranged(ss) &&
            var n := Enumeration(0, ss, {});
            && SubnetsRest(ss, {}) == [IPv4(0xA9FE_00B4)] && Length(n) == 1
            && Percentage(DoneAfter(n, 0), Total(n), 0) == 100
            && Percentage(DoneAfter(n, 1), Total(n), 0) == 150
  {
    hide SubnetFor, TotalSize, TotalPosition, Hostless, SubnetsRest, SubnetsAfter, IsLinkLocal;
    var s, t := SubnetFor(e, limit, {}), SubnetFor(u, limit, {});
    var ss := [s, t];
    SubnetOf(u, limit, {});
    LinkLocalSubnet(e, limit);
    assert Ranged(ss);
    PositionOf(t);
    SumsOfTwo(s, t, {});
    var n := Enumeration(0, ss, {});
    DoneAtEnd(n);
    assert DoneAfter(n, 0) == 2 && Total(n) == 2 && DoneAfter(n, 1) == 3;
  }
}
