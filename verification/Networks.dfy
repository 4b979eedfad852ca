/** Which addresses the networks of this host are made of (local_ip_address_generator.cpp). */
module Networks {
  import opened Addresses
  import opened Numbers

  function Pow2(n: nat): (p: nat)
    ensures p > 0
  {
    if n == 0 then 1 else 2 * Pow2(n - 1)
  }

  /** The mask of a network with n host bits. */
  function PrefixMask(n: nat): int {
    0x1_0000_0000 - Pow2(n)
  }

  // ---- Masks, bit by bit. ----

  function Bit(a: nat, k: nat): bool {
    if k == 0 then a % 2 == 1 else Bit(a / 2, k - 1)
  }

  lemma {:induction false} NoBits(k: nat)
    ensures !Bit(0, k)
  {
    if k > 0 {
      NoBits(k - 1);
    }
  }

  lemma {:induction false} AndBits(a: nat, b: nat, k: nat)
    ensures Bit(And(a, b), k) <==> Bit(a, k) && Bit(b, k)
  {
    NoBits(k);
    if a != 0 && b != 0 && k > 0 {
      AndBits(a / 2, b / 2, k - 1);
      assert And(a, b) / 2 == And(a / 2, b / 2);
    }
  }

  lemma {:induction false} OrBits(a: nat, b: nat, k: nat)
    ensures Bit(Or(a, b), k) <==> Bit(a, k) || Bit(b, k)
  {
    NoBits(k);
    if a != 0 && k > 0 {
      OrBits(a / 2, b / 2, k - 1);
      assert Or(a, b) / 2 == Or(a / 2, b / 2);
    }
  }

  // ---- Masks of a prefix. ----

  lemma {:induction false} OnesArePow2(n: nat)
    ensures Ones(n) == Pow2(n) - 1
  {
    if n > 0 {
      OnesArePow2(n - 1);
    }
  }

  lemma {:induction false} OnesGrow(n: nat, width: nat)
    requires n <= width
    ensures Ones(n) <= Ones(width)
    decreases width
  {
    if 0 < n {
      OnesGrow(n - 1, width - 1);
    }
  }

  /** A quotient and a remainder are the only ones. */
  lemma DivModIs(a: nat, p: nat, q: nat, r: nat)
    requires r < p && a == p * q + r
    ensures a / p == q && a % p == r
  {
    if a / p < q {
      Times(p, a / p + 1, q);
    } else if a / p > q {
      Times(p, q + 1, a / p);
    }
  }

  lemma Times(p: nat, x: nat, y: nat)
    requires x <= y
    ensures p * x <= p * y
  {
  }

  /** The lowest bit and the others. */
  lemma HalfMod(h: nat, p: nat)
    requires p > 0
    ensures h % (2 * p) == 2 * (h / 2 % p) + h % 2 && h / (2 * p) == h / 2 / p
  {
    var q, r := h / 2 / p, h / 2 % p;
    assert h / 2 == p * q + r;
    assert h == (2 * p) * q + (2 * r + h % 2);
    DivModIs(h, 2 * p, q, 2 * r + h % 2);
  }

  lemma AndEven(h: nat, m: nat)
    ensures And(h, 2 * m) == 2 * And(h / 2, m)
  {
    assert 2 * m / 2 == m && 2 * m % 2 == 0;
    if h == 0 || m == 0 {
      assert And(h, 2 * m) == 0 && And(h / 2, m) == 0;
    }
  }

  lemma OrEven(a: nat, b: nat)
    ensures Or(2 * a, 2 * b) == 2 * Or(a, b)
  {
  }

  lemma OnesStep(n: nat, width: nat)
    requires 0 < n <= width
    ensures Ones(n - 1) <= Ones(width - 1) && Ones(width) - Ones(n) == 2 * (Ones(width - 1) - Ones(n - 1))
  {
    OnesGrow(n - 1, width - 1);
  }

  lemma {:induction false} AndPrefix(h: nat, n: nat, width: nat)
    requires n <= width && h <= Ones(width)
    ensures Ones(n) <= Ones(width) && And(h, Ones(width) - Ones(n)) == h - h % Pow2(n)
    decreases width
  {
    hide And, Ones, Pow2;
    OnesGrow(n, width);
    PowersStep(n);
    if n == 0 {
      AndAll(h, width);
    } else {
      OnesStep(n, width);
      OnesHalf(h, width);
      AndPrefix(h / 2, n - 1, width - 1);
      AndEven(h, Ones(width - 1) - Ones(n - 1));
      HalfMod(h, Pow2(n - 1));
    }
  }

  lemma PowersStep(n: nat)
    ensures if n == 0 then Pow2(n) == 1 && Ones(n) == 0 else Pow2(n) == 2 * Pow2(n - 1)
  {
  }

  lemma OnesHalf(h: nat, width: nat)
    requires 0 < width && h <= Ones(width)
    ensures h / 2 <= Ones(width - 1)
  {
  }

  lemma {:induction false} OnesInjective(n: nat, m: nat)
    requires Ones(n) == Ones(m)
    ensures n == m
  {
    if n > 0 && m > 0 {
      OnesInjective(n - 1, m - 1);
    }
  }

  lemma {:induction false} OrPrefix(m: nat, n: nat, width: nat)
    requires m <= width && n <= width
    ensures Ones(m) <= Ones(width) && Ones(n) <= Ones(width)
    ensures Or(Ones(width) - Ones(m), Ones(width) - Ones(n)) == Ones(width) - Ones(Min(m, n))
    decreases width
  {
    hide Or, Ones;
    OnesGrow(m, width);
    OnesGrow(n, width);
    PowersStep(0);
    if m > 0 && n > 0 {
      OnesStep(m, width);
      OnesStep(n, width);
      OrPrefix(m - 1, n - 1, width - 1);
      OrEven(Ones(width - 1) - Ones(m - 1), Ones(width - 1) - Ones(n - 1));
      OnesStep(Min(m, n), width);
    } else {
      OrAll(Ones(width) - Ones(m), Ones(width) - Ones(n), width);
    }
  }

  /** Nothing is added to all bits. */
  lemma {:induction false} OrAll(a: nat, b: nat, width: nat)
    requires a <= Ones(width) && b <= Ones(width) && (a == Ones(width) || b == Ones(width))
    ensures Or(a, b) == Ones(width)
  {
    if a != 0 && width > 0 {
      OrAll(a / 2, b / 2, width - 1);
    }
  }

  /** The mask of n host bits, as a difference of masks. */
  lemma PrefixMaskIs(n: nat)
    requires n <= 32
    ensures 0 <= PrefixMask(n) <= MAX_U32 && Ones(n) <= Ones(32) == MAX_U32 && PrefixMask(n) == Ones(32) - Ones(n)
  {
    hide Ones;
    OnesOf32();
    OnesGrow(n, 32);
    OnesArePow2(n);
  }

  lemma LinkLocalIs(a: u32)
    ensures IsLinkLocal(a) <==> a / 0x1_0000 == 0xA9FE
  {
    hide And, Ones;
    PrefixMaskIs(16);
    assert Pow2(16) == 0x1_0000 by { Pow2Of16(); }
    AndPrefix(a, 16, 32);
  }

  lemma Pow2Of16()
    ensures Pow2(16) == 0x1_0000
  {
    assert Pow2(8) == 0x100;
  }

  // ---- Networks. ----

  /** An address of the network of e, but neither its first nor its last one; p is the number of its addresses. */
  predicate IsInside(h: u32, e: Entry, p: nat)
    requires e.ip.IPv4? && p > 0
  {
    h / p == e.ip.a / p && 0 < h % p < p - 1
  }

  lemma {:induction false} RangeOf(e: Entry, m: nat, n: nat)
    requires UsableEntry(e) && e.ip.a / 0x1_0000 != 0xA9FE && m <= 32 && n <= 32 && e.netmask == PrefixMask(m)
    ensures 0 <= PrefixMask(n) <= MAX_U32
    ensures var a, p := e.ip.a, Pow2(Min(m, n));
            FirstOf(e, PrefixMask(n)) == a - a % p && LastOf(e, PrefixMask(n)) == a - a % p + p - 2
  {
    hide And, Or, Ones, IsLinkLocal, Pow2, PrefixMask;
    PrefixMaskIs(m);
    PrefixMaskIs(n);
    PrefixMaskIs(Min(m, n));
    LinkLocalIs(e.ip.a);
    OrPrefix(m, n, 32);
    AndPrefix(e.ip.a, Min(m, n), 32);
    LastBounds(e, PrefixMask(n));
    OnesArePow2(Min(m, n));
  }

  /**
   Of a network with m host bits, when at most n are scanned, exactly the addresses inside that are neither
   the host nor an exception.
   */
  lemma {:induction false} PrefixNetwork(e: Entry, m: nat, n: nat, exceptions: set<HostAddress>, h: HostAddress)
    requires UsableEntry(e) && e.ip.a / 0x1_0000 != 0xA9FE && m <= 32 && n <= 32 && e.netmask == PrefixMask(m)
    ensures 0 <= PrefixMask(n) <= MAX_U32
    ensures h in NetworkHosts([e], PrefixMask(n), exceptions)
            <==> h.IPv4? && h !in exceptions && h != e.ip && IsInside(h.a, e, Pow2(Min(m, n)))
  {
    hide FirstOf, LastOf, NetworkHosts, Pow2, PrefixMask, IsInside;
    RangeOf(e, m, n);
    NetworkHostsExact([e], PrefixMask(n), exceptions, h);
    if h.IPv4? {
      Inside(h.a, e, Pow2(Min(m, n)));
      assert (exists f | f in [e] :: FirstOf(f, PrefixMask(n)) < h.a <= LastOf(f, PrefixMask(n)) && h != f.ip) <==>
             (FirstOf(e, PrefixMask(n)) < h.a <= LastOf(e, PrefixMask(n)) && h != e.ip);
    }
  }

  /** The addresses strictly between the first and the last one of a network of p. */
  lemma Inside(h: u32, e: Entry, p: nat)
    requires e.ip.IPv4? && p > 0
    ensures var first := e.ip.a - e.ip.a % p; first < h <= first + p - 2 <==> IsInside(h, e, p)
  {
    var a := e.ip.a;
    InSameBlock(h, a, p, h / p, h % p, a / p, a % p);
  }

  lemma InSameBlock(h: nat, a: nat, p: nat, q: nat, r: nat, s: nat, u: nat)
    requires p > 0 && h == p * q + r && a == p * s + u && r < p && u < p
    ensures a - u < h <= a - u + p - 2 <==> q == s && 0 < r < p - 1
  {
    if q < s {
      Times(p, q + 1, s);
    } else if q > s {
      Times(p, s + 1, q);
    }
  }

  // ---- Interfaces. ----

  /** The interface is in use, and e is an IPv4 entry of it that is not one of three special addresses. */
  predicate GivesNetwork(i: Interface, e: Entry) {
    && i.isUp && i.isRunning && !i.isLoopBack && e in i.entries
    && e.ip.IPv4? && e.ip.a !in {0x7F00_0001, 0xFFFF_FFFF, 0}
  }

  /** The entries that give a network are these, and no others. */
  lemma {:induction false} EntriesExact(interfaces: seq<Interface>, e: Entry)
    ensures e in EntriesOf(interfaces) <==> exists i | i in interfaces :: GivesNetwork(i, e)
  {
    if interfaces != [] {
      var i := interfaces[0];
      UsableExact(i.entries, e);
      EntriesExact(interfaces[1..], e);
      assert forall j :: j in interfaces <==> j == i || j in interfaces[1..];
      assert UsableInterface(i) && UsableEntry(e) && e in i.entries <==> GivesNetwork(i, e);
    }
  }

  lemma {:induction false} UsableExact(entries: seq<Entry>, e: Entry)
    ensures e in UsableEntries(entries) <==> e in entries && UsableEntry(e)
  {
    if entries != [] {
      UsableExact(entries[1..], e);
    }
  }
}
