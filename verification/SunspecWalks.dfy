/** When the walk through the models of a device ends, for any device (sunspec_detector.cpp). */
module SunspecWalks {
  import opened Bytes
  import opened Modbus
  import opened SunspecModel

  /** The walk is done, or has looked for a length that was not sent. */
  predicate Ended(o: Option<Walk>) {
    o.None? || o.value.done
  }

  // ---- The chain of headers. ----

  /** Where the walk reads the first header of a model behind the common one, if it comes so far. */
  function FirstHeader(d: Device): Option<u16> {
    var s := Answer(d, Request(40000, 2));
    var c := Answer(d, Request(40002, 66));
    if |s| != 2 || GetString(s) != "SunS" || c == [] then None
    else if c[0] == 1 && ProductOf(ManufacturerOf(c)) == SmaProduct then None
    else Some(Wrap16(40004 + c[1] as int))
  }

  /** Where the header behind the one at register p is, modulo 65536, unless the walk ends here. */
  function NextHeader(d: Device, p: u16): Option<u16> {
    var h := Answer(d, Request(p, 2));
    if |h| < 2 || h[0] == 0xFFFF then None
    else if HasContent(h[0]) && |Answer(d, Request(p, Wrap16(h[1] as int + 2)))| < 2 then None
    else Some(Wrap16(p as int + 2 + h[1]))
  }

  /** Where the n-th header from register p on is, if there is one. */
  function Chain(d: Device, p: u16, n: nat): Option<u16> {
    if n == 0 then Some(p)
    else
      match Chain(d, p, n - 1)
      case None => None
      case Some(q) => NextHeader(d, q)
  }

  /** There is always another header. */
  ghost predicate Endless(d: Device, p: u16) {
    forall n: nat :: Chain(d, p, n).Some?
  }

  /** A header position is reached twice. */
  ghost predicate Repeats(d: Device, p: u16) {
    exists i: nat, j: nat :: i < j && Chain(d, p, i).Some? && Chain(d, p, i) == Chain(d, p, j)
  }

  lemma {:induction false} ChainFrom(d: Device, p: u16, m: nat, n: nat)
    requires Chain(d, p, m).Some?
    ensures Chain(d, p, m + n) == Chain(d, Chain(d, p, m).value, n)
    decreases n
  {
    hide NextHeader;
    if n > 0 {
      ChainFrom(d, p, m, n - 1);
    }
  }

  lemma {:induction false} NoneStays(d: Device, p: u16, m: nat, n: nat)
    requires Chain(d, p, m).None? && m <= n
    ensures Chain(d, p, n).None?
    decreases n
  {
    hide NextHeader;
    if m < n {
      NoneStays(d, p, m, n - 1);
    }
  }

  /** What is reached twice is reached again and again. */
  lemma {:induction false} RoundAndRound(d: Device, p: u16, i: nat, j: nat, times: nat)
    requires i < j && Chain(d, p, i).Some? && Chain(d, p, i) == Chain(d, p, j)
    ensures Chain(d, p, i + times * (j - i)) == Chain(d, p, i)
    decreases times
  {
    hide Chain;
    if times > 0 {
      RoundAndRound(d, p, i, j, times - 1);
      var m := i + (times - 1) * (j - i);
      assert i + times * (j - i) == m + (j - i);
      ChainFrom(d, p, m, j - i);
      ChainFrom(d, p, i, j - i);
    }
  }

  // ---- There are no more than 65536 positions. ----

  function Positions(d: Device, p: u16, n: nat): set<int>
    requires forall i | 0 <= i < n :: Chain(d, p, i).Some?
  {
    if n == 0 then {} else Positions(d, p, n - 1) + {Chain(d, p, n - 1).value as int}
  }

  /** One of the first n positions is x. */
  ghost predicate ComesTo(d: Device, p: u16, n: nat, x: int)
    requires forall i | 0 <= i < n :: Chain(d, p, i).Some?
  {
    exists i | 0 <= i < n :: Chain(d, p, i).value == x
  }

  lemma {:induction false} ComesToStep(d: Device, p: u16, n: nat, x: int)
    requires n > 0 && forall i | 0 <= i < n :: Chain(d, p, i).Some?
    ensures ComesTo(d, p, n, x) <==> ComesTo(d, p, n - 1, x) || Chain(d, p, n - 1).value == x
  {
    hide NextHeader;
    if ComesTo(d, p, n - 1, x) {
      var i :| 0 <= i < n - 1 && Chain(d, p, i).value == x;
      assert 0 <= i < n && Chain(d, p, i).value == x;
    }
  }

  lemma {:induction false} InPositions(d: Device, p: u16, n: nat, x: int)
    requires forall i | 0 <= i < n :: Chain(d, p, i).Some?
    ensures x in Positions(d, p, n) <==> ComesTo(d, p, n, x)
  {
    hide NextHeader, ComesTo;
    if n > 0 {
      InPositions(d, p, n - 1, x);
      ComesToStep(d, p, n, x);
    } else {
      assert !ComesTo(d, p, 0, x) by { NoPosition(d, p, x); }
    }
  }

  lemma NoPosition(d: Device, p: u16, x: int)
    ensures !ComesTo(d, p, 0, x)
  {
  }

  lemma {:induction false} AsManyPositions(d: Device, p: u16, n: nat)
    requires (forall i | 0 <= i < n :: Chain(d, p, i).Some?) && !Repeats(d, p)
    ensures |Positions(d, p, n)| == n
  {
    hide NextHeader;
    if n > 0 {
      AsManyPositions(d, p, n - 1);
      InPositions(d, p, n - 1, Chain(d, p, n - 1).value);
      forall i: nat | i < n - 1 ensures Chain(d, p, i).value != Chain(d, p, n - 1).value {
        Differ(d, p, i, n - 1);
      }
    }
  }

  lemma Differ(d: Device, p: u16, i: nat, j: nat)
    requires !Repeats(d, p) && i < j && Chain(d, p, i).Some? && Chain(d, p, j).Some?
    ensures Chain(d, p, i).value != Chain(d, p, j).value
  {
    hide Chain;
  }

  lemma {:induction false} AtMost(s: set<int>, n: nat)
    requires forall x | x in s :: 0 <= x < n
    ensures |s| <= n
  {
    if n == 0 {
      assert forall x :: x !in s;
      assert s == {};
    } else {
      AtMost(s - {n - 1}, n - 1);
    }
  }

  lemma Product(n: nat, k: nat)
    requires k >= 1
    ensures n * k >= n
  {
  }

  /** The chain has no end if and only if it comes to a position twice. */
  lemma {:induction false} EndlessChain(d: Device, p: u16)
    ensures Endless(d, p) <==> Repeats(d, p)
  {
    hide Repeats;
    if Repeats(d, p) {
      forall n: nat ensures Chain(d, p, n).Some? {
        RepeatsForEver(d, p, n);
      }
    }
    if Endless(d, p) {
      TooMany(d, p);
    }
  }

  lemma {:induction false} RepeatsForEver(d: Device, p: u16, n: nat)
    requires Repeats(d, p)
    ensures Chain(d, p, n).Some?
  {
    hide Chain;
    var i: nat, j: nat :| i < j && Chain(d, p, i).Some? && Chain(d, p, i) == Chain(d, p, j);
    RoundAndRound(d, p, i, j, n);
    Product(n, j - i);
    if Chain(d, p, n).None? {
      NoneStays(d, p, n, i + n * (j - i));
    }
  }

  lemma {:induction false} TooMany(d: Device, p: u16)
    requires Endless(d, p)
    ensures Repeats(d, p)
  {
    hide Repeats, NextHeader;
    if !Repeats(d, p) {
      AsManyPositions(d, p, 0x1_0001);
      forall x | x in Positions(d, p, 0x1_0001) ensures 0 <= x < 0x1_0000 {
        InPositions(d, p, 0x1_0001, x);
      }
      AtMost(Positions(d, p, 0x1_0001), 0x1_0000);
    }
  }

  // ---- The walk follows the chain. ----

  /** The walk has asked for the header at register p. */
  predicate AtHeader(w: Walk, p: u16) {
    w.state == ModuleHeader && !w.done && w.currentRegister == p && w.requests != [] && Pending(w) == Request(p, 2)
  }

  lemma {:induction false} WalkedFrom(w: Walk, d: Device, m: nat, n: nat)
    requires w.requests != [] && Walked(w, d, m).Some? && Walked(w, d, m).value.requests != []
    ensures Walked(w, d, m + n) == Walked(Walked(w, d, m).value, d, n)
    decreases m
  {
    hide OnFinished, Answer;
    if m > 0 && !w.done {
      var values := Answer(d, Pending(w));
      KeepsAsking(w, values);
      WalkedFrom(OnFinished(w, values), d, m - 1, n);
    }
  }

  /** What is read again is what was read: the model id and its length. */
  lemma ReadAgain(d: Device, p: u16, n: u16)
    requires n >= 2 && |Answer(d, Request(p, n))| >= 2
    ensures Answer(d, Request(p, 2)) == Answer(d, Request(p, n))[..2]
  {
  }

  /** One round: after one reply or two the walk asks for the next header, or it has ended. */
  lemma {:induction false} Round(w: Walk, d: Device, p: u16) returns (m: nat)
    requires AtHeader(w, p)
    ensures 1 <= m <= 2 && (m == 2 ==> !Ended(Walked(w, d, 1)))
    ensures match NextHeader(d, p)
            case None => Ended(Walked(w, d, m))
            case Some(q) => Walked(w, d, m).Some? && AtHeader(Walked(w, d, m).value, q)
  {
    hide NoteHeader, NoteContent, IdentityOf, Answer, ProductOf, ManufacturerOf;
    var h := Answer(d, Pending(w));
    var v := OnFinished(w, h);
    m := 1;
    WalkedOnce(w, d, 1);
    if |h| >= 2 && HasContent(h[0]) {
      m := 2;
      WalkedOnce(w, d, 2);
      var r := Request(p, Wrap16(h[1] as int + 2));
      assert Pending(v) == r;
      var c := Answer(d, r);
      if |c| >= 2 {
        ReadAgain(d, p, r.count);
        assert c[0] == h[0] && c[1] == h[1];
        WalkedOnce(v, d, 1);
      }
    }
  }

  lemma {:induction false} WalkEnds(w: Walk, d: Device, p: u16, n: nat) returns (m: nat)
    requires AtHeader(w, p) && Chain(d, p, n).None?
    ensures Ended(Walked(w, d, m))
    decreases n
  {
    hide Walked, NextHeader;
    m := Round(w, d, p);
    if NextHeader(d, p).Some? {
      var v := Walked(w, d, m).value;
      ChainFrom(d, p, 1, n - 1);
      assert Chain(d, p, 1) == NextHeader(d, p) by { ChainOne(d, p); }
      var k := WalkEnds(v, d, NextHeader(d, p).value, n - 1);
      WalkedFrom(w, d, m, k);
      m := m + k;
    }
  }

  lemma ChainOne(d: Device, p: u16)
    ensures Chain(d, p, 1) == NextHeader(d, p)
  {
    assert Chain(d, p, 0) == Some(p);
  }

  lemma {:induction false} WalkGoesOn(w: Walk, d: Device, p: u16, n: nat)
    requires AtHeader(w, p) && Endless(d, p)
    ensures !Ended(Walked(w, d, n))
    decreases n
  {
    hide NextHeader, OnFinished, Answer;
    if n > 0 {
      var m := Round(w, d, p);
      ChainOne(d, p);
      var q := Chain(d, p, 1).value;
      if n >= m {
        forall k: nat ensures Chain(d, q, k).Some? {
          ChainFrom(d, p, 1, k);
        }
        WalkGoesOn(Walked(w, d, m).value, d, q, n - m);
        WalkedFrom(w, d, m, n - m);
      }
    }
  }

  /** The first two replies lead to the first header, or the walk has ended. */
  lemma {:induction false} ToFirstHeader(unit: byte, d: Device)
    ensures var w := Connected(unit);
            match FirstHeader(d)
            case None => Ended(Walked(w, d, 2))
            case Some(p) => !Ended(Walked(w, d, 1)) && Walked(w, d, 2).Some? && AtHeader(Walked(w, d, 2).value, p)
  {
    hide Answer, IdentityOf, NoteContent, ManufacturerOf, ProductOf, GetString;
    var a := Connected(unit);
    WalkedOnce(a, d, 1);
    WalkedOnce(a, d, 2);
    var b := OnFinished(a, Answer(d, Pending(a)));
    if !b.done {
      assert Pending(b) == Request(40002, 66);
      WalkedOnce(b, d, 1);
    } else {
      WalkedDone(b, d, 1);
    }
  }

  /** The walk is not done after any number of replies. */
  ghost predicate NeverEnds(unit: byte, d: Device) {
    forall n: nat :: !Ended(Walked(Connected(unit), d, n))
  }

  /**
   For every device: the walk never ends if and only if it comes to a first header, and the chain of lengths
   from there on leads to some header position, modulo 65536, twice.
   */
  lemma {:induction false} WalkIsEndless(unit: byte, d: Device)
    ensures NeverEnds(unit, d)
            <==> FirstHeader(d).Some? && Repeats(d, FirstHeader(d).value)
  {
    hide FirstHeader, NextHeader, Repeats, Ended, OnFinished, Answer;
    var w := Connected(unit);
    ToFirstHeader(unit, d);
    if FirstHeader(d).Some? {
      var p := FirstHeader(d).value;
      var v := Walked(w, d, 2).value;
      EndlessChain(d, p);
      if Repeats(d, p) {
        forall n: nat ensures !Ended(Walked(w, d, n)) {
          if n >= 2 {
            WalkGoesOn(v, d, p, n - 2);
            WalkedFrom(w, d, 2, n - 2);
          } else {
            NotYet(unit, d);
          }
        }
      } else {
        var n: nat :| Chain(d, p, n).None?;
        var m := WalkEnds(v, d, p, n);
        WalkedFrom(w, d, 2, m);
        assert Ended(Walked(w, d, 2 + m));
      }
    }
  }

  lemma NotYet(unit: byte, d: Device)
    ensures !Ended(Walked(Connected(unit), d, 0))
  {
  }

  // ---- Such devices. ----

  /** A plain model: no end, and nothing to read but its header. */
  predicate Plain(d: Device, p: u16, length: u16) {
    var h := Answer(d, Request(p, 2));
    |h| == 2 && h[0] != 0xFFFF && !HasContent(h[0]) && h[1] == length
  }

  /** A model of length 0xFFFE leads back to itself, so the walk is not done after any number of replies. */
  lemma {:induction false} LengthWrapsAround(unit: byte, d: Device)
    requires FirstHeader(d).Some? && Plain(d, FirstHeader(d).value, 0xFFFE)
    ensures NeverEnds(unit, d)
  {
    hide FirstHeader, Answer, NeverEnds;
    var p := FirstHeader(d).value;
    ChainOne(d, p);
    assert Chain(d, p, 0) == Some(p) == Chain(d, p, 1);
    WalkIsEndless(unit, d);
  }

  /** So do two models of length 32766, one behind the other. */
  lemma {:induction false} TwoHalvesWrapAround(unit: byte, d: Device)
    requires FirstHeader(d).Some?
    requires var p := FirstHeader(d).value; Plain(d, p, 32766) && Plain(d, Wrap16(p as int + 32768), 32766)
    ensures NeverEnds(unit, d)
  {
    hide FirstHeader, Answer, NeverEnds;
    var p := FirstHeader(d).value;
    ChainOne(d, p);
    ChainFrom(d, p, 1, 1);
    ChainOne(d, Wrap16(p as int + 32768));
    assert Chain(d, p, 0) == Some(p) == Chain(d, p, 2);
    WalkIsEndless(unit, d);
  }
}
