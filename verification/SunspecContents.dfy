/** What the contents of the models of a SunSpec device tell (sunspec_detector.cpp, sunspec_tools.cpp). */
module SunspecContents {
  import opened Bytes
  import opened Modbus
  import opened SunspecModel

  // ---- Numbers with a scale factor. ----

  /** A signed register: -0x8000 stands for no number. */
  function Signed(v: u16): int {
    if v < 0x8000 then v else v - 0x1_0000
  }

  lemma {:induction false} PowersOfTen(a: nat, b: nat)
    ensures Pow10(0) == 1.0 && Pow10(1) == 10.0 && Pow10(a + b) == Pow10(a) * Pow10(b)
  {
    if a > 0 {
      PowersOfTen(a - 1, b);
      Product(Pow10(a - 1), Pow10(b));
    }
  }

  lemma Product(x: real, y: real)
    ensures (10.0 * x) * y == 10.0 * (x * y)
  {
  }

  /** r is v times ten to the power of the signed register sf. */
  predicate IsScaled(r: real, v: real, sf: u16) {
    if Signed(sf) >= 0 then r == v * Pow10(Signed(sf)) else r * Pow10(-Signed(sf)) == v
  }

  /** A value is no number if its register is 0xFFFF or that of the scale 0x8000, and scaled otherwise. */
  lemma ScaledValue(v: u16, sf: u16)
    ensures var r := GetScaledValue(v, sf);
            if v == 0xFFFF || Signed(sf) == -0x8000 then r == None else r.Some? && IsScaled(r.value, v as real, sf)
  {
    if sf != 0x8000 && v != 0xFFFF {
      var s := GetScale(sf).value;
      if sf > 0x8000 {
        Inverse(v as real, Pow10(0x1_0000 - sf), s, GetScaledValue(v, sf).value);
      } else {
        assert s == Pow10(sf);
        Equal(v as real, s, Pow10(sf), GetScaledValue(v, sf).value);
      }
    }
  }

  lemma Equal(v: real, s: real, p: real, r: real)
    requires s == p && r == v * s
    ensures r == v * p
  {
  }

  lemma Inverse(v: real, p: real, s: real, r: real)
    requires p > 0.0 && s == 1.0 / p && r == v * s
    ensures r * p == v
  {
    assert s * p == 1.0;
    assert r * p == v * (s * p);
  }

  /** A hundred divided by a scale. */
  lemma ScaleOfLimit(sf: u16)
    ensures GetScale(sf) == None <==> Signed(sf) == -0x8000
    ensures GetScale(sf).Some? ==> IsScaled(GetScale(sf).value, 1.0, sf)
  {
    if sf > 0x8000 {
      Inverse(1.0, Pow10(0x1_0000 - sf), GetScale(sf).value, GetScale(sf).value);
    }
  }

  // ---- Nameplate and control models. ----

  /** What a register v and its scale factor sf say. */
  predicate IsValue(r: Option<real>, v: u16, sf: u16) {
    if v == 0xFFFF || Signed(sf) == -0x8000 then r == None else r.Some? && IsScaled(r.value, v as real, sf)
  }

  /** How many steps of a percentage with this scale factor make a whole. */
  predicate IsSteps(r: Option<real>, sf: u16) {
    if Signed(sf) == -0x8000 then r == None
    else if Signed(sf) >= 0 then r.Some? && r.value * Pow10(Signed(sf)) == 100.0
    else r.Some? && r.value == 100.0 * Pow10(-Signed(sf))
  }

  lemma StepsOf(sf: u16, r: Option<real>)
    requires r == match GetScale(sf) case None => None case Some(s) => Some(100.0 / s)
    ensures IsSteps(r, sf)
  {
    hide Pow10;
    if sf != 0x8000 {
      var s := GetScale(sf).value;
      Hundred(s, r.value);
      if sf > 0x8000 {
        var p := Pow10(0x1_0000 - sf);
        HundredInverse(p, s, r.value);
      } else {
        Equal(r.value, s, Pow10(sf), r.value * s);
      }
    }
  }

  lemma Hundred(s: real, r: real)
    requires s > 0.0 && r == 100.0 / s
    ensures r * s == 100.0
  {
  }

  lemma HundredInverse(p: real, s: real, r: real)
    requires p > 0.0 && s == 1.0 / p && r * s == 100.0
    ensures r == 100.0 * p
  {
    assert s * p == 1.0;
    assert (r * s) * p == r * (s * p);
  }

  /** The last model with this id whose body has at least n registers. */
  function LastLong(models: seq<Model>, id: u16, n: nat): (m: Option<Model>)
    ensures m.Some? ==> |m.value.body| >= n
  {
    if models == [] then None
    else
      match LastLong(models[1..], id, n)
      case Some(m) => Some(m)
      case None => if models[0].id == id && |models[0].body| >= n then Some(models[0]) else None
  }

  /**
   The contents: maximum power and storage capacity are those of the last nameplate model that has them, at 1 and 19
   of its body with their scales behind them; the scale of the limit is that of the last control model, at 21.
   */
  predicate Contents(d: DeviceInfo, di: DeviceInfo, models: seq<Model>) {
    && (match LastLong(models, 120, 3)
        case None => d.maxPower == di.maxPower
        case Some(m) => IsValue(d.maxPower, m.body[1], m.body[2]))
    && (match LastLong(models, 120, 21)
        case None => d.storageCapacity == di.storageCapacity
        case Some(m) => IsValue(d.storageCapacity, m.body[19], m.body[20]))
    && (match LastLong(models, 123, 22)
        case None => d.powerLimitScale == di.powerLimitScale
        case Some(m) => IsSteps(d.powerLimitScale, m.body[21]))
  }

  lemma {:induction false} ContentsAreLast(di: DeviceInfo, models: seq<Model>, at: nat)
    requires at + |Encode(models)| <= 0x1_0000
    ensures Contents(Describe(di, models, at), di, models)
    decreases |models|
  {
    hide IsValue, IsSteps, GetScale, GetScaledValue, Noted;
    if models != [] {
      var m := models[0];
      var mid := Noted(di, m, at);
      NotedContents(di, m, at);
      ContentsAreLast(mid, models[1..], at + 2 + |m.body|);
      ThenContents(Describe(di, models, at), mid, di, models);
    }
  }

  lemma {:induction false} ThenContents(d: DeviceInfo, mid: DeviceInfo, di: DeviceInfo, models: seq<Model>)
    requires models != [] && Contents(d, mid, models[1..]) && Contents(mid, di, [models[0]])
    ensures Contents(d, di, models)
  {
    hide IsValue, IsSteps, LastLong;
    LastOfMore(models, 120, 3);
    LastOfMore(models, 120, 21);
    LastOfMore(models, 123, 22);
  }

  lemma LastOfMore(models: seq<Model>, id: u16, n: nat)
    requires models != []
    ensures LastLong(models, id, n)
            == if LastLong(models[1..], id, n).Some? then LastLong(models[1..], id, n) else LastLong([models[0]], id, n)
  {
    LastOfOne(models[0], id, n);
  }

  lemma LastOfOne(m: Model, id: u16, n: nat)
    ensures LastLong([m], id, n) == if m.id == id && |m.body| >= n then Some(m) else None
  {
    assert [m][1..] == [];
  }

  lemma {:induction false} NotedContents(di: DeviceInfo, m: Model, at: u16)
    ensures Contents(Noted(di, m, at), di, [m])
  {
    hide IsSteps, IsValue, LastLong, NoteContent, Registers;
    LastOfOne(m, 120, 3);
    LastOfOne(m, 120, 21);
    LastOfOne(m, 123, 22);
    if m.id == 120 {
      NameplateSays(NoteHeader(di, m.id, at), m);
    } else if m.id == 123 {
      ControlsSay(NoteHeader(di, m.id, at), m);
    }
  }

  lemma NameplateSays(di: DeviceInfo, m: Model)
    requires m.id == 120
    ensures var d, b := NoteContent(di, Registers(m)), m.body;
            && d == di.(maxPower := d.maxPower, storageCapacity := d.storageCapacity)
            && (if |b| >= 3 then IsValue(d.maxPower, b[1], b[2]) else d.maxPower == di.maxPower)
            && (if |b| >= 21 then IsValue(d.storageCapacity, b[19], b[20]) else d.storageCapacity == di.storageCapacity)
  {
    hide GetScaledValue, IsScaled;
    var values, b := Registers(m), m.body;
    assert |values| == |b| + 2 && forall i | 0 <= i < |b| :: values[i + 2] == b[i];
    if |b| >= 3 { ScaledValue(b[1], b[2]); }
    if |b| >= 21 { ScaledValue(b[19], b[20]); }
  }

  lemma ControlsSay(di: DeviceInfo, m: Model)
    requires m.id == 123
    ensures var d, b := NoteContent(di, Registers(m)), m.body;
            && d == di.(powerLimitScale := d.powerLimitScale)
            && if |b| >= 22 then IsSteps(d.powerLimitScale, b[21]) else d.powerLimitScale == di.powerLimitScale
  {
    hide GetScale, IsSteps;
    var values, b := Registers(m), m.body;
    if |b| >= 22 {
      assert |values| == |b| + 2 && values[23] == b[21];
      StepsOf(b[21], match GetScale(b[21]) case None => None case Some(s) => Some(100.0 / s));
    }
  }

  // ---- Texts. ----

  /** Two characters per register, filled up with zeros. */
  function TextRegisters(s: string, n: nat): (regs: seq<u16>)
    requires forall c | c in s :: 0 < c as int < 0x100
    ensures |regs| == n
  {
    seq(n, i requires 0 <= i < n => 256 * CodeAt(s, 2 * i) + CodeAt(s, 2 * i + 1))
  }

  function CodeAt(s: string, i: nat): byte
    requires forall c | c in s :: 0 < c as int < 0x100
  {
    if i < |s| then s[i] as int % 0x100 else 0
  }

  lemma {:induction false} TextIsRead(s: string, n: nat)
    requires (forall c | c in s :: 0 < c as int < 0x100) && |s| <= 2 * n
    ensures GetString(TextRegisters(s, n)) == s
  {
    if n > 0 {
      var k := if |s| < 2 then |s| else 2;
      var regs, more := TextRegisters(s, n), s[k..];
      hide CharOf, Msb, Lsb, CodeAt;
      MoreText(s, n);
      TextIsRead(more, n - 1);
      FirstText(s);
      assert regs[0] == 256 * CodeAt(s, 0) + CodeAt(s, 1);
      assert s == s[..k] + more;
    }
  }

  lemma MoreText(s: string, n: nat)
    requires (forall c | c in s :: 0 < c as int < 0x100) && n > 0
    ensures var more := s[if |s| < 2 then |s| else 2..];
            && (forall c | c in more :: 0 < c as int < 0x100)
            && TextRegisters(s, n)[1..] == TextRegisters(more, n - 1)
  {
    var more := s[if |s| < 2 then |s| else 2..];
    assert forall c | c in more :: c in s;
    assert forall i: nat :: CodeAt(more, i) == CodeAt(s, i + 2);
  }

  lemma CharAt(s: string, i: nat)
    requires forall c | c in s :: 0 < c as int < 0x100
    ensures CharOf(CodeAt(s, i)) == if i < |s| then [s[i]] else ""
  {
    assert i < |s| ==> s[i] in s;
  }

  lemma TwoChars(a: byte, b: byte)
    ensures Msb(256 * a + b) == a && Lsb(256 * a + b) == b
  {
    hide Msb, Lsb;
    JoinSplit(0, a, b);
    JoinIs(a, b);
    hide ToUInt16;
  }

  lemma JoinIs(a: byte, b: byte)
    ensures ToUInt16(a, b) == 256 * a + b
  {
  }

  lemma FirstText(s: string)
    requires forall c | c in s :: 0 < c as int < 0x100
    ensures var v := 256 * CodeAt(s, 0) + CodeAt(s, 1);
            CharOf(Msb(v)) + CharOf(Lsb(v)) == s[..if |s| < 2 then |s| else 2]
  {
    hide CharOf, CodeAt, Msb, Lsb;
    TwoChars(CodeAt(s, 0), CodeAt(s, 1));
    CharAt(s, 0);
    CharAt(s, 1);
  }

  // ---- Replies that end the walk. ----

  lemma {:induction false} SunSIsExact(values: seq<u16>)
    requires |values| == 2
    ensures GetString(values) == "SunS" <==> values == [0x5375, 0x6E53]
  {
    var a, b, c, d := Msb(values[0]), Lsb(values[0]), Msb(values[1]), Lsb(values[1]);
    assert values[1..][0] == values[1] && values[1..][1..] == [];
    assert GetString(values[1..][1..]) == "";
    assert GetString(values[1..]) == CharOf(c) + CharOf(d) + "";
    assert GetString(values) == CharOf(a) + CharOf(b) + (CharOf(c) + CharOf(d) + "");
    JoinSplit(values[0], 0, 0);
    JoinSplit(values[1], 0, 0);
    FourChars(a, b, c, d);
    assert values == [values[0], values[1]];
    hide GetString, CharOf;
  }

  lemma FourChars(a: byte, b: byte, c: byte, d: byte)
    ensures CharOf(a) + CharOf(b) + (CharOf(c) + CharOf(d) + "") == "SunS" <==> a == 0x53 && b == 0x75 && c == 0x6E && d == 0x53
  {
    var s := CharOf(a) + CharOf(b) + (CharOf(c) + CharOf(d) + "");
    if s == "SunS" {
      assert |s| == 4;
      assert s[0] == a as char && s[1] == b as char && s[2] == c as char && s[3] == d as char;
    }
  }

  /** Only the two registers "SunS" let a walk go on from its start; the common model is then read behind them. */
  lemma {:induction false} WalkStarts(w: Walk, values: seq<u16>)
    requires w.state == SunSpecHeader
    ensures OnFinished(w, values) ==
            if values == [0x5375, 0x6E53] then
              w.(currentRegister := Wrap16(w.currentRegister as int + 2), state := ModuleContent,
                 requests := w.requests + [Request(Wrap16(w.currentRegister as int + 2), 66)])
            else w.(done := true)
  {
    if |values| == 2 {
      SunSIsExact(values);
    }
    hide GetString;
  }

  /** A reply without what was asked for ends the walk, without a device. */
  lemma {:induction false} EmptyReplyEnds(w: Walk, values: seq<u16>)
    requires w.state != SunSpecHeader && ((w.state == ModuleHeader && |values| < 2) || values == [])
    ensures OnFinished(w, values) == w.(done := true)
  {
  }

  // ---- The device that is found. ----

  /** The product that a manufacturer stands for. */
  predicate IsProduct(product: Product, manufacturer: string) {
    && (product == FroniusProduct <==> manufacturer == "Fronius")
    && (product == SmaProduct <==> manufacturer == "SMA")
    && (product == AbbProduct <==> manufacturer == "ABB")
    && product != UnknownProduct
  }

  /** A device that is found carries the texts of its common model, and what the contents say. */
  lemma {:induction false} FoundTellsContents(unit: byte, common: Model, models: seq<Model>)
    requires WellFormedMap(common, models) && unit > 0
    ensures var w := Walked(Connected(unit), At40000(DeviceMap(common, models)), 2 + RequestCount(models));
            w.Some? && (w.value.found.Some? ==>
              var d, b := w.value.found.value, common.body;
              && Contents(d, NewDevice(unit), models)
              && IsProduct(d.identity.product, GetString(b[..16]))
              && d.identity.productName == GetString(b[..16]) + " " + GetString(b[16..32])
              && d.identity.dataManagerVersion == (if GetString(b[..16]) == "Fronius" then GetString(b[32..40]) else "")
              && d.identity.firmwareVersion == GetString(b[40..48])
              && d.identity.serialNumber == GetString(b[48..64]))
  {
    hide Walked, Describe, LastAt, GetString, AllRequests, Contents, IsProduct;
    var w := MapIsWalked(unit, common, models);
    if w.found.Some? {
      var at := 40004 + |common.body|;
      var known := KnownDevice(unit, common);
      DescribeIsLast(known, models, at);
      ContentsAreLast(known, models, at);
      KnownIsNew(unit, common, models, Describe(known, models, at));
      IdentityTells(common);
    }
  }

  lemma KnownIsNew(unit: byte, common: Model, models: seq<Model>, d: DeviceInfo)
    requires |common.body| >= 64 && Contents(d, KnownDevice(unit, common), models)
    ensures Contents(d, NewDevice(unit), models)
  {
  }

  lemma IdentityTells(common: Model)
    requires |common.body| >= 64
    ensures var i, b := IdentityOf(Registers(common)[..66], NewDevice(0).identity), common.body;
            && IsProduct(i.product, GetString(b[..16]))
            && i.productName == GetString(b[..16]) + " " + GetString(b[16..32])
            && i.dataManagerVersion == (if GetString(b[..16]) == "Fronius" then GetString(b[32..40]) else "")
            && i.firmwareVersion == GetString(b[40..48]) && i.serialNumber == GetString(b[48..64])
  {
    hide GetString;
    Part(common, 2, 18);
    Part(common, 18, 34);
    Part(common, 34, 42);
    Part(common, 42, 50);
    Part(common, 50, 66);
  }

  lemma Part(common: Model, i: nat, j: nat)
    requires |common.body| >= 64 && 2 <= i <= j <= 66
    ensures Registers(common)[..66][i..j] == common.body[i - 2..j - 2]
  {
    var values := Registers(common);
    assert values[..66][i..j] == values[i..j];
    assert values[2..] == common.body;
    assert values[i..j] == values[2..][i - 2..j - 2];
  }
}
