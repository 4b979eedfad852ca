/** The walk of SunspecDetector (sunspec_detector.cpp, sunspec_tools.cpp) through the models of a device. */
module SunspecModel {
  import opened Bytes
  import opened Modbus

  // ---- Values in registers. ----

  /** getString: two characters per register, without the zeros. */
  function GetString(values: seq<u16>): string {
    if values == [] then ""
    else CharOf(Msb(values[0])) + CharOf(Lsb(values[0])) + GetString(values[1..])
  }

  function CharOf(b: byte): string {
    if b == 0 then "" else [b as char]
  }

  function Pow10(n: nat): (r: real)
    ensures r > 0.0
  {
    if n == 0 then 1.0 else 10.0 * Pow10(n - 1)
  }

  /** getScale: a power of ten with a signed exponent; 0x8000 stands for no number. */
  function GetScale(v: u16): (r: Option<real>)
    ensures r.Some? ==> r.value > 0.0
  {
    if v == 0x8000 then None
    else if v < 0x8000 then Some(Pow10(v))
    else Some(1.0 / Pow10(0x1_0000 - v))
  }

  /** getScaledValue for one unsigned register. */
  function GetScaledValue(v: u16, scale: u16): Option<real> {
    match GetScale(scale)
    case None => None
    case Some(s) => if v == 0xFFFF then None else Some(v as real * s)
  }

  // ---- What is found out about a device. ----

  datatype RetrievalMode = NoProtocol | ProtocolSunSpecIntSf | ProtocolSunSpecFloat

  datatype Product = UnknownProduct | FroniusProduct | SmaProduct | AbbProduct | SunSpecProduct

  /** What the common model tells. */
  datatype Identity = Identity(
    product: Product, productName: string, dataManagerVersion: string, firmwareVersion: string, serialNumber: string)

  datatype DeviceInfo = DeviceInfo(
    networkId: byte,
    identity: Identity,
    retrievalMode: RetrievalMode,
    phaseCount: nat,
    inverterModelOffset: u16,
    namePlateModelOffset: u16,
    immediateControlOffset: u16,
    maxPower: Option<real>,
    storageCapacity: Option<real>,
    powerLimitScale: Option<real>)

  function NewDevice(unit: byte): DeviceInfo {
    DeviceInfo(unit, Identity(UnknownProduct, "", "", "", ""), NoProtocol, 0, 0, 0, 0, Some(0.0), Some(0.0), Some(0.0))
  }

  // ---- The walk. ----

  datatype WalkState = SunSpecHeader | ModuleHeader | ModuleContent

  datatype Request = Request(start: u16, count: u16)

  /** While done is false, the last of the requests is outstanding. */
  datatype Walk = Walk(
    state: WalkState, currentRegister: u16, di: DeviceInfo, requests: seq<Request>, done: bool, found: Option<DeviceInfo>)

  function StartNextRequest(w: Walk, count: u16): Walk {
    w.(requests := w.requests + [Request(w.currentRegister, count)])
  }

  function SetDone(w: Walk): Walk {
    w.(done := true)
  }

  function Connected(unit: byte): Walk {
    StartNextRequest(Walk(SunSpecHeader, 40000, NewDevice(unit), [], false, None), 2)
  }

  predicate IsInverter(id: u16) {
    id in {101, 102, 103, 111, 112, 113}
  }

  function ManufacturerOf(values: seq<u16>): string
    requires |values| >= 66
  {
    GetString(values[2..18])
  }

  function ProductOf(manufacturer: string): Product {
    if manufacturer == "Fronius" then FroniusProduct
    else if manufacturer == "SMA" then SmaProduct
    else if manufacturer == "ABB" then AbbProduct
    else SunSpecProduct
  }

  /** What the common model, of which 66 registers are read, says about the device. */
  function IdentityOf(values: seq<u16>, was: Identity): Identity
    requires |values| >= 66
  {
    var manufacturer := ManufacturerOf(values);
    var product := ProductOf(manufacturer);
    Identity(product,
             manufacturer + " " + GetString(values[18..34]),
             if product == FroniusProduct then GetString(values[34..42]) else was.dataManagerVersion,
             GetString(values[42..50]),
             GetString(values[50..66]))
  }

  /** ModuleHeader for a model id other than 0xFFFF: what is noted down. */
  function NoteHeader(di: DeviceInfo, id: u16, at: u16): DeviceInfo {
    if IsInverter(id) then
      di.(retrievalMode := if id > 103 then ProtocolSunSpecFloat else ProtocolSunSpecIntSf,
          phaseCount := id % 10, inverterModelOffset := at)
    else if id == 120 then di.(namePlateModelOffset := at)
    else if id == 123 then di.(immediateControlOffset := at)
    else di
  }

  /** ModuleContent for models 120 and 123. */
  function NoteContent(di: DeviceInfo, values: seq<u16>): DeviceInfo
    requires |values| >= 2
  {
    if values[0] == 120 then
      di.(maxPower := if |values| > 4 then GetScaledValue(values[3], values[4]) else di.maxPower,
          storageCapacity := if |values| > 22 then GetScaledValue(values[21], values[22]) else di.storageCapacity)
    else if values[0] == 123 && |values| > 23 then
      di.(powerLimitScale := match GetScale(values[23]) case None => None case Some(s) => Some(100.0 / s))
    else di
  }

  predicate HasContent(id: u16) {
    id == 120 || id == 123
  }

  function OnHeader(w: Walk, values: seq<u16>): Walk {
    if |values| < 2 then SetDone(w)
    else if values[0] == 0xFFFF then
      if w.di.identity.productName != "" && w.di.phaseCount > 0 && w.di.networkId > 0
      then SetDone(w.(found := Some(w.di)))
      else SetDone(w)
    else
      var v := w.(di := NoteHeader(w.di, values[0], w.currentRegister));
      if HasContent(values[0]) then StartNextRequest(v.(state := ModuleContent), Wrap16(values[1] as int + 2))
      else StartNextRequest(v.(currentRegister := Wrap16(w.currentRegister as int + 2 + values[1])), 2)
  }

  function OnContent(w: Walk, values: seq<u16>): Walk
    requires |values| != 1
  {
    if |values| < 1 then SetDone(w)
    else if values[0] == 1 && |values| == 66 && ProductOf(ManufacturerOf(values)) == SmaProduct then
      SetDone(w.(state := ModuleHeader, di := w.di.(identity := w.di.identity.(product := SmaProduct))))
    else
      var di := if values[0] == 1 && |values| == 66 then w.di.(identity := IdentityOf(values, w.di.identity))
                else NoteContent(w.di, values);
      StartNextRequest(w.(state := ModuleHeader, di := di, currentRegister := Wrap16(w.currentRegister as int + 2 + values[1])), 2)
  }

  /** onFinished: the reply to the outstanding request has arrived. */
  function OnFinished(w: Walk, values: seq<u16>): Walk
    requires w.state == ModuleContent ==> |values| != 1
  {
    match w.state
    case SunSpecHeader =>
      if |values| == 2 && GetString(values) == "SunS" then
        StartNextRequest(w.(currentRegister := Wrap16(w.currentRegister as int + 2), state := ModuleContent), 66)
      else SetDone(w)
    case ModuleHeader => OnHeader(w, values)
    case ModuleContent => OnContent(w, values)
  }

  // ---- Devices. ----

  /** A device that has registers from base on. */
  datatype Device = Device(base: u16, registers: seq<u16>)

  /** The map of a device that starts where the walk does. */
  function At40000(registers: seq<u16>): Device {
    Device(40000, registers)
  }

  /** A request outside of the registers, or for more than 125 of them, is refused. */
  function Answer(d: Device, r: Request): (values: seq<u16>)
    ensures |values| == 0 || |values| == r.count
  {
    if d.base <= r.start && r.start - d.base + r.count <= |d.registers| && r.count <= 125
    then d.registers[r.start - d.base..r.start - d.base + r.count]
    else []
  }

  /** The outstanding request. */
  function Pending(w: Walk): Request
    requires w.requests != []
  {
    w.requests[|w.requests| - 1]
  }

  /** The walk after at most n replies of the device; None if it looks for a length that was not sent. */
  function Walked(w: Walk, d: Device, n: nat): Option<Walk>
    requires w.requests != []
    decreases n
  {
    if n == 0 || w.done then Some(w)
    else
      var values := Answer(d, Pending(w));
      if w.state == ModuleContent && |values| == 1 then None
      else
        KeepsAsking(w, values);
        Walked(OnFinished(w, values), d, n - 1)
  }

  lemma KeepsAsking(w: Walk, values: seq<u16>)
    requires w.requests != [] && (w.state == ModuleContent ==> |values| != 1)
    ensures OnFinished(w, values).requests != []
  {
  }

  // ---- Register maps. ----

  datatype Model = Model(id: u16, body: seq<u16>)

  predicate WellFormed(m: Model) {
    m.id != 0xFFFF && |m.body| <= 0xFFFF
  }

  /** The walk reads this model as a whole, unless it passes it by: one reply holds 125 registers. */
  predicate Readable(m: Model) {
    HasContent(m.id) ==> |m.body| <= 123
  }

  predicate AllReadable(models: seq<Model>) {
    forall m | m in models :: Readable(m)
  }

  function Registers(m: Model): seq<u16> {
    [m.id, Wrap16(|m.body|)] + m.body
  }

  const END_MODEL: seq<u16> := [0xFFFF, 0]

  function Encode(models: seq<Model>): (r: seq<u16>)
    ensures |r| >= 2
  {
    if models == [] then END_MODEL else Registers(models[0]) + Encode(models[1..])
  }

  /** "SunS", the common model, any models, and the end. */
  function DeviceMap(common: Model, models: seq<Model>): seq<u16> {
    [0x5375, 0x6E53] + Registers(common) + Encode(models)
  }

  // ---- The models, read all at once. ----

  /** What models from register at on tell about a device. */
  function Describe(di: DeviceInfo, models: seq<Model>, at: nat): DeviceInfo
    requires at + |Encode(models)| <= 0x1_0000
    decreases |models|
  {
    if models == [] then di
    else
      Describe(Noted(di, models[0], at), models[1..], at + 2 + |models[0].body|)
  }

  /** What the model at register at adds. */
  function Noted(di: DeviceInfo, m: Model, at: u16): DeviceInfo {
    var noted := NoteHeader(di, m.id, at);
    if HasContent(m.id) then NoteContent(noted, Registers(m)) else noted
  }

  /** The requests that the models from register at on take; the first one that is too large is the last to be asked for. */
  function RequestsFor(models: seq<Model>, at: nat): seq<Request>
    requires at + |Encode(models)| <= 0x1_0000
    decreases |models|
  {
    if models == [] then [Request(at, 2)]
    else
      var m := models[0];
      [Request(at, 2)] + (if HasContent(m.id) then [Request(at, |m.body| + 2)] else []) +
      if Readable(m) then RequestsFor(models[1..], at + 2 + |m.body|) else []
  }

  /** The position of the last model whose id is one of ids; was if there is none. */
  function LastAt(models: seq<Model>, ids: set<u16>, at: nat, was: u16): u16
    requires at + |Encode(models)| <= 0x1_0000
    decreases |models|
  {
    if models == [] then was
    else LastAt(models[1..], ids, at + 2 + |models[0].body|, if models[0].id in ids then at else was)
  }

  // ---- The walk inverts the map. ----

  /** In front of the models, which come behind prefix in the map. */
  predicate AtModels(w: Walk, prefix: seq<u16>) {
    w.state == ModuleHeader && !w.done && w.found == None && w.currentRegister == 40000 + |prefix|
    && w.requests != [] && Pending(w) == Request(w.currentRegister, 2)
  }

  function RequestCount(models: seq<Model>): nat {
    if models == [] then 1
    else (if HasContent(models[0].id) then 2 else 1) + if Readable(models[0]) then RequestCount(models[1..]) else 0
  }

  /** A device is reported if it has a name and phases. */
  function Reported(di: DeviceInfo): Option<DeviceInfo> {
    if di.identity.productName != "" && di.phaseCount > 0 && di.networkId > 0 then Some(di) else None
  }

  /** The walk v is at the end of the one that w begins in front of the models at register at. */
  ghost predicate IsEnd(v: Walk, w: Walk, models: seq<Model>, at: nat)
    requires at + |Encode(models)| <= 0x1_0000 && w.requests != []
  {
    && v.done && v.requests == w.requests[..|w.requests| - 1] + RequestsFor(models, at)
    && v.found == if AllReadable(models) then Reported(Describe(w.di, models, at)) else None
  }

  lemma Slice(prefix: seq<u16>, part: seq<u16>, rest: seq<u16>, n: nat)
    requires n <= |part| + |rest| && n <= 125
    requires 40000 + |prefix| + n <= 0x1_0000 && 40000 + |prefix| < 0x1_0000
    ensures Answer(At40000(prefix + part + rest), Request(40000 + |prefix|, n)) == (part + rest)[..n]
  {
    var all := prefix + part + rest;
    assert all[|prefix|..|prefix| + n] == (part + rest)[..n];
  }

  lemma HeaderStep(w: Walk, prefix: seq<u16>, m: Model, rest: seq<u16>)
    requires AtModels(w, prefix) && WellFormed(m) && 40000 + |prefix| + 2 + |m.body| + 2 <= 0x1_0000
    requires |rest| >= 2
    ensures var regs := prefix + Registers(m) + rest;
            var di := NoteHeader(w.di, m.id, w.currentRegister);
            OnFinished(w, Answer(At40000(regs), Pending(w))) ==
            if HasContent(m.id) then StartNextRequest(w.(di := di, state := ModuleContent), |m.body| + 2)
            else StartNextRequest(w.(di := di, currentRegister := 40000 + |prefix + Registers(m)|), 2)
  {
    hide NoteHeader;
    Slice(prefix, Registers(m), rest, 2);
    assert (Registers(m) + rest)[..2] == [m.id, |m.body|];
  }

  lemma ContentStep(w: Walk, prefix: seq<u16>, m: Model, rest: seq<u16>)
    requires w.state == ModuleContent && !w.done && w.requests != []
    requires WellFormed(m) && HasContent(m.id) && Readable(m)
    requires w.currentRegister == 40000 + |prefix| && Pending(w) == Request(w.currentRegister, |m.body| + 2)
    requires 40000 + |prefix| + 2 + |m.body| + 2 <= 0x1_0000
    ensures var regs := prefix + Registers(m) + rest;
            var values := Answer(At40000(regs), Pending(w));
            && |values| != 1
            && OnFinished(w, values) == StartNextRequest(w.(di := NoteContent(w.di, Registers(m)), state := ModuleHeader,
                                                           currentRegister := 40000 + |prefix + Registers(m)|), 2)
  {
    hide NoteContent, ProductOf, ManufacturerOf;
    Slice(prefix, Registers(m), rest, |m.body| + 2);
    assert (Registers(m) + rest)[..|m.body| + 2] == Registers(m);
  }

  /** A model that is too large for one reply ends the walk. */
  lemma {:induction false} RefusedStep(w: Walk, d: Device, m: Model)
    requires w.state == ModuleContent && w.requests != [] && !Readable(m) && |m.body| + 2 <= 0xFFFF
    requires Pending(w) == Request(w.currentRegister, |m.body| + 2)
    ensures Answer(d, Pending(w)) == [] && OnFinished(w, []) == SetDone(w)
  {
  }

  /**
   From any list of models on, the walk comes to its end, having noted down what they say; or it ends at the
   first model that is too large, without a device.
   */
  lemma {:induction false} ModelsAreWalked(w: Walk, prefix: seq<u16>, models: seq<Model>)
    requires AtModels(w, prefix) && forall m | m in models :: WellFormed(m)
    requires 40000 + |prefix + Encode(models)| <= 0x1_0000
    ensures var v := Walked(w, At40000(prefix + Encode(models)), RequestCount(models));
            v.Some? && IsEnd(v.value, w, models, 40000 + |prefix|)
    decreases |models|
  {
    hide AtModels, IsEnd, Walked, RequestCount, Readable, WellFormed, Noted;
    if models == [] {
      EndIsWalked(w, prefix);
    } else if Readable(models[0]) {
      var u := ModelIsWalked(w, prefix, models);
      var behind := prefix + Registers(models[0]);
      assert prefix + Encode(models) == behind + Encode(models[1..]);
      ModelsAreWalked(u, behind, models[1..]);
      var v := Walked(u, At40000(behind + Encode(models[1..])), RequestCount(models[1..]));
      SameEnd(v.value, w, u, models, 40000 + |prefix|);
    } else {
      RefusedIsWalked(w, prefix, models);
    }
  }

  lemma {:induction false} EndIsWalked(w: Walk, prefix: seq<u16>)
    requires AtModels(w, prefix) && 40000 + |prefix| + 2 <= 0x1_0000
    ensures var v := Walked(w, At40000(prefix + Encode([])), RequestCount([]));
            v.Some? && IsEnd(v.value, w, [], 40000 + |prefix|)
  {
    hide Walked, OnFinished, Answer;
    var d := At40000(prefix + END_MODEL);
    EndIsRead(w, prefix);
    WalkedOnce(w, d, 1);
    WalkedDone(OnFinished(w, Answer(d, Pending(w))), d, 0);
    assert w.requests == w.requests[..|w.requests| - 1] + RequestsFor([], 40000 + |prefix|);
  }

  lemma EndIsRead(w: Walk, prefix: seq<u16>)
    requires AtModels(w, prefix) && 40000 + |prefix| + 2 <= 0x1_0000
    ensures OnFinished(w, Answer(At40000(prefix + END_MODEL), Pending(w))) == w.(done := true, found := Reported(w.di))
  {
    Slice(prefix, END_MODEL, [], 2);
    assert prefix + END_MODEL + [] == prefix + END_MODEL;
    assert (END_MODEL + [])[..2] == END_MODEL;
  }

  /** With one reply, or two, the walk is in front of the next model. */
  lemma {:induction false} ModelIsWalked(w: Walk, prefix: seq<u16>, models: seq<Model>) returns (u: Walk)
    requires AtModels(w, prefix) && models != [] && WellFormed(models[0]) && Readable(models[0])
    requires 40000 + |prefix + Encode(models)| <= 0x1_0000
    ensures w.requests != [] && AtModels(u, prefix + Registers(models[0])) && u.requests != []
    ensures IsBehind(u, w, models[0], 40000 + |prefix|)
    ensures var d := At40000(prefix + Encode(models));
            Walked(w, d, RequestCount(models)) == Walked(u, d, RequestCount(models[1..]))
  {
    hide NoteHeader, NoteContent, OnFinished, Answer, Walked;
    var m, rest, n := models[0], Encode(models[1..]), RequestCount(models);
    var d := At40000(prefix + Encode(models));
    assert prefix + Encode(models) == prefix + Registers(m) + rest;
    HeaderStep(w, prefix, m, rest);
    WalkedOnce(w, d, n);
    u := OnFinished(w, Answer(d, Pending(w)));
    if HasContent(m.id) {
      ContentStep(u, prefix, m, rest);
      WalkedOnce(u, d, n - 1);
      u := OnFinished(u, Answer(d, Pending(u)));
    }
  }

  lemma {:induction false} RefusedIsWalked(w: Walk, prefix: seq<u16>, models: seq<Model>)
    requires AtModels(w, prefix) && models != [] && WellFormed(models[0]) && !Readable(models[0])
    requires 40000 + |prefix + Encode(models)| <= 0x1_0000
    ensures var v := Walked(w, At40000(prefix + Encode(models)), RequestCount(models));
            v.Some? && w.requests != [] && IsEnd(v.value, w, models, 40000 + |prefix|)
  {
    hide NoteHeader, OnFinished, Answer, Walked, IsEnd, AllReadable, RequestsFor, Describe, Registers;
    var m, rest := models[0], Encode(models[1..]);
    var d := At40000(prefix + Encode(models));
    FirstFits(models);
    assert prefix + Encode(models) == prefix + Registers(m) + rest;
    HeaderStep(w, prefix, m, rest);
    var v := OnFinished(w, Answer(d, Pending(w)));
    TwoReplies(w, v, d, m);
    RefusedIsEnd(SetDone(v), w, models, 40000 + |prefix|);
  }

  lemma {:induction false} FirstFits(models: seq<Model>)
    requires models != []
    ensures |Encode(models)| >= 2 + |models[0].body| + 2
  {
  }

  lemma {:induction false} TwoReplies(w: Walk, v: Walk, d: Device, m: Model)
    requires w.requests != [] && !w.done && w.state == ModuleHeader && v == OnFinished(w, Answer(d, Pending(w)))
    requires v.state == ModuleContent && v.requests != [] && !v.done && !Readable(m) && |m.body| + 2 <= 0xFFFF
    requires Pending(v) == Request(v.currentRegister, |m.body| + 2)
    ensures Walked(w, d, 2) == Some(SetDone(v))
  {
    hide OnFinished, Answer, Walked, Readable;
    WalkedOnce(w, d, 2);
    RefusedStep(v, d, m);
    WalkedOnce(v, d, 1);
    WalkedDone(SetDone(v), d, 0);
  }

  lemma {:induction false} RefusedIsEnd(v: Walk, w: Walk, models: seq<Model>, at: nat)
    requires models != [] && at + |Encode(models)| <= 0x1_0000 && !Readable(models[0]) && w.requests != []
    requires Pending(w) == Request(at, 2) && |models[0].body| + 2 <= 0xFFFF
    requires v.done && v.found == None && v.requests == w.requests + [Request(at, |models[0].body| + 2)]
    ensures IsEnd(v, w, models, at)
  {
    hide Reported, Describe, Encode;
    assert models[0] in models;
    assert w.requests == w.requests[..|w.requests| - 1] + [Pending(w)];
  }

  /** The walk u is that of w behind a model at register at. */
  predicate IsBehind(u: Walk, w: Walk, m: Model, at: nat)
    requires at + 2 + |m.body| <= 0xFFFF
  {
    && u.di == Noted(w.di, m, at) && w.requests != [] && Pending(w) == Request(at, 2)
    && u.requests == w.requests + (if HasContent(m.id) then [Request(at, |m.body| + 2)] else []) +
                     [Request(at + 2 + |m.body|, 2)]
  }

  /** It leads to the same end. */
  lemma {:induction false} SameEnd(v: Walk, w: Walk, u: Walk, models: seq<Model>, at: nat)
    requires models != [] && at + |Encode(models)| <= 0x1_0000 && Readable(models[0])
    requires IsBehind(u, w, models[0], at)
    requires IsEnd(v, u, models[1..], at + 2 + |models[0].body|)
    ensures IsEnd(v, w, models, at)
  {
    hide Noted, Readable, Reported, Encode, RequestsFor, Describe;
    OneModel(w.di, models, at);
    var m := models[0];
    var first := if HasContent(m.id) then [Request(at, |m.body| + 2)] else [];
    Splice(w.requests, first, u.requests[|u.requests| - 1], RequestsFor(models[1..], at + 2 + |m.body|));
    assert forall l :: l in models <==> l == m || l in models[1..];
  }

  lemma {:induction false} OneModel(di: DeviceInfo, models: seq<Model>, at: nat)
    requires models != [] && at + |Encode(models)| <= 0x1_0000 && Readable(models[0])
    ensures var m, next := models[0], at + 2 + |models[0].body|;
            && next + |Encode(models[1..])| <= 0x1_0000 && next <= 0xFFFE
            && Describe(di, models, at) == Describe(Noted(di, m, at), models[1..], next)
            && RequestsFor(models, at) == [Request(at, 2)] +
               (if HasContent(m.id) then [Request(at, |m.body| + 2)] else []) + RequestsFor(models[1..], next)
  {
    hide Noted;
  }

  lemma Splice(before: seq<Request>, first: seq<Request>, last: Request, more: seq<Request>)
    requires before != []
    ensures var all := before + first + [last];
            all[..|all| - 1] + more
            == before[..|before| - 1] + ([before[|before| - 1]] + first + more)
  {
    var all := before + first + [last];
    assert all[..|all| - 1] == before + first;
    assert before == before[..|before| - 1] + [before[|before| - 1]];
  }

  // ---- What the walk reports. ----

  const INVERTERS: set<u16> := {101, 102, 103, 111, 112, 113}

  /** The last model whose id is one of ids. */
  function LastModel(models: seq<Model>, ids: set<u16>): Option<Model> {
    if models == [] then None
    else
      match LastModel(models[1..], ids)
      case Some(m) => Some(m)
      case None => if models[0].id in ids then Some(models[0]) else None
  }

  lemma {:induction false} LastModelExists(models: seq<Model>, ids: set<u16>)
    ensures LastModel(models, ids).Some? <==> exists m | m in models :: m.id in ids
    ensures LastModel(models, ids).Some? ==> LastModel(models, ids).value.id in ids
  {
    if models != [] {
      LastModelExists(models[1..], ids);
      assert forall m :: m in models <==> m == models[0] || m in models[1..];
    }
  }

  /** The offsets are those of the last inverter, nameplate and control model, whatever else there is. */
  lemma {:induction false} DescribeIsLast(di: DeviceInfo, models: seq<Model>, at: nat)
    requires at + |Encode(models)| <= 0x1_0000
    ensures var d := Describe(di, models, at);
            && d.networkId == di.networkId && d.identity == di.identity
            && d.inverterModelOffset == LastAt(models, INVERTERS, at, di.inverterModelOffset)
            && d.namePlateModelOffset == LastAt(models, {120}, at, di.namePlateModelOffset)
            && d.immediateControlOffset == LastAt(models, {123}, at, di.immediateControlOffset)
            && match LastModel(models, INVERTERS) {
                 case None => d.phaseCount == di.phaseCount && d.retrievalMode == di.retrievalMode
                 case Some(m) => d.phaseCount == m.id % 10 &&
                                 d.retrievalMode == if m.id > 103 then ProtocolSunSpecFloat else ProtocolSunSpecIntSf
               }
    decreases |models|
  {
    hide GetScale, GetScaledValue;
    if models != [] {
      var m := models[0];
      DescribeIsLast(Noted(di, m, at), models[1..], at + 2 + |m.body|);
    }
  }

  /** The replies to the first two requests. */
  lemma CommonIsRead(unit: byte, common: Model, models: seq<Model>)
    requires common.id == 1 && 64 <= |common.body| <= 0xFFFF
    requires 40000 + |DeviceMap(common, models)| <= 0x1_0000
    ensures var regs := DeviceMap(common, models);
            var a := Connected(unit);
            var b := OnFinished(a, Answer(At40000(regs), Pending(a)));
            && Answer(At40000(regs), Pending(a)) == [0x5375, 0x6E53]
            && b == a.(currentRegister := 40002, state := ModuleContent, requests := a.requests + [Request(40002, 66)])
            && Answer(At40000(regs), Pending(b)) == Registers(common)[..66]
  {
    var regs := DeviceMap(common, models);
    var header: seq<u16> := [0x5375, 0x6E53];
    var rest := Registers(common) + Encode(models);
    assert regs == [] + header + rest;
    Slice([], header, rest, 2);
    assert (header + rest)[..2] == header;
    SunSIsRead(header);
    assert regs == header + Registers(common) + Encode(models);
    Slice(header, Registers(common), Encode(models), 66);
    assert (Registers(common) + Encode(models))[..66] == Registers(common)[..66];
  }

  lemma SunSIsRead(header: seq<u16>)
    requires header == [0x5375, 0x6E53]
    ensures GetString(header) == "SunS"
  {
    assert header[1..][1..] == [];
    assert GetString(header[1..]) == "nS";
  }

  predicate WellFormedMap(common: Model, models: seq<Model>) {
    && common.id == 1 && 64 <= |common.body| <= 0xFFFF && 40000 + |DeviceMap(common, models)| <= 0x1_0000
    && forall m | m in models :: WellFormed(m)
  }

  function Manufacturer(common: Model): string
    requires |common.body| >= 64
  {
    GetString(common.body[..16])
  }

  /** The requests of a walk: "SunS", the common model, and, unless that says SMA, all the others. */
  function AllRequests(common: Model, models: seq<Model>): seq<Request>
    requires WellFormedMap(common, models)
  {
    [Request(40000, 2), Request(40002, 66)] +
    if Manufacturer(common) == "SMA" then [] else RequestsFor(models, 40004 + |common.body|)
  }

  /** The device that the walk has come to know in front of the models. */
  function KnownDevice(unit: byte, common: Model): DeviceInfo
    requires |common.body| >= 64
  {
    NewDevice(unit).(identity := IdentityOf(Registers(common)[..66], NewDevice(unit).identity))
  }

  lemma ProductIsSma(manufacturer: string)
    ensures ProductOf(manufacturer) == SmaProduct <==> manufacturer == "SMA"
  {
  }

  /** Behind the common model of a device that is not made by SMA come the models. */
  lemma CommonIsNoted(unit: byte, common: Model, models: seq<Model>)
    requires WellFormedMap(common, models)
    ensures var a := Connected(unit);
            var b := a.(currentRegister := 40002, state := ModuleContent, requests := a.requests + [Request(40002, 66)]);
            var c := OnFinished(b, Registers(common)[..66]);
            if Manufacturer(common) == "SMA" then c.done && c.found == None && c.requests == b.requests
            else c == StartNextRequest(b.(state := ModuleHeader, di := KnownDevice(unit, common),
                                          currentRegister := 40004 + |common.body|), 2)
  {
    hide GetString, GetScaledValue, ProductOf;
    var values := Registers(common)[..66];
    assert values[2..18] == common.body[..16];
    ProductIsSma(Manufacturer(common));
  }

  lemma {:induction false} WalkedOnce(w: Walk, d: Device, n: nat)
    requires w.requests != [] && !w.done && n > 0
    requires w.state == ModuleContent ==> |Answer(d, Pending(w))| != 1
    ensures OnFinished(w, Answer(d, Pending(w))).requests != []
    ensures Walked(w, d, n) == Walked(OnFinished(w, Answer(d, Pending(w))), d, n - 1)
  {
    hide OnFinished, Answer;
    KeepsAsking(w, Answer(d, Pending(w)));
  }

  lemma {:induction false} WalkedDone(w: Walk, d: Device, n: nat)
    requires w.requests != [] && w.done
    ensures Walked(w, d, n) == Some(w)
  {
  }

  /** The walk over a map comes to this end. */
  lemma {:induction false} MapIsWalked(unit: byte, common: Model, models: seq<Model>) returns (w: Walk)
    requires WellFormedMap(common, models) && unit > 0
    ensures Walked(Connected(unit), At40000(DeviceMap(common, models)), 2 + RequestCount(models)) == Some(w) && w.done
    ensures w.requests == AllRequests(common, models)
    ensures w.found == if Manufacturer(common) == "SMA" || !AllReadable(models) then None
                       else Reported(Describe(KnownDevice(unit, common), models, 40004 + |common.body|))
  {
    hide Answer, OnFinished, IdentityOf, Encode;
    var regs, n := DeviceMap(common, models), RequestCount(models);
    CommonIsRead(unit, common, models);
    CommonIsNoted(unit, common, models);
    var a := Connected(unit);
    WalkedOnce(a, At40000(regs), n + 2);
    var b := OnFinished(a, Answer(At40000(regs), Pending(a)));
    WalkedOnce(b, At40000(regs), n + 1);
    w := OnFinished(b, Answer(At40000(regs), Pending(b)));
    if Manufacturer(common) == "SMA" {
      WalkedDone(w, At40000(regs), n);
    } else {
      var prefix := [0x5375, 0x6E53] + Registers(common);
      assert |prefix| == 4 + |common.body|;
      ModelsAreWalked(w, prefix, models);
      var before := w.requests[..|w.requests| - 1];
      assert before == [Request(40000, 2), Request(40002, 66)];
      w := Walked(w, At40000(regs), n).value;
    }
  }

  /**
   For every map that fits in front of register 65536 the walk comes to an end, having asked for every model
   at its offset and nothing else, up to the first nameplate or control model of more than 123 registers. It
   reports a device if and only if there is no such model, the manufacturer is not SMA and there is an
   inverter model; with the offsets of the last inverter, nameplate and control model.
   */
  lemma WalkInvertsTheMap(unit: byte, common: Model, models: seq<Model>)
    requires WellFormedMap(common, models) && unit > 0
    ensures var w := Walked(Connected(unit), At40000(DeviceMap(common, models)), 2 + RequestCount(models));
            var at := 40004 + |common.body|;
            && w.Some? && w.value.done && w.value.requests == AllRequests(common, models)
            && (w.value.found.Some? <==> AllReadable(models) && Manufacturer(common) != "SMA" && exists m | m in models :: IsInverter(m.id))
            && (w.value.found.Some? ==>
                  var d := w.value.found.value;
                  && d.networkId == unit
                  && d.identity.serialNumber == GetString(common.body[48..64])
                  && d.inverterModelOffset == LastAt(models, INVERTERS, at, 0)
                  && d.namePlateModelOffset == LastAt(models, {120}, at, 0)
                  && d.immediateControlOffset == LastAt(models, {123}, at, 0)
                  && LastModel(models, INVERTERS).Some?
                  && d.phaseCount == LastModel(models, INVERTERS).value.id % 10)
  {
    hide Walked, Describe, LastAt, GetString, AllRequests;
    var w := MapIsWalked(unit, common, models);
    var at := 40004 + |common.body|;
    DescribeIsLast(KnownDevice(unit, common), models, at);
    LastModelExists(models, INVERTERS);
    assert Registers(common)[..66][50..66] == Registers(common)[50..66] == common.body[48..64];
    assert forall id: u16 :: id in INVERTERS <==> IsInverter(id);
    NameIsNotEmpty(common);
  }

  lemma NameIsNotEmpty(common: Model)
    requires |common.body| >= 64
    ensures IdentityOf(Registers(common)[..66], NewDevice(0).identity).productName != ""
  {
    var s := GetString(Registers(common)[..66][2..18]);
    assert (s + " " + GetString(Registers(common)[..66][18..34]))[|s|] == ' ';
  }
}
