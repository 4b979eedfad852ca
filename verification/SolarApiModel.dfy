/** The fan-out of SolarApiDetector (solar_api_detector.cpp) to SunSpec probes, and the fan-in of their answers. */
module SolarApiModel {

  /** What the Solar API tells about an inverter. */
  datatype InverterInfo = InverterInfo(id: int, deviceType: int, uniqueId: string)

  const INVALID_TYPE: int := 255

  /** A ReplyToInverter: a probe that is not done. The reply is a number that stands for the object. */
  datatype Entry = Entry(reply: nat, inverter: InverterInfo, deviceFound: bool)

  /** What is emitted: a result, found by the probe or taken from the Solar API, or the end of a reply. */
  datatype Emission = DeviceFound(reply: nat, inverter: InverterInfo, bySunspec: bool) | Finished(reply: nat)

  datatype State = State(table: seq<Entry>, log: seq<Emission>)

  function Emit(s: State, e: Emission): State {
    s.(log := s.log + [e])
  }

  /** The inverters that get a probe. */
  function Probed(inverters: seq<InverterInfo>): seq<InverterInfo> {
    if inverters == [] then []
    else (if inverters[0].deviceType == INVALID_TYPE then [] else [inverters[0]]) + Probed(inverters[1..])
  }

  function Entries(reply: nat, inverters: seq<InverterInfo>): seq<Entry> {
    seq(|inverters|, i requires 0 <= i < |inverters| => Entry(reply, inverters[i], false))
  }

  lemma ProbedStep(inverters: seq<InverterInfo>, k: nat, probed: seq<InverterInfo>)
    requires k < |inverters|
    ensures probed + Probed(inverters[k..]) ==
            (if inverters[k].deviceType == INVALID_TYPE then probed else probed + [inverters[k]]) + Probed(inverters[k + 1..])
  {
    assert inverters[k..][1..] == inverters[k + 1..];
  }

  lemma EntriesSnoc(table: seq<Entry>, reply: nat, inverters: seq<InverterInfo>, last: InverterInfo)
    ensures table + Entries(reply, inverters + [last]) == table + Entries(reply, inverters) + [Entry(reply, last, false)]
  {
  }

  function OnConverterInfoFound(s: State, reply: nat, inverters: seq<InverterInfo>): State {
    var probed := Probed(inverters);
    if probed == [] then Emit(s, Finished(reply)) else s.(table := s.table + Entries(reply, probed))
  }

  function OnSunspecDeviceFound(s: State, i: nat): State
    requires i < |s.table|
  {
    Emit(s.(table := s.table[i := s.table[i].(deviceFound := true)]),
         DeviceFound(s.table[i].reply, s.table[i].inverter, true))
  }

  /** Some probe for the reply has found nothing yet. */
  predicate IsPending(table: seq<Entry>, reply: nat) {
    exists i | 0 <= i < |table| :: table[i].reply == reply && !table[i].deviceFound
  }

  function CheckFinished(s: State, reply: nat): State {
    if IsPending(s.table, reply) then s else Emit(s, Finished(reply))
  }

  function Without(table: seq<Entry>, i: nat): seq<Entry>
    requires i < |table|
  {
    table[..i] + table[i + 1..]
  }

  function OnSunspecDone(s: State, i: nat): State
    requires i < |s.table|
  {
    var e := s.table[i];
    var t := s.(table := Without(s.table, i));
    CheckFinished(if e.deviceFound then t else Emit(t, DeviceFound(e.reply, e.inverter, false)), e.reply)
  }

  // ---- Runs in which a probe emits what it has found and that it is done one right after the other. ----

  datatype Event = ConverterInfo(reply: nat, inverters: seq<InverterInfo>) | ProbeDone(i: nat, found: bool)

  function Step(s: State, e: Event): State {
    match e
    case ConverterInfo(reply, inverters) => OnConverterInfoFound(s, reply, inverters)
    case ProbeDone(i, found) =>
      if i >= |s.table| then s else OnSunspecDone(if found then OnSunspecDeviceFound(s, i) else s, i)
  }

  datatype Trace = Start | Then(before: Trace, event: Event)

  function StateOf(t: Trace): State {
    match t
    case Start => State([], [])
    case Then(before, event) => Step(StateOf(before), event)
  }

  /** The Solar API has answered for the reply. */
  predicate Answered(t: Trace, reply: nat) {
    match t
    case Start => false
    case Then(before, event) => Answered(before, reply) || (event.ConverterInfo? && event.reply == reply)
  }

  /** The inverters that the Solar API has named for the reply. */
  function Named(t: Trace, reply: nat): seq<InverterInfo> {
    match t
    case Start => []
    case Then(before, event) =>
      if event.ConverterInfo? && event.reply == reply then event.inverters else Named(before, reply)
  }

  /** Those of them that get a probe. */
  function Expected(t: Trace, reply: nat): multiset<InverterInfo> {
    multiset(Probed(Named(t, reply)))
  }

  /** Every inverter is probed as often as it is named, but for those of type 255. */
  lemma {:induction false} ProbedExactly(inverters: seq<InverterInfo>, inverter: InverterInfo)
    ensures multiset(Probed(inverters))[inverter] == if inverter.deviceType == 255 then 0 else multiset(inverters)[inverter]
  {
    if inverters != [] {
      ProbedExactly(inverters[1..], inverter);
      assert inverters == [inverters[0]] + inverters[1..];
    }
  }

  /** A reply asks the Solar API for its inverters once. */
  predicate AnsweredOnce(t: Trace) {
    match t
    case Start => true
    case Then(before, event) => AnsweredOnce(before) && (event.ConverterInfo? ==> !Answered(before, event.reply))
  }

  // ---- What is counted. ----

  /** The inverters of the probes of a reply that are not done. */
  function Waiting(table: seq<Entry>, reply: nat): multiset<InverterInfo> {
    if table == [] then multiset{}
    else (if table[0].reply == reply then multiset{table[0].inverter} else multiset{}) + Waiting(table[1..], reply)
  }

  /** The inverters for which a result was emitted. */
  function Results(log: seq<Emission>, reply: nat): multiset<InverterInfo> {
    if log == [] then multiset{}
    else
      var e := log[|log| - 1];
      Results(log[..|log| - 1], reply) +
      if e.DeviceFound? && e.reply == reply then multiset{e.inverter} else multiset{}
  }

  function Ends(log: seq<Emission>, reply: nat): nat {
    if log == [] then 0 else Ends(log[..|log| - 1], reply) + if log[|log| - 1] == Finished(reply) then 1 else 0
  }

  /** No result of the reply is emitted behind its end. */
  predicate EndIsLast(log: seq<Emission>, reply: nat) {
    log == [] ||
    (EndIsLast(log[..|log| - 1], reply) &&
     (log[|log| - 1].DeviceFound? && log[|log| - 1].reply == reply ==> Ends(log[..|log| - 1], reply) == 0))
  }

  lemma {:induction false} WaitingAppend(a: seq<Entry>, b: seq<Entry>, reply: nat)
    ensures Waiting(a + b, reply) == Waiting(a, reply) + Waiting(b, reply)
  {
    if a == [] {
      assert a + b == b;
    } else {
      assert (a + b)[1..] == a[1..] + b;
      WaitingAppend(a[1..], b, reply);
    }
  }

  lemma {:induction false} WaitingWithout(table: seq<Entry>, i: nat, reply: nat)
    requires i < |table|
    ensures Waiting(table, reply) == Waiting(Without(table, i), reply) +
            if table[i].reply == reply then multiset{table[i].inverter} else multiset{}
  {
    var e := table[i..i + 1];
    assert table == table[..i] + (e + table[i + 1..]);
    WaitingAppend(table[..i], e + table[i + 1..], reply);
    WaitingAppend(e, table[i + 1..], reply);
    WaitingAppend(table[..i], table[i + 1..], reply);
    assert e == [table[i]] && e[1..] == [];
  }

  lemma {:induction false} WaitingEntries(inverters: seq<InverterInfo>, r: nat, reply: nat)
    ensures Waiting(Entries(r, inverters), reply) == if r == reply then multiset(inverters) else multiset{}
  {
    if inverters != [] {
      assert Entries(r, inverters)[1..] == Entries(r, inverters[1..]);
      assert inverters == [inverters[0]] + inverters[1..];
      WaitingEntries(inverters[1..], r, reply);
    }
  }

  lemma {:induction false} WaitingNone(table: seq<Entry>, reply: nat)
    requires forall i | 0 <= i < |table| :: !table[i].deviceFound
    ensures Waiting(table, reply) == multiset{} <==> !IsPending(table, reply)
  {
    if table != [] {
      WaitingNone(table[1..], reply);
      if IsPending(table[1..], reply) {
        var i :| 0 <= i < |table[1..]| && table[1..][i].reply == reply && !table[1..][i].deviceFound;
        assert table[i + 1] == table[1..][i];
      } else if table[0].reply != reply {
        forall i | 0 <= i < |table| ensures table[i].reply != reply || table[i].deviceFound {
          assert i > 0 ==> table[i] == table[1..][i - 1];
        }
      } else {
        assert table[0].inverter in Waiting(table, reply);
      }
    }
  }

  lemma Emitted(log: seq<Emission>, e: Emission, reply: nat)
    ensures var l := log + [e];
            && Results(l, reply) == Results(log, reply) +
               (if e.DeviceFound? && e.reply == reply then multiset{e.inverter} else multiset{})
            && Ends(l, reply) == Ends(log, reply) + (if e == Finished(reply) then 1 else 0)
            && (EndIsLast(l, reply) <==> EndIsLast(log, reply) &&
                                         (e.DeviceFound? && e.reply == reply ==> Ends(log, reply) == 0))
  {
    assert (log + [e])[..|log + [e]| - 1] == log;
  }

  // ---- The fan-in. ----

  /** For a reply whose Solar API answer named the inverters expected, or which has none yet. */
  predicate Accounted(s: State, reply: nat, answered: bool, expected: multiset<InverterInfo>) {
    && Results(s.log, reply) + Waiting(s.table, reply) == expected
    && Ends(s.log, reply) == (if answered && Waiting(s.table, reply) == multiset{} then 1 else 0)
    && EndIsLast(s.log, reply)
  }

  predicate NoneFound(table: seq<Entry>) {
    forall i | 0 <= i < |table| :: !table[i].deviceFound
  }

  /** A probe that is done, with or without a device, is worth one result. */
  lemma {:induction false} ProbeStep(s: State, i: nat, found: bool)
    requires NoneFound(s.table) && i < |s.table|
    ensures var e := s.table[i];
            var t := Without(s.table, i);
            && NoneFound(t)
            && Step(s, ProbeDone(i, found)) == CheckFinished(State(t, s.log + [DeviceFound(e.reply, e.inverter, found)]), e.reply)
  {
    var e := s.table[i];
    assert Without(s.table[i := e.(deviceFound := true)], i) == Without(s.table, i);
  }

  lemma {:induction false} ProbeIsAccounted(s: State, i: nat, found: bool, reply: nat, answered: bool, expected: multiset<InverterInfo>)
    requires NoneFound(s.table) && i < |s.table| && Accounted(s, reply, answered, expected)
    requires s.table[i].reply == reply ==> answered
    ensures Accounted(Step(s, ProbeDone(i, found)), reply, answered, expected)
  {
    hide Results, Ends, EndIsLast, Waiting, IsPending;
    var e := s.table[i];
    var table, log := Without(s.table, i), s.log + [DeviceFound(e.reply, e.inverter, found)];
    ProbeStep(s, i, found);
    WaitingWithout(s.table, i, reply);
    WaitingNone(table, reply);
    Emitted(s.log, DeviceFound(e.reply, e.inverter, found), reply);
    Emitted(log, Finished(e.reply), reply);
  }

  lemma {:induction false} AnswerIsAccounted(s: State, r: nat, inverters: seq<InverterInfo>, reply: nat, answered: bool,
                                             expected: multiset<InverterInfo>)
    requires Accounted(s, reply, answered, expected) && (r == reply ==> !answered && expected == multiset{})
    ensures var t := OnConverterInfoFound(s, r, inverters);
            if r == reply then Accounted(t, reply, true, multiset(Probed(inverters)))
            else Accounted(t, reply, answered, expected)
  {
    hide Results, Ends, EndIsLast, Waiting;
    var probed := Probed(inverters);
    Emitted(s.log, Finished(r), reply);
    WaitingAppend(s.table, Entries(r, probed), reply);
    WaitingEntries(probed, r, reply);
    if r == reply {
      assert Waiting(s.table, reply) == multiset{} == Results(s.log, reply);
      assert probed != [] ==> probed[0] in multiset(probed);
    }
  }

  lemma {:induction false} NoEntryBefore(t: Trace, reply: nat)
    ensures NoneFound(StateOf(t).table)
    ensures !Answered(t, reply) ==> Expected(t, reply) == multiset{}
    ensures !Answered(t, reply) ==> forall e | e in StateOf(t).table :: e.reply != reply
  {
    match t
    case Start =>
    case Then(before, ConverterInfo(r, inverters)) =>
      NoEntryBefore(before, reply);
    case Then(before, ProbeDone(i, found)) =>
      NoEntryBefore(before, reply);
      var s := StateOf(before);
      if i < |s.table| {
        ProbeStep(s, i, found);
      }
  }

  /**
   On every run every reply is accounted for: its results and the probes that are not done are together
   the inverters the Solar API has named, without those of type 255; and it is finished once, behind its
   last result, when and only when no probe is left.
   */
  lemma {:induction false} EveryReplyIsAccounted(t: Trace, reply: nat)
    requires AnsweredOnce(t)
    ensures Accounted(StateOf(t), reply, Answered(t, reply), Expected(t, reply))
  {
    hide OnConverterInfoFound, OnSunspecDone, OnSunspecDeviceFound;
    match t
    case Start =>
    case Then(before, ConverterInfo(r, inverters)) =>
      EveryReplyIsAccounted(before, reply);
      NoEntryBefore(before, reply);
      AnswerIsAccounted(StateOf(before), r, inverters, reply, Answered(before, reply), Expected(before, reply));
    case Then(before, ProbeDone(i, found)) =>
      EveryReplyIsAccounted(before, reply);
      NoEntryBefore(before, reply);
      var s := StateOf(before);
      if i < |s.table| {
        assert s.table[i] in s.table;
        ProbeIsAccounted(s, i, found, reply, Answered(before, reply), Expected(before, reply));
      }
  }

  /**
   On every run, for every inverter: the results and the probes of a reply that are not done are together as many as
   the Solar API has named it, and none if its type is 255.
   */
  lemma {:induction false} EveryInverterIsAccounted(t: Trace, reply: nat, inverter: InverterInfo)
    requires AnsweredOnce(t)
    ensures var s := StateOf(t);
            Results(s.log, reply)[inverter] + Waiting(s.table, reply)[inverter]
            == if inverter.deviceType == 255 then 0 else multiset(Named(t, reply))[inverter]
  {
    hide StateOf, Named, Probed;
    EveryReplyIsAccounted(t, reply);
    ProbedExactly(Named(t, reply), inverter);
  }

  /** When a reply is finished, there is one result for each inverter whose type is not 255. */
  lemma FinishedIsComplete(t: Trace, reply: nat)
    requires AnsweredOnce(t) && Finished(reply) in StateOf(t).log
    ensures Answered(t, reply) && Ends(StateOf(t).log, reply) == 1
    ensures forall inverter ::
              Results(StateOf(t).log, reply)[inverter]
              == if inverter.deviceType == 255 then 0 else multiset(Named(t, reply))[inverter]
  {
    hide StateOf, Answered, Named, Probed, Results, Waiting;
    EveryReplyIsAccounted(t, reply);
    EndsIn(StateOf(t).log, reply);
    forall inverter
      ensures Results(StateOf(t).log, reply)[inverter]
              == if inverter.deviceType == 255 then 0 else multiset(Named(t, reply))[inverter]
    {
      ProbedExactly(Named(t, reply), inverter);
    }
  }

  lemma {:induction false} EndsIn(log: seq<Emission>, reply: nat)
    requires Finished(reply) in log
    ensures Ends(log, reply) > 0
  {
    var n := |log| - 1;
    if log[n] != Finished(reply) {
      assert log == log[..n] + [log[n]];
      EndsIn(log[..n], reply);
    }
  }

  /** A probe that tells what it has found, but not at once that it is done, makes its reply finish twice. */
  lemma FoundWithoutDone(s: State, reply: nat)
    requires |s.table| == 2 && NoneFound(s.table) && s.table[0].reply == s.table[1].reply == reply
    requires Ends(s.log, reply) == 0
    ensures var a := OnSunspecDeviceFound(s, 0);
            var b := OnSunspecDone(a, 1);
            var c := OnSunspecDone(b, 0);
            Ends(b.log, reply) == 1 && Ends(c.log, reply) == 2
  {
    hide Ends, IsPending;
    var x, y := s.table[0], s.table[1];
    var a := OnSunspecDeviceFound(s, 0);
    Emitted(s.log, DeviceFound(reply, x.inverter, true), reply);
    assert Without(a.table, 1) == [x.(deviceFound := true)];
    NotPending([x.(deviceFound := true)], reply);
    var b := OnSunspecDone(a, 1);
    var log := a.log + [DeviceFound(reply, y.inverter, false)];
    Emitted(a.log, DeviceFound(reply, y.inverter, false), reply);
    Emitted(log, Finished(reply), reply);
    assert b == State([x.(deviceFound := true)], log + [Finished(reply)]);
    assert Without(b.table, 0) == [];
    NotPending([], reply);
    Emitted(b.log, Finished(reply), reply);
  }

  lemma NotPending(table: seq<Entry>, reply: nat)
    requires forall i | 0 <= i < |table| :: table[i].deviceFound
    ensures !IsPending(table, reply)
  {
  }
}
