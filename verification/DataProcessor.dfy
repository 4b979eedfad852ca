/** DataProcessor (data_processor.cpp): distributes total power and energy over the phases. */
module Processor {
  import opened Modbus
  import opened EnergyModel

  /** The items of a PowerInfo; a value that is no number is not published. */
  datatype PowerInfo = PowerInfo(
    current: Option<real>, voltage: Option<real>, power: Option<real>, totalEnergy: Option<real>)

  const NO_POWER := PowerInfo(None, None, None, None)

  datatype CommonInverterData = CommonInverterData(
    acPower: Option<real>, acCurrent: Option<real>, acVoltage: Option<real>, totalEnergy: Option<real>)

  datatype ThreePhasesInverterData = ThreePhasesInverterData(
    acCurrentPhase1: real, acVoltagePhase1: real,
    acCurrentPhase2: real, acVoltagePhase2: real,
    acCurrentPhase3: real, acVoltagePhase3: real)

  function WeightsOf(data: ThreePhasesInverterData): Weights {
    Weights(data.acVoltagePhase1 * data.acCurrentPhase1,
            data.acVoltagePhase2 * data.acCurrentPhase2,
            data.acVoltagePhase3 * data.acCurrentPhase3)
  }

  function Scale(x: Option<real>, y: real): Option<real> {
    match x
    case None => None
    case Some(v) => Some(v * y)
  }

  function PowerCorrection(power: Option<real>, total: real): Option<real> {
    if total <= 0.0 then Some(0.0)
    else
      match power
      case None => None
      case Some(p) => Some(p / total)
  }

  /** A power is to the total as the product vi is to the sum. */
  predicate InProportion(power: Option<real>, total: real, sum: real, vi: real) {
    power.Some? && power.value * sum == total * vi
  }

  /**
   The total power is apportioned to two phases, or to three, with the products vi of voltage and current: the
   powers sum up to the total, each in proportion to its product. Without a total there are none, and without
   a positive sum they are zero.
   */
  predicate Apportioned(total: Option<real>, three: bool, vi1: real, vi2: real, vi3: real,
                        p1: Option<real>, p2: Option<real>, p3: Option<real>)
  {
    var sum := vi1 + vi2 + if three then vi3 else 0.0;
    if sum <= 0.0 then p1 == p2 == Some(0.0) && (three ==> p3 == Some(0.0))
    else if total == None then p1 == p2 == None && (three ==> p3 == None)
    else
      && InProportion(p1, total.value, sum, vi1) && InProportion(p2, total.value, sum, vi2)
      && (three ==> InProportion(p3, total.value, sum, vi3))
      && p1.value + p2.value + (if three then p3.value else 0.0) == total.value
  }

  /** What process makes of the total power. */
  lemma PowerIsTotal(total: Option<real>, n: nat, w: Weights, p1: Option<real>, p2: Option<real>, p3: Option<real>)
    requires p1 == Scale(PowerCorrection(total, TotalVi(w, n)), w.vi1)
    requires p2 == Scale(PowerCorrection(total, TotalVi(w, n)), w.vi2)
    requires n > 2 ==> p3 == Scale(PowerCorrection(total, TotalVi(w, n)), w.vi3)
    ensures Apportioned(total, n > 2, w.vi1, w.vi2, w.vi3, p1, p2, p3)
  {
    hide Scale, PowerCorrection, InProportion;
    var sum := TotalVi(w, n);
    var c := PowerCorrection(total, sum);
    CorrectionIs(total, sum);
    ScaleIs(c, w.vi1);
    ScaleIs(c, w.vi2);
    ScaleIs(c, w.vi3);
    if sum <= 0.0 {
      Zero(c.value, w.vi1);
      Zero(c.value, w.vi2);
      Zero(c.value, w.vi3);
    } else if total.Some? {
      Scaled(c.value, total.value, sum, w.vi1, p1.value);
      Scaled(c.value, total.value, sum, w.vi2, p2.value);
      if n > 2 {
        Scaled(c.value, total.value, sum, w.vi3, p3.value);
      }
      AllPowers(c.value, total.value, w, n, p1.value, p2.value, if n > 2 then p3.value else 0.0);
    }
  }

  lemma CorrectionIs(total: Option<real>, sum: real)
    ensures var c := PowerCorrection(total, sum);
            && (sum <= 0.0 ==> c.Some? && c.value == 0.0)
            && (sum > 0.0 ==> (c.Some? <==> total.Some?))
            && (sum > 0.0 && total.Some? ==> c.value == total.value / sum)
  {
  }

  lemma ScaleIs(c: Option<real>, v: real)
    ensures Scale(c, v) == if c == None then None else Some(c.value * v)
  {
  }

  lemma Zero(c: real, v: real)
    requires c == 0.0
    ensures c * v == 0.0
  {
  }

  lemma Scaled(c: real, total: real, sum: real, v: real, p: real)
    requires sum > 0.0 && c == total / sum && p == c * v
    ensures InProportion(Some(p), total, sum, v)
  {
    assert c * sum == total;
    assert c * v * sum == (c * sum) * v;
  }

  lemma AllPowers(c: real, p: real, w: Weights, n: nat, x: real, y: real, z: real)
    requires TotalVi(w, n) > 0.0 && c == p / TotalVi(w, n)
    requires x == c * w.vi1 && y == c * w.vi2 && (n > 2 ==> z == c * w.vi3)
    ensures x + y + (if n > 2 then z else 0.0) == p
  {
    assert c * TotalVi(w, n) == p;
    if n > 2 {
      assert c * w.vi1 + c * w.vi2 + c * w.vi3 == c * (w.vi1 + w.vi2 + w.vi3);
    } else {
      assert c * w.vi1 + c * w.vi2 == c * (w.vi1 + w.vi2);
    }
  }

  class DataProcessor {
    const phaseCount: nat
    const settingsPhase: nat // of an inverter with one phase: 1, 2 or 3, or 0 if it is used for several
    var mean: PowerInfo
    var lines: seq<PowerInfo> // L1, L2 and L3
    var settingsEnergy: seq<real>
    var mPreviousTotalEnergy: Option<real>

    predicate Valid()
      reads this
    {
      |lines| == 3 == |settingsEnergy| && settingsPhase <= 3
    }

    function Abs(): (a: Accounts)
      reads this
      requires Valid()
      ensures EnergyModel.Valid(a)
    {
      Accounts(mPreviousTotalEnergy, [lines[0].totalEnergy, lines[1].totalEnergy, lines[2].totalEnergy], settingsEnergy)
    }

    constructor (phaseCount: nat, phase: nat, energies: seq<real>)
      requires phase <= 3 && |energies| == 3
      ensures Valid() && Abs() == Accounts(Some(-1.0), [None, None, None], energies)
      ensures this.phaseCount == phaseCount && settingsPhase == phase
    {
      this.phaseCount, settingsPhase, settingsEnergy := phaseCount, phase, energies;
      mean, lines, mPreviousTotalEnergy := NO_POWER, [NO_POWER, NO_POWER, NO_POWER], Some(-1.0);
    }

    /** process(CommonInverterData): with one phase the totals are those of the phase of the settings. */
    method ProcessCommon(data: CommonInverterData)
      requires Valid()
      modifies this`mean, this`lines
      ensures Valid() && mean == old(mean).(power := data.acPower, totalEnergy := mean.totalEnergy)
      ensures mean.totalEnergy == match data.totalEnergy case None => None case Some(e) => Some(e / 1000.0)
      ensures lines == if phaseCount > 1 || settingsPhase == 0 then old(lines)
                       else old(lines)[settingsPhase - 1
                              := PowerInfo(data.acCurrent, data.acVoltage, mean.power, mean.totalEnergy)]
    {
      mean := mean.(power := data.acPower);
      mean := mean.(totalEnergy := match data.totalEnergy case None => None case Some(e) => Some(e / 1000.0));
      var phase := if phaseCount > 1 then 0 else settingsPhase;
      if phase != 0 {
        var li := lines[phase - 1];
        li := li.(current := data.acCurrent, voltage := data.acVoltage);
        li := li.(power := mean.power, totalEnergy := mean.totalEnergy);
        lines := lines[phase - 1 := li];
      }
    }

    method GetEnergyValue(i: nat) returns (e: real)
      requires Valid() && i < 3
      ensures e == Effective(Abs(), i)
    {
      var pi := lines[i];
      if pi.totalEnergy.Some? && pi.totalEnergy.value != 0.0 {
        return pi.totalEnergy.value;
      }
      return settingsEnergy[i];
    }

    method UpdateEnergyValue(i: nat, accumulatedEnergy: real, energyDelta: Option<real>)
      requires Valid() && i < 3 && phaseCount > 1
      modifies this`lines
      ensures Valid()
      ensures lines == old(lines)[i := old(lines)[i].(totalEnergy :=
                         NewEnergy(old(Abs()), i, phaseCount, accumulatedEnergy, energyDelta))]
    {
      hide Share;
      if mPreviousTotalEnergy.Some? && mPreviousTotalEnergy.value < 0.0 {
        return;
      }
      var prevPhaseEnergy := GetEnergyValue(i);
      var phaseEnergy: Option<real> := None;
      if mPreviousTotalEnergy.Some? && energyDelta.Some? {
        var previous := mPreviousTotalEnergy.value;
        var base := if accumulatedEnergy > 0.0 then Share(previous, prevPhaseEnergy, accumulatedEnergy)
                    else previous / phaseCount as real;
        phaseEnergy := Some(base + energyDelta.value);
      }
      lines := lines[i := lines[i].(totalEnergy := phaseEnergy)];
    }

    /** The part of process that is the same for each phase. */
    method SetLine(i: nat, current: real, voltage: real, power: Option<real>, accumulated: real, delta: Option<real>)
      requires Valid() && i < 3 && phaseCount > 1
      modifies this`lines
      ensures Valid()
      ensures lines == old(lines)[i := PowerInfo(Some(current), Some(voltage), power,
                         NewEnergy(old(Abs()), i, phaseCount, accumulated, delta))]
    {
      hide NewEnergy;
      var was := Abs();
      lines := lines[i := lines[i].(current := Some(current), voltage := Some(voltage), power := power)];
      assert Abs() == was;
      UpdateEnergyValue(i, accumulated, delta);
    }

    /** totalVi, accumulatedEnergy and the two corrections. */
    method Corrections(w: Weights) returns (accumulated: real, power: Option<real>, energy: Option<real>)
      requires Valid()
      ensures accumulated == Accumulated(Abs(), phaseCount)
      ensures power == PowerCorrection(mean.power, TotalVi(w, phaseCount))
      ensures energy == Correction(Abs(), mean.totalEnergy, w, phaseCount)
    {
      var energyDelta := Delta(Abs(), mean.totalEnergy);
      var totalVi := w.vi1 + w.vi2;
      var e1 := GetEnergyValue(0);
      var e2 := GetEnergyValue(1);
      accumulated := e1 + e2;
      if phaseCount > 2 {
        var e3 := GetEnergyValue(2);
        accumulated := accumulated + e3;
        totalVi := totalVi + w.vi3;
      }
      assert totalVi == TotalVi(w, phaseCount);
      power, energy := Some(0.0), Some(0.0);
      if totalVi > 0.0 {
        power := match mean.power case None => None case Some(p) => Some(p / totalVi);
        energy := match energyDelta case None => None case Some(d) => Some(d / totalVi);
      }
    }

    /** process(ThreePhasesInverterData): the accounts are those of one update, and the power is apportioned. */
    method ProcessThreePhases(data: ThreePhasesInverterData)
      requires Valid() && phaseCount > 1
      modifies this`lines, this`mPreviousTotalEnergy
      ensures Valid()
      ensures Abs() == Update(old(Abs()), phaseCount,
                              Weights(data.acVoltagePhase1 * data.acCurrentPhase1, data.acVoltagePhase2 * data.acCurrentPhase2,
                                      data.acVoltagePhase3 * data.acCurrentPhase3), mean.totalEnergy)
      ensures Apportioned(mean.power, phaseCount > 2,
                          data.acVoltagePhase1 * data.acCurrentPhase1, data.acVoltagePhase2 * data.acCurrentPhase2,
                          data.acVoltagePhase3 * data.acCurrentPhase3, lines[0].power, lines[1].power, lines[2].power)
      ensures lines[0].current == Some(data.acCurrentPhase1) && lines[0].voltage == Some(data.acVoltagePhase1)
      ensures lines[1].current == Some(data.acCurrentPhase2) && lines[1].voltage == Some(data.acVoltagePhase2)
      ensures if phaseCount == 2 then lines[2] == old(lines)[2]
              else lines[2].current == Some(data.acCurrentPhase3) && lines[2].voltage == Some(data.acVoltagePhase3)
    {
      hide NewEnergy, Accumulated, Correction, PowerCorrection, Scale, Growth, Apportioned, TotalVi;
      var w := WeightsOf(data);
      var accumulated, power, energy := Corrections(w);
      SetLine(0, data.acCurrentPhase1, data.acVoltagePhase1, Scale(power, w.vi1), accumulated, Growth(0, w, energy));
      ghost var one := Abs();
      SetLine(1, data.acCurrentPhase2, data.acVoltagePhase2, Scale(power, w.vi2), accumulated, Growth(1, w, energy));
      SameEnergy(old(Abs()), one, 1, phaseCount, accumulated, Growth(1, w, energy));
      if phaseCount > 2 {
        ghost var two := Abs();
        SetLine(2, data.acCurrentPhase3, data.acVoltagePhase3, Scale(power, w.vi3), accumulated, Growth(2, w, energy));
        SameEnergy(old(Abs()), two, 2, phaseCount, accumulated, Growth(2, w, energy));
      }
      mPreviousTotalEnergy := mean.totalEnergy;
      PowerIsTotal(mean.power, phaseCount, w, lines[0].power, lines[1].power, lines[2].power);
      assert w == Weights(data.acVoltagePhase1 * data.acCurrentPhase1, data.acVoltagePhase2 * data.acCurrentPhase2,
                          data.acVoltagePhase3 * data.acCurrentPhase3);
    }

    method UpdateEnergySettings()
      requires Valid()
      modifies this`settingsEnergy
      ensures Valid() && Abs() == Save(old(Abs()))
    {
      var i := 0;
      while i < 3
        invariant 0 <= i <= 3 && Valid()
        invariant forall j: nat | j < 3 ::
                    settingsEnergy[j] == if j < i then SavedEnergy(old(Abs()), j) else old(settingsEnergy)[j]
      {
        var e := lines[i].totalEnergy;
        if e.Some? && e.value != 0.0 {
          settingsEnergy := settingsEnergy[i := e.value];
        }
        i := i + 1;
      }
    }
  }

  /** What is set for one phase does not depend on what was set for another. */
  lemma SameEnergy(a: Accounts, b: Accounts, i: nat, n: nat, accumulated: real, growth: Option<real>)
    requires EnergyModel.Valid(a) && EnergyModel.Valid(b) && i < 3 && n > 0
    requires a.previous == b.previous && a.settings == b.settings && a.lines[i] == b.lines[i]
    ensures NewEnergy(a, i, n, accumulated, growth) == NewEnergy(b, i, n, accumulated, growth)
  {
    hide Share;
  }
}
