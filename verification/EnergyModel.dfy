/** How DataProcessor (data_processor.cpp) apportions the total energy to the phases, in exact arithmetic. */
module EnergyModel {
  import opened Modbus

  /**
   What the next update depends on: the total energy at the last one (negative if there was none, None if
   it was no number), the published energies of L1, L2 and L3, and the ones in the settings.
   */
  datatype Accounts = Accounts(previous: Option<real>, lines: seq<Option<real>>, settings: seq<real>)

  predicate Valid(a: Accounts) {
    |a.lines| == 3 == |a.settings|
  }

  /** getEnergyValue: a published energy of zero, or none, makes place for the one of the settings. */
  function Effective(a: Accounts, i: nat): real
    requires Valid(a) && i < 3
  {
    if a.lines[i].Some? && a.lines[i].value != 0.0 then a.lines[i].value else a.settings[i]
  }

  /** The sum over the phases of an inverter with n of them. */
  function Sum(n: nat, x: real, y: real, z: real): real {
    x + y + if n > 2 then z else 0.0
  }

  function Accumulated(a: Accounts, n: nat): real
    requires Valid(a)
  {
    Sum(n, Effective(a, 0), Effective(a, 1), Effective(a, 2))
  }

  function Published(a: Accounts, n: nat): real
    requires Valid(a) && AllPublished(a, n)
  {
    Sum(n, a.lines[0].value, a.lines[1].value, if n > 2 then a.lines[2].value else 0.0)
  }

  predicate AllPublished(a: Accounts, n: nat)
    requires Valid(a)
  {
    a.lines[0].Some? && a.lines[1].Some? && (n > 2 ==> a.lines[2].Some?)
  }

  /** The product of voltage and current of each phase. */
  datatype Weights = Weights(vi1: real, vi2: real, vi3: real)

  function TotalVi(w: Weights, n: nat): real {
    Sum(n, w.vi1, w.vi2, w.vi3)
  }

  function WeightOf(w: Weights, i: nat): real {
    if i == 0 then w.vi1 else if i == 1 then w.vi2 else w.vi3
  }

  predicate NonNegative(w: Weights) {
    w.vi1 >= 0.0 && w.vi2 >= 0.0 && w.vi3 >= 0.0
  }

  /** By how much the total has grown; None if one of the totals is no number. */
  function Delta(a: Accounts, total: Option<real>): Option<real> {
    if a.previous == None || total == None then None
    else if total.value - a.previous.value < 0.0 then Some(0.0)
    else Some(total.value - a.previous.value)
  }

  function Correction(a: Accounts, total: Option<real>, w: Weights, n: nat): Option<real> {
    if TotalVi(w, n) > 0.0 then
      match Delta(a, total)
      case None => None
      case Some(d) => Some(d / TotalVi(w, n))
    else Some(0.0)
  }

  /** updateEnergyValue: the new energy of a phase. */
  function NewEnergy(a: Accounts, i: nat, n: nat, accumulated: real, growth: Option<real>): Option<real>
    requires Valid(a) && i < 3 && n > 0
  {
    if a.previous.Some? && a.previous.value < 0.0 then a.lines[i]
    else if a.previous == None || growth == None then None
    else Some(ShareOfPrevious(a, i, n, accumulated) + growth.value)
  }

  /** The weighted fraction of the total p that belongs to e out of t. */
  function Share(p: real, e: real, t: real): real
    requires t > 0.0
  {
    p * e / t
  }

  /** The share of a phase in the previous total: by its energy, or the same for each phase. */
  function ShareOfPrevious(a: Accounts, i: nat, n: nat, accumulated: real): real
    requires Valid(a) && i < 3 && n > 0 && a.previous.Some?
  {
    if accumulated > 0.0 then Share(a.previous.value, Effective(a, i), accumulated) else a.previous.value / n as real
  }

  function Growth(i: nat, w: Weights, correction: Option<real>): Option<real> {
    match correction
    case None => None
    case Some(c) => Some(Part(w, i, c))
  }

  /** vi * energyCorrection. */
  function Part(w: Weights, i: nat, c: real): real {
    WeightOf(w, i) * c
  }

  function NewLine(a: Accounts, i: nat, n: nat, w: Weights, total: Option<real>): Option<real>
    requires Valid(a) && i < 3 && n > 0
  {
    NewEnergy(a, i, n, Accumulated(a, n), Growth(i, w, Correction(a, total, w, n)))
  }

  /** Phase i is one of the n of the inverter. */
  predicate Counts(i: nat, n: nat) {
    i < 2 || (i == 2 && n > 2)
  }

  /** One call of process with the data of a reading. */
  function Update(a: Accounts, n: nat, w: Weights, total: Option<real>): (b: Accounts)
    requires Valid(a) && n > 1
    ensures Valid(b)
  {
    Accounts(total,
             [NewLine(a, 0, n, w, total), NewLine(a, 1, n, w, total),
              if n > 2 then NewLine(a, 2, n, w, total) else a.lines[2]],
             a.settings)
  }

  /** updateEnergySettings. */
  function Save(a: Accounts): (b: Accounts)
    requires Valid(a)
    ensures Valid(b)
  {
    a.(settings := [SavedEnergy(a, 0), SavedEnergy(a, 1), SavedEnergy(a, 2)])
  }

  function SavedEnergy(a: Accounts, i: nat): real
    requires Valid(a) && i < 3
  {
    Effective(a, i)
  }

  // ---- The sum of the phases. ----

  lemma Scaled(p: real, e: real, a: real)
    requires a > 0.0
    ensures p * e / a == (p / a) * e
  {
    var q := p / a;
    assert p == q * a;
    assert p * e == (q * e) * a;
  }

  lemma Shares(p: real, x: real, y: real, z: real, a: real)
    requires a > 0.0 && x + y + z == a
    ensures Share(p, x, a) + Share(p, y, a) + Share(p, z, a) == p
    ensures z == 0.0 ==> Share(p, z, a) == 0.0
  {
    Scaled(p, x, a);
    Scaled(p, y, a);
    Scaled(p, z, a);
    var q := p / a;
    assert q * x + q * y + q * z == q * (x + y + z);
    assert q * a == p;
  }

  lemma SharesOfGrowth(d: real, w: Weights, n: nat)
    requires TotalVi(w, n) > 0.0
    ensures var c := d / TotalVi(w, n); Sum(n, w.vi1 * c, w.vi2 * c, w.vi3 * c) == d
  {
    var t := TotalVi(w, n);
    var c := d / t;
    assert c * t == d;
    if n > 2 {
      assert w.vi1 * c + w.vi2 * c + w.vi3 * c == (w.vi1 + w.vi2 + w.vi3) * c;
    } else {
      assert w.vi1 * c + w.vi2 * c == (w.vi1 + w.vi2) * c;
    }
  }

  predicate Known(a: Accounts, total: Option<real>) {
    a.previous.Some? && a.previous.value >= 0.0 && total.Some?
  }

  /** What an update adds to the sum of the phases: the growth of the total, if there is power to go by. */
  function Added(a: Accounts, n: nat, w: Weights, total: Option<real>): real
    requires Known(a, total)
  {
    if TotalVi(w, n) > 0.0 then Delta(a, total).value else 0.0
  }

  lemma SharesSumUp(a: Accounts, n: nat)
    requires Valid(a) && (n == 2 || n == 3) && a.previous.Some?
    ensures var t := Accumulated(a, n);
            Sum(n, ShareOfPrevious(a, 0, n, t), ShareOfPrevious(a, 1, n, t), ShareOfPrevious(a, 2, n, t))
            == a.previous.value
  {
    hide Effective, Share;
    var t := Accumulated(a, n);
    if t > 0.0 {
      Shares(a.previous.value, Effective(a, 0), Effective(a, 1), if n > 2 then Effective(a, 2) else 0.0, t);
    } else if n == 2 {
      assert n as real == 2.0;
    } else {
      assert n as real == 3.0;
    }
  }

  /** With known totals each phase gets its share of the previous total and its share of the growth. */
  lemma LineIs(a: Accounts, n: nat, w: Weights, total: Option<real>, i: nat)
    requires Valid(a) && n > 1 && Known(a, total) && i < 3 && Counts(i, n)
    ensures var c := Correction(a, total, w, n);
            c.Some? && Update(a, n, w, total).lines[i]
                       == Some(ShareOfPrevious(a, i, n, Accumulated(a, n)) + Part(w, i, c.value))
  {
    hide ShareOfPrevious, Accumulated, Part;
    assert Update(a, n, w, total).lines[i] == NewLine(a, i, n, w, total);
  }

  /**
   Whatever was published before, an update makes the energies of the phases sum up to the last total plus
   what it adds: errors of the past do not accumulate.
   */
  lemma SumOfPhases(a: Accounts, n: nat, w: Weights, total: Option<real>)
    requires Valid(a) && (n == 2 || n == 3) && Known(a, total)
    ensures var b := Update(a, n, w, total);
            AllPublished(b, n) && Published(b, n) == a.previous.value + Added(a, n, w, total)
  {
    hide Update, ShareOfPrevious, Accumulated, Correction;
    SharesSumUp(a, n);
    LineIs(a, n, w, total, 0);
    LineIs(a, n, w, total, 1);
    if n > 2 {
      LineIs(a, n, w, total, 2);
    }
    GrowthSumsUp(a, n, w, total);
  }

  lemma GrowthSumsUp(a: Accounts, n: nat, w: Weights, total: Option<real>)
    requires Known(a, total)
    ensures var c := Correction(a, total, w, n);
            c.Some? && Sum(n, Part(w, 0, c.value), Part(w, 1, c.value), Part(w, 2, c.value)) == Added(a, n, w, total)
  {
    if TotalVi(w, n) > 0.0 {
      SharesOfGrowth(Delta(a, total).value, w, n);
    }
  }

  /**
   The phases sum up to the total if and only if the total has not changed, or has grown while there is
   power on a phase.
   */
  lemma SumIsTotal(a: Accounts, n: nat, w: Weights, total: Option<real>)
    requires Valid(a) && (n == 2 || n == 3) && Known(a, total)
    ensures var b := Update(a, n, w, total);
            AllPublished(b, n) &&
            (Published(b, n) == total.value <==>
             total == a.previous || (total.value > a.previous.value && TotalVi(w, n) > 0.0))
  {
    hide Published, Update;
    SumOfPhases(a, n, w, total);
  }

  lemma Proportion(p: real, t: real, v: real)
    requires t > 0.0
    ensures v * (p / t) * t == p * v == (p / t) * v * t
  {
    var c := p / t;
    assert c * t == p;
    assert v * c * t == v * (c * t);
  }

  /** The growth of the total: none if it went down. */
  function Grown(previous: real, total: real): real {
    if total > previous then total - previous else 0.0
  }

  /** The first reading only notes the total; with a total that is no number, neither are the energies of the phases. */
  lemma FirstAndInvalid(a: Accounts, n: nat, w: Weights, total: Option<real>)
    requires Valid(a) && (n == 2 || n == 3)
    ensures var b := Update(a, n, w, total);
            && b.previous == total && b.settings == a.settings
            && (a.previous.Some? && a.previous.value < 0.0 ==> b.lines == a.lines)
            && ((a.previous == None || (total == None && a.previous.value >= 0.0 && TotalVi(w, n) > 0.0)) ==>
                  forall i | 0 <= i < n :: b.lines[i] == None)
            && (n == 2 ==> b.lines[2] == a.lines[2])
  {
  }

  /** v is the part of phase i in a sum x + y, or x + y + z if there are three phases. */
  predicate IsPart(v: real, i: nat, x: real, y: real, z: real)
    requires i < 3
  {
    v == [x, y, z][i]
  }

  /** growth is to that of the total as v is to the sum of the parts. */
  predicate IsGrowth(growth: real, previous: real, total: real, n: nat, w: Weights, v: real) {
    var sum := w.vi1 + w.vi2 + if n == 3 then w.vi3 else 0.0;
    if sum > 0.0 then growth * sum == Grown(previous, total) * v else growth == 0.0
  }

  /**
   Beside its share of the previous total, by the energies before it, each phase gets its part of the growth:
   the growth is to the part as the sum of all V * I is to that of the phase.
   */
  lemma GrowthIsApportioned(a: Accounts, n: nat, w: Weights, total: Option<real>, i: nat, v: real, before: real)
    requires Valid(a) && (n == 2 || n == 3) && Known(a, total) && i < n && IsPart(v, i, w.vi1, w.vi2, w.vi3)
    requires before == Effective(a, 0) + Effective(a, 1) + (if n == 3 then Effective(a, 2) else 0.0)
    ensures Update(a, n, w, total).lines[i].Some?
    ensures IsGrowth(Update(a, n, w, total).lines[i].value - ShareByEnergy(a, n, i, before),
                     a.previous.value, total.value, n, w, v)
  {
    hide Update, Part, Correction, ShareOfPrevious, ShareByEnergy, IsPart, IsGrowth, Accumulated;
    LineIs(a, n, w, total, i);
    PartIs(a, n, w, total, i, v);
    ShareIs(a, n, i, before);
  }

  /** The share of a phase in the previous total: as its energy is to the sum of the energies before, if there is one. */
  function ShareByEnergy(a: Accounts, n: nat, i: nat, before: real): real
    requires Valid(a) && i < 3 && n > 0 && a.previous.Some?
  {
    if before > 0.0 then a.previous.value * Effective(a, i) / before else a.previous.value / n as real
  }

  lemma ShareIs(a: Accounts, n: nat, i: nat, before: real)
    requires Valid(a) && (n == 2 || n == 3) && i < 3 && a.previous.Some?
    requires before == Effective(a, 0) + Effective(a, 1) + (if n == 3 then Effective(a, 2) else 0.0)
    ensures ShareOfPrevious(a, i, n, Accumulated(a, n)) == ShareByEnergy(a, n, i, before)
  {
    hide Effective;
    assert before == Accumulated(a, n);
  }

  lemma PartIs(a: Accounts, n: nat, w: Weights, total: Option<real>, i: nat, v: real)
    requires (n == 2 || n == 3) && Known(a, total) && i < n && IsPart(v, i, w.vi1, w.vi2, w.vi3)
    ensures var c := Correction(a, total, w, n);
            c.Some? && IsGrowth(Part(w, i, c.value), a.previous.value, total.value, n, w, v)
  {
    hide Part;
    var sum := w.vi1 + w.vi2 + if n == 3 then w.vi3 else 0.0;
    assert sum == TotalVi(w, n);
    var c := Correction(a, total, w, n);
    PartOf(w, i, c.value, v);
    if sum > 0.0 {
      Proportion(Grown(a.previous.value, total.value), sum, v);
    }
  }

  lemma PartOf(w: Weights, i: nat, c: real, v: real)
    requires i < 3 && IsPart(v, i, w.vi1, w.vi2, w.vi3)
    ensures Part(w, i, c) == v * c
  {
  }

  // ---- When the phases are in step with the total. ----

  /** Every phase is published, is what the next update goes by, and the phases sum up to the total. */
  predicate Synced(a: Accounts, n: nat)
    requires Valid(a)
  {
    && AllPublished(a, n)
    && (forall i | 0 <= i < 3 && Counts(i, n) :: a.lines[i].value >= 0.0 && Effective(a, i) == a.lines[i].value)
    && a.previous == Some(Published(a, n))
  }

  /** A reading that does not disturb: the total has not changed, or has grown while there is power. */
  predicate Regular(a: Accounts, n: nat, w: Weights, total: Option<real>) {
    Known(a, total) && NonNegative(w) &&
    (total == a.previous || (total.value > a.previous.value && TotalVi(w, n) > 0.0))
  }

  lemma Whole(x: real, e: real)
    requires x > 0.0
    ensures Share(x, e, x) == e
  {
    assert x * e == e * x;
  }

  lemma StepShare(a: Accounts, n: nat, i: nat)
    requires Valid(a) && (n == 2 || n == 3) && Synced(a, n) && i < 3 && Counts(i, n)
    ensures ShareOfPrevious(a, i, n, Accumulated(a, n)) == a.lines[i].value
  {
    hide Share;
    var p := a.previous.value;
    assert Counts(0, n) && Counts(1, n) && (n > 2 ==> Counts(2, n));
    assert Accumulated(a, n) == p >= a.lines[i].value >= 0.0;
    if p > 0.0 {
      Whole(p, a.lines[i].value);
    }
  }

  /** In step, the normalising form is the simple increment by the share of the phase. */
  lemma SimpleIncrement(a: Accounts, n: nat, w: Weights, total: Option<real>, i: nat)
    requires Valid(a) && (n == 2 || n == 3) && Synced(a, n) && Regular(a, n, w, total) && i < 3 && Counts(i, n)
    ensures var c := Correction(a, total, w, n);
            c.Some? && c.value >= 0.0 &&
            Update(a, n, w, total).lines[i] == Some(a.lines[i].value + Part(w, i, c.value))
  {
    hide Update, Synced;
    StepShare(a, n, i);
    LineIs(a, n, w, total, i);
    if TotalVi(w, n) > 0.0 {
      QuotientIsNonNegative(Delta(a, total).value, TotalVi(w, n));
    }
  }

  lemma QuotientIsNonNegative(x: real, y: real)
    requires x >= 0.0 && y > 0.0
    ensures x / y >= 0.0
  {
  }

  lemma ProductIsNonNegative(x: real, y: real)
    requires x >= 0.0 && y >= 0.0
    ensures x * y >= 0.0
  {
  }

  /** A regular reading keeps the phases in step, and no phase loses energy. */
  lemma RegularKeepsStep(a: Accounts, n: nat, w: Weights, total: Option<real>)
    requires Valid(a) && (n == 2 || n == 3) && Synced(a, n) && Regular(a, n, w, total)
    ensures var b := Update(a, n, w, total);
            Synced(b, n) && forall i | 0 <= i < 3 && Counts(i, n) :: b.lines[i].value >= a.lines[i].value
  {
    var b := Update(a, n, w, total);
    SumIsTotal(a, n, w, total);
    hide Update, Published, Correction;
    forall i: nat | i < 3 && Counts(i, n)
      ensures b.lines[i].value >= a.lines[i].value && Effective(b, i) == b.lines[i].value
    {
      LineGrows(a, n, w, total, i);
    }
    assert b.previous == total by { SettingsStay(a, n, w, total); }
  }

  lemma LineGrows(a: Accounts, n: nat, w: Weights, total: Option<real>, i: nat)
    requires Valid(a) && (n == 2 || n == 3) && Synced(a, n) && Regular(a, n, w, total) && i < 3 && Counts(i, n)
    ensures var b := Update(a, n, w, total);
            b.lines[i].Some? && b.lines[i].value >= a.lines[i].value && Effective(b, i) == b.lines[i].value
  {
    hide Update, Correction;
    SimpleIncrement(a, n, w, total, i);
    ProductIsNonNegative(WeightOf(w, i), Correction(a, total, w, n).value);
    SettingsStay(a, n, w, total);
  }

  lemma SettingsStay(a: Accounts, n: nat, w: Weights, total: Option<real>)
    requires Valid(a) && n > 1
    ensures Update(a, n, w, total).settings == a.settings && Update(a, n, w, total).previous == total
  {
  }

  lemma SaveKeepsStep(a: Accounts, n: nat)
    requires Valid(a)
    ensures Save(a).lines == a.lines && forall i | 0 <= i < 3 :: Effective(Save(a), i) == Effective(a, i)
    ensures Synced(a, n) ==> Synced(Save(a), n)
  {
  }

  // ---- Runs. ----

  datatype Event = Reading(w: Weights, total: Option<real>) | SaveSettings

  datatype Trace = Start(a: Accounts) | Then(before: Trace, event: Event)

  function AccountsOf(t: Trace, n: nat): (a: Accounts)
    requires n > 1 && Valid(First(t))
    ensures Valid(a)
  {
    match t
    case Start(a) => a
    case Then(before, Reading(w, total)) => Update(AccountsOf(before, n), n, w, total)
    case Then(before, SaveSettings) => Save(AccountsOf(before, n))
  }

  function First(t: Trace): Accounts {
    match t
    case Start(a) => a
    case Then(before, _) => First(before)
  }

  predicate AllRegular(t: Trace, n: nat)
    requires n > 1 && Valid(First(t))
  {
    match t
    case Start(_) => true
    case Then(before, Reading(w, total)) => AllRegular(before, n) && Regular(AccountsOf(before, n), n, w, total)
    case Then(before, SaveSettings) => AllRegular(before, n)
  }

  /** Once in step, the phases stay in step on every run of regular readings, and no phase ever loses energy. */
  lemma {:induction false} InStepOnEveryRun(t: Trace, n: nat)
    requires (n == 2 || n == 3) && Valid(First(t)) && Synced(First(t), n) && AllRegular(t, n)
    ensures var b := AccountsOf(t, n);
            && Synced(b, n)
            && forall i | 0 <= i < 3 && Counts(i, n) :: b.lines[i].value >= First(t).lines[i].value
  {
    hide Update, Save, Synced, Regular;
    match t
    case Start(_) =>
    case Then(before, Reading(w, total)) =>
      InStepOnEveryRun(before, n);
      RegularKeepsStep(AccountsOf(before, n), n, w, total);
    case Then(before, SaveSettings) =>
      InStepOnEveryRun(before, n);
      SaveKeepsStep(AccountsOf(before, n), n);
  }

  // ---- Where a phase loses energy. ----

  /**
   With phases that sum up to the total, a reading that changes nothing leaves every phase as it is if and
   only if no phase is published as zero while the settings hold another value for it.
   */
  lemma UnchangedTotal(a: Accounts, n: nat, w: Weights)
    requires Valid(a) && (n == 2 || n == 3) && AllPublished(a, n) && a.previous == Some(Published(a, n))
    requires a.previous.value > 0.0
    requires forall i | 0 <= i < 3 :: a.settings[i] >= 0.0 && (a.lines[i].Some? ==> a.lines[i].value >= 0.0)
    ensures (forall i | 0 <= i < 3 && Counts(i, n) :: Update(a, n, w, a.previous).lines[i] == a.lines[i])
            <==> forall i | 0 <= i < 3 && Counts(i, n) :: a.lines[i] == Some(0.0) ==> a.settings[i] == 0.0
  {
    hide Update, Sum, Share;
    var p, t := a.previous.value, Accumulated(a, n);
    var b := Update(a, n, w, a.previous);
    MoreAccumulated(a, n);
    forall i: nat | i < 3 && Counts(i, n)
      ensures b.lines[i] == Some(Share(p, Effective(a, i), t))
    {
      UnchangedLine(a, n, w, i);
    }
    if forall i | 0 <= i < 3 && Counts(i, n) :: a.lines[i] == Some(0.0) ==> a.settings[i] == 0.0 {
      forall i: nat | i < 3 && Counts(i, n) ensures b.lines[i] == a.lines[i] {
        Whole(p, Effective(a, i));
      }
    } else {
      var i: nat :| i < 3 && Counts(i, n) && a.lines[i] == Some(0.0) && a.settings[i] != 0.0;
      Positive(p, Effective(a, i), t);
      assert b.lines[i] != a.lines[i];
    }
  }

  lemma UnchangedLine(a: Accounts, n: nat, w: Weights, i: nat)
    requires Valid(a) && n > 1 && a.previous.Some? && a.previous.value >= 0.0 && Accumulated(a, n) > 0.0
    requires i < 3 && Counts(i, n)
    ensures Update(a, n, w, a.previous).lines[i] == Some(Share(a.previous.value, Effective(a, i), Accumulated(a, n)))
  {
    hide Update, Correction, Effective, Accumulated, Share;
    NoGrowth(a, n, w);
    assert Part(w, i, 0.0) == 0.0;
    LineIs(a, n, w, a.previous, i);
  }

  /** What an update goes by is at least what is published. */
  lemma MoreAccumulated(a: Accounts, n: nat)
    requires Valid(a) && (n == 2 || n == 3) && AllPublished(a, n)
    requires forall i | 0 <= i < 3 :: a.settings[i] >= 0.0 && (a.lines[i].Some? ==> a.lines[i].value >= 0.0)
    ensures Accumulated(a, n) >= Published(a, n)
    ensures (forall i | 0 <= i < 3 && Counts(i, n) :: a.lines[i] == Some(0.0) ==> a.settings[i] == 0.0)
            ==> Accumulated(a, n) == Published(a, n)
  {
    assert Counts(0, n) && Counts(1, n) && (n > 2 ==> Counts(2, n));
    forall i: nat | i < 3 && Counts(i, n) ensures Effective(a, i) >= a.lines[i].value {
    }
  }

  lemma Positive(x: real, y: real, z: real)
    requires x > 0.0 && y > 0.0 && z > 0.0
    ensures Share(x, y, z) > 0.0
  {
    Scaled(x, y, z);
    assert x / z > 0.0;
  }

  lemma NoGrowth(a: Accounts, n: nat, w: Weights)
    requires a.previous.Some?
    ensures Correction(a, a.previous, w, n) == Some(0.0)
  {
  }
}
