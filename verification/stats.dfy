/** `calcAverage` and `calcMinMax`: summary statistics over a list of readings. */
module Stats {
  import opened Wrappers

  /** The part of a record the statistics look at. */
  datatype Reading = Reading(systolic: int, diastolic: int, pulse: Option<int>)

  datatype Average = Average(avgSystolic: real, avgDiastolic: real, avgPulse: Option<real>)

  datatype Extremes = Extremes(
    maxSystolic: int, minSystolic: int,
    maxDiastolic: int, minDiastolic: int,
    maxPulse: Option<int>, minPulse: Option<int>)

  // ----- sums and counts, element by element from the front -----

  function SumSystolic(rs: seq<Reading>): int {
    if |rs| == 0 then 0 else SumSystolic(rs[..|rs| - 1]) + rs[|rs| - 1].systolic
  }

  function SumDiastolic(rs: seq<Reading>): int {
    if |rs| == 0 then 0 else SumDiastolic(rs[..|rs| - 1]) + rs[|rs| - 1].diastolic
  }

  /** Sum of the pulses that are present. */
  function SumPulse(rs: seq<Reading>): int {
    if |rs| == 0 then 0 else SumPulse(rs[..|rs| - 1]) + rs[|rs| - 1].pulse.GetOr(0)
  }

  predicate HasPulse(rs: seq<Reading>) {
    exists i | 0 <= i < |rs| :: rs[i].pulse.Some?
  }

  /** Number of readings that carry a pulse. */
  function PulseCount(rs: seq<Reading>): (n: nat)
    ensures n <= |rs|
    ensures n == 0 <==> !HasPulse(rs)
  {
    if |rs| == 0 then 0
    else
      var n := PulseCount(rs[..|rs| - 1]) + (if rs[|rs| - 1].pulse.Some? then 1 else 0);
      assert forall i | 0 <= i < |rs| - 1 :: rs[..|rs| - 1][i] == rs[i];
      n
  }

  // ----- rounding -----

  /** `r` is a whole number of tenths. */
  predicate IsTenth(r: real) {
    (r * 10.0).Floor as real == r * 10.0
  }

  /** `r` is `sum / n` rounded to the nearest tenth, halves rounded up. */
  predicate IsRoundedMean(r: real, sum: int, n: int) {
    n > 0 && IsTenth(r) && r - 0.05 <= sum as real / n as real < r + 0.05
  }

  /** `Math.round(x)` on exact values: the nearest integer, halves rounded up. */
  function RoundHalfUp(x: real): (k: int)
    ensures k as real - 0.5 <= x < k as real + 0.5
  {
    (x + 0.5).Floor
  }

  /** `Math.round(sum / n * 10) / 10`, computed exactly. */
  function MeanToTenth(sum: int, n: nat): (r: real)
    requires n > 0
    ensures IsRoundedMean(r, sum, n)
  {
    var x := sum as real / n as real;
    var k := RoundHalfUp(x * 10.0);
    var r := k as real / 10.0;
    assert r * 10.0 == k as real;
    r
  }

  /** The rounding rule pins the result down: two tenths that both round the
      same mean are equal. */
  lemma RoundedMeanUnique(a: real, b: real, sum: int, n: int)
    requires IsRoundedMean(a, sum, n) && IsRoundedMean(b, sum, n)
    ensures a == b
  {
    var ka := (a * 10.0).Floor;
    var kb := (b * 10.0).Floor;
    assert ka as real - kb as real < 1.0 && kb as real - ka as real < 1.0;
    assert ka == kb;
  }

  // ----- calcAverage -----

  /** `calcAverage`: nothing for a missing or empty list; otherwise the rounded
      mean systolic and diastolic over all readings, and the rounded mean pulse
      over the readings that have one (nothing when none has). */
  function CalcAverage(records: Option<seq<Reading>>): (r: Option<Average>)
    ensures r.None? <==> records.None? || |records.value| == 0
    ensures r.Some? ==>
              var rs := records.value;
              && IsRoundedMean(r.value.avgSystolic, SumSystolic(rs), |rs|)
              && IsRoundedMean(r.value.avgDiastolic, SumDiastolic(rs), |rs|)
              && (r.value.avgPulse.None? <==> !HasPulse(rs))
              && (r.value.avgPulse.Some? ==>
                    IsRoundedMean(r.value.avgPulse.value, SumPulse(rs), PulseCount(rs)))
  {
    if records.None? || |records.value| == 0 then None
    else
      var rs := records.value;
      var n := |rs|;
      var pulseCount := PulseCount(rs);
      Some(Average(
        MeanToTenth(SumSystolic(rs), n),
        MeanToTenth(SumDiastolic(rs), n),
        if pulseCount > 0 then Some(MeanToTenth(SumPulse(rs), pulseCount)) else None))
  }

  /** The averages of the unit tests: 120/80 and 130/85 average to 125 and
      82.5 with no pulse; an empty or missing list gives nothing. */
  lemma AverageExamples()
    ensures CalcAverage(Some([Reading(120, 80, None), Reading(130, 85, None)]))
            == Some(Average(125.0, 82.5, None))
    ensures CalcAverage(Some([])) == None && CalcAverage(None) == None
  {
    var a := [Reading(120, 80, None), Reading(130, 85, None)];
    assert a[..1] == [Reading(120, 80, None)];
    assert SumSystolic(a) == 250 && SumDiastolic(a) == 165;
    assert 250 as real / 2 as real == 125.0 && 165 as real / 2 as real == 82.5;
    RoundedMeanUnique(CalcAverage(Some(a)).value.avgSystolic, 125.0, 250, 2);
    RoundedMeanUnique(CalcAverage(Some(a)).value.avgDiastolic, 82.5, 165, 2);
  }

  /** Pulses 70 and 80 average to 75. */
  lemma AveragePulseExample()
    ensures CalcAverage(Some([Reading(120, 80, Some(70)), Reading(130, 85, Some(80))])).value.avgPulse
            == Some(75.0)
  {
    var b := [Reading(120, 80, Some(70)), Reading(130, 85, Some(80))];
    assert b[..1] == [Reading(120, 80, Some(70))];
    assert HasPulse(b) by { assert b[0].pulse.Some?; }
    assert SumPulse(b) == 150 && PulseCount(b) == 2;
    assert 150 as real / 2 as real == 75.0;
    RoundedMeanUnique(CalcAverage(Some(b)).value.avgPulse.value, 75.0, 150, 2);
  }

  /** A missing pulse is not counted: 70 and a missing pulse average to 70. */
  lemma AverageMissingPulseExample()
    ensures CalcAverage(Some([Reading(120, 80, Some(70)), Reading(130, 85, None)])).value.avgPulse
            == Some(70.0)
  {
    var c := [Reading(120, 80, Some(70)), Reading(130, 85, None)];
    assert c[..1] == [Reading(120, 80, Some(70))];
    assert HasPulse(c) by { assert c[0].pulse.Some?; }
    assert SumPulse(c) == 70 && PulseCount(c) == 1;
    RoundedMeanUnique(CalcAverage(Some(c)).value.avgPulse.value, 70.0, 70, 1);
  }

  // ----- calcMinMax -----

  /** `v` is the largest systolic value of `rs` and some reading has it; likewise below. */
  predicate IsMaxSystolic(rs: seq<Reading>, v: int) {
    (exists i | 0 <= i < |rs| :: rs[i].systolic == v) && forall i | 0 <= i < |rs| :: rs[i].systolic <= v
  }

  predicate IsMinSystolic(rs: seq<Reading>, v: int) {
    (exists i | 0 <= i < |rs| :: rs[i].systolic == v) && forall i | 0 <= i < |rs| :: v <= rs[i].systolic
  }

  predicate IsMaxDiastolic(rs: seq<Reading>, v: int) {
    (exists i | 0 <= i < |rs| :: rs[i].diastolic == v) && forall i | 0 <= i < |rs| :: rs[i].diastolic <= v
  }

  predicate IsMinDiastolic(rs: seq<Reading>, v: int) {
    (exists i | 0 <= i < |rs| :: rs[i].diastolic == v) && forall i | 0 <= i < |rs| :: v <= rs[i].diastolic
  }

  /** The pulse extremes: absent exactly when no reading has a pulse, and
      otherwise attained by a reading and bounding every present pulse. */
  predicate IsPulseRange(rs: seq<Reading>, lo: Option<int>, hi: Option<int>) {
    && (lo.None? <==> !HasPulse(rs))
    && (hi.None? <==> !HasPulse(rs))
    && (hi.Some? ==>
          && (exists i | 0 <= i < |rs| :: rs[i].pulse == hi)
          && forall i | 0 <= i < |rs| && rs[i].pulse.Some? :: rs[i].pulse.value <= hi.value)
    && (lo.Some? ==>
          && (exists i | 0 <= i < |rs| :: rs[i].pulse == lo)
          && forall i | 0 <= i < |rs| && rs[i].pulse.Some? :: lo.value <= rs[i].pulse.value)
  }

  /** `e` holds the extremes of the non-empty list `rs`. */
  predicate Summarizes(rs: seq<Reading>, e: Extremes) {
    && IsMaxSystolic(rs, e.maxSystolic) && IsMinSystolic(rs, e.minSystolic)
    && IsMaxDiastolic(rs, e.maxDiastolic) && IsMinDiastolic(rs, e.minDiastolic)
    && IsPulseRange(rs, e.minPulse, e.maxPulse)
  }

  /** The extremes after the first reading. */
  function Seed(r: Reading): (e: Extremes)
    ensures Summarizes([r], e)
  {
    var rs := [r];
    assert rs[0] == r;
    Extremes(r.systolic, r.systolic, r.diastolic, r.diastolic, r.pulse, r.pulse)
  }

  /** One step of the scan: widen each extreme to include `r`. */
  function Widen(e: Extremes, r: Reading): Extremes {
    Extremes(
      if r.systolic > e.maxSystolic then r.systolic else e.maxSystolic,
      if r.systolic < e.minSystolic then r.systolic else e.minSystolic,
      if r.diastolic > e.maxDiastolic then r.diastolic else e.maxDiastolic,
      if r.diastolic < e.minDiastolic then r.diastolic else e.minDiastolic,
      if r.pulse.Some? && (e.maxPulse.None? || r.pulse.value > e.maxPulse.value) then r.pulse else e.maxPulse,
      if r.pulse.Some? && (e.minPulse.None? || r.pulse.value < e.minPulse.value) then r.pulse else e.minPulse)
  }

  lemma WidenSystolic(rs: seq<Reading>, e: Extremes, r: Reading)
    requires IsMaxSystolic(rs, e.maxSystolic) && IsMinSystolic(rs, e.minSystolic)
    ensures IsMaxSystolic(rs + [r], Widen(e, r).maxSystolic)
    ensures IsMinSystolic(rs + [r], Widen(e, r).minSystolic)
  {
    var rs' := rs + [r];
    assert rs'[|rs|] == r;
    assert forall i | 0 <= i < |rs| :: rs'[i] == rs[i];
  }

  lemma WidenDiastolic(rs: seq<Reading>, e: Extremes, r: Reading)
    requires IsMaxDiastolic(rs, e.maxDiastolic) && IsMinDiastolic(rs, e.minDiastolic)
    ensures IsMaxDiastolic(rs + [r], Widen(e, r).maxDiastolic)
    ensures IsMinDiastolic(rs + [r], Widen(e, r).minDiastolic)
  {
    var rs' := rs + [r];
    assert rs'[|rs|] == r;
    assert forall i | 0 <= i < |rs| :: rs'[i] == rs[i];
  }

  lemma WidenPulse(rs: seq<Reading>, e: Extremes, r: Reading)
    requires IsPulseRange(rs, e.minPulse, e.maxPulse)
    ensures IsPulseRange(rs + [r], Widen(e, r).minPulse, Widen(e, r).maxPulse)
  {
    var rs' := rs + [r];
    assert rs'[|rs|] == r;
    assert forall i | 0 <= i < |rs| :: rs'[i] == rs[i];
    assert HasPulse(rs') <==> HasPulse(rs) || r.pulse.Some?;
  }

  /** The single linear scan of `calcMinMax` over a non-empty list. */
  function Scan(rs: seq<Reading>): (e: Extremes)
    requires |rs| > 0
    ensures Summarizes(rs, e)
  {
    if |rs| == 1 then Seed(rs[0])
    else
      var init := rs[..|rs| - 1];
      var last := rs[|rs| - 1];
      var e := Scan(init);
      assert rs == init + [last];
      WidenSystolic(init, e, last);
      WidenDiastolic(init, e, last);
      WidenPulse(init, e, last);
      Widen(e, last)
  }

  /** `calcMinMax`: nothing for a missing or empty list; otherwise, per field,
      the largest and smallest value, each attained by some reading. */
  function CalcMinMax(records: Option<seq<Reading>>): (r: Option<Extremes>)
    ensures r.None? <==> records.None? || |records.value| == 0
    ensures r.Some? ==>
              var rs := records.value;
              && IsMaxSystolic(rs, r.value.maxSystolic) && IsMinSystolic(rs, r.value.minSystolic)
              && IsMaxDiastolic(rs, r.value.maxDiastolic) && IsMinDiastolic(rs, r.value.minDiastolic)
              && IsPulseRange(rs, r.value.minPulse, r.value.maxPulse)
  {
    if records.None? || |records.value| == 0 then None else Some(Scan(records.value))
  }

  /** Each minimum is at most the matching maximum. */
  lemma MinAtMostMax(rs: seq<Reading>)
    requires |rs| > 0
    ensures var e := CalcMinMax(Some(rs)).value;
            && e.minSystolic <= e.maxSystolic
            && e.minDiastolic <= e.maxDiastolic
            && (e.maxPulse.Some? ==> e.minPulse.value <= e.maxPulse.value)
  {
    var e := CalcMinMax(Some(rs)).value;
    if e.maxPulse.Some? {
      var i :| 0 <= i < |rs| && rs[i].pulse == e.maxPulse;
    }
  }

  /** The extremes of the unit tests without pulses. */
  lemma MinMaxExamples()
    ensures CalcMinMax(Some([Reading(120, 80, None), Reading(140, 90, None)]))
            == Some(Extremes(140, 120, 90, 80, None, None))
    ensures CalcMinMax(Some([])) == None
  {
    var a := [Reading(120, 80, None), Reading(140, 90, None)];
    assert a[..1] == [Reading(120, 80, None)];
  }

  /** The extremes of the unit test with pulses. */
  lemma MinMaxPulseExample()
    ensures CalcMinMax(Some([Reading(120, 80, Some(70)), Reading(140, 90, Some(85))]))
            == Some(Extremes(140, 120, 90, 80, Some(85), Some(70)))
  {
    var b := [Reading(120, 80, Some(70)), Reading(140, 90, Some(85))];
    assert b[..1] == [Reading(120, 80, Some(70))];
  }
}
