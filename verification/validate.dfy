/** `validateBPInput`: range and shape checks on a candidate measurement. */
module Validate {

  /** A JavaScript number as produced by `Number(...)`: not-a-number, or a
      finite value. */
  datatype JsNumber = NaN | Finite(value: real)

  /** One property of the validator's input object: `null`/`undefined`, the
      empty string, or a number. */
  datatype Field = Null | EmptyString | Num(n: JsNumber)

  datatype BPInput = BPInput(systolic: Field, diastolic: Field, pulse: Field, weight: Field)

  /** The messages the validator can collect. */
  datatype Error =
    | SystolicMissing
    | SystolicOutOfRange
    | DiastolicMissing
    | DiastolicOutOfRange
    | PulseOutOfRange
    | WeightOutOfRange
    | SystolicNotAboveDiastolic

  datatype Validation = Validation(valid: bool, errors: seq<Error>)

  /** The user-facing text of each message. */
  function Message(e: Error): string {
    match e
    case SystolicMissing => "最高血圧を入力してください"
    case SystolicOutOfRange => "最高血圧は50〜300の整数で入力してください"
    case DiastolicMissing => "最低血圧を入力してください"
    case DiastolicOutOfRange => "最低血圧は30〜200の整数で入力してください"
    case PulseOutOfRange => "脈拍は30〜250の整数で入力してください"
    case WeightOutOfRange => "体重は20〜300kgの範囲で入力してください"
    case SystolicNotAboveDiastolic => "最高血圧は最低血圧より大きい値にしてください"
  }

  /** Which of the five checks produces a message: systolic, diastolic,
      pulse, weight, then the cross-field check. */
  function CheckOf(e: Error): nat {
    match e
    case SystolicMissing => 0
    case SystolicOutOfRange => 0
    case DiastolicMissing => 1
    case DiastolicOutOfRange => 1
    case PulseOutOfRange => 2
    case WeightOutOfRange => 3
    case SystolicNotAboveDiastolic => 4
  }

  /** Messages appear in check order, at most one per check. */
  predicate InCheckOrder(errors: seq<Error>) {
    forall i, j | 0 <= i < j < |errors| :: CheckOf(errors[i]) < CheckOf(errors[j])
  }

  /** Neither `null`/`undefined` nor the empty string. */
  predicate Present(f: Field) {
    f.Num?
  }

  /** `Number.isInteger(n) && lo <= n && n <= hi`. */
  predicate IntegerIn(n: JsNumber, lo: int, hi: int) {
    && n.Finite?
    && n.value.Floor as real == n.value
    && lo as real <= n.value <= hi as real
  }

  /** `!isNaN(n) && lo <= n && n <= hi`. */
  predicate NumberIn(n: JsNumber, lo: int, hi: int) {
    n.Finite? && lo as real <= n.value <= hi as real
  }

  /** The conditions under which a measurement is acceptable, stated field by
      field: systolic an integer in [50, 300], diastolic an integer in
      [30, 200], pulse absent or an integer in [30, 250], weight absent or a
      number in [20, 300], and systolic strictly above diastolic. */
  predicate Acceptable(input: BPInput) {
    && Present(input.systolic) && IntegerIn(input.systolic.n, 50, 300)
    && Present(input.diastolic) && IntegerIn(input.diastolic.n, 30, 200)
    && (!Present(input.pulse) || IntegerIn(input.pulse.n, 30, 250))
    && (!Present(input.weight) || NumberIn(input.weight.n, 20, 300))
    && input.systolic.n.value > input.diastolic.n.value
  }

  /** True when every per-field check of `input` passes. */
  predicate FieldsPass(input: BPInput) {
    && Present(input.systolic) && IntegerIn(input.systolic.n, 50, 300)
    && Present(input.diastolic) && IntegerIn(input.diastolic.n, 30, 200)
    && (!Present(input.pulse) || IntegerIn(input.pulse.n, 30, 250))
    && (!Present(input.weight) || NumberIn(input.weight.n, 20, 300))
  }

  /** The systolic check: a missing value or a value outside the integers
      50..300 gives one message. */
  function SystolicCheck(f: Field): (r: seq<Error>)
    ensures |r| <= 1 && forall e | e in r :: CheckOf(e) == 0
    ensures SystolicMissing in r <==> !Present(f)
    ensures SystolicOutOfRange in r <==> Present(f) && !IntegerIn(f.n, 50, 300)
  {
    if !Present(f) then [SystolicMissing]
    else if !IntegerIn(f.n, 50, 300) then [SystolicOutOfRange]
    else []
  }

  /** The diastolic check: a missing value or a value outside the integers
      30..200 gives one message. */
  function DiastolicCheck(f: Field): (r: seq<Error>)
    ensures |r| <= 1 && forall e | e in r :: CheckOf(e) == 1
    ensures DiastolicMissing in r <==> !Present(f)
    ensures DiastolicOutOfRange in r <==> Present(f) && !IntegerIn(f.n, 30, 200)
  {
    if !Present(f) then [DiastolicMissing]
    else if !IntegerIn(f.n, 30, 200) then [DiastolicOutOfRange]
    else []
  }

  /** The pulse check: only a present value outside the integers 30..250 fails. */
  function PulseCheck(f: Field): (r: seq<Error>)
    ensures |r| <= 1 && forall e | e in r :: CheckOf(e) == 2
    ensures PulseOutOfRange in r <==> Present(f) && !IntegerIn(f.n, 30, 250)
  {
    if Present(f) && !IntegerIn(f.n, 30, 250) then [PulseOutOfRange] else []
  }

  /** The weight check: only a present value that is not a number in 20..300 fails. */
  function WeightCheck(f: Field): (r: seq<Error>)
    ensures |r| <= 1 && forall e | e in r :: CheckOf(e) == 3
    ensures WeightOutOfRange in r <==> Present(f) && !NumberIn(f.n, 20, 300)
  {
    if Present(f) && !NumberIn(f.n, 20, 300) then [WeightOutOfRange] else []
  }

  /** The messages of the four per-field checks, in check order; there are
      none exactly when every field passes. */
  function FieldErrors(input: BPInput): (r: seq<Error>)
    ensures |r| == 0 <==> FieldsPass(input)
    ensures InCheckOrder(r)
    ensures SystolicNotAboveDiastolic !in r
  {
    var s := SystolicCheck(input.systolic);
    var d := DiastolicCheck(input.diastolic);
    var p := PulseCheck(input.pulse);
    var w := WeightCheck(input.weight);
    assert CheckOf(SystolicNotAboveDiastolic) == 4;
    ConcatInCheckOrder(s, d);
    ConcatInCheckOrder(s + d, p);
    ConcatInCheckOrder(s + d + p, w);
    s + d + p + w
  }

  /** The blood-pressure fields' messages in the list: each appears exactly
      when its check fails. */
  lemma PressureErrors(input: BPInput)
    ensures var r := FieldErrors(input);
            && (SystolicMissing in r <==> !Present(input.systolic))
            && (SystolicOutOfRange in r <==>
                  Present(input.systolic) && !IntegerIn(input.systolic.n, 50, 300))
            && (DiastolicMissing in r <==> !Present(input.diastolic))
            && (DiastolicOutOfRange in r <==>
                  Present(input.diastolic) && !IntegerIn(input.diastolic.n, 30, 200))
  {
    var s := SystolicCheck(input.systolic);
    var d := DiastolicCheck(input.diastolic);
    var p := PulseCheck(input.pulse);
    var w := WeightCheck(input.weight);
    assert FieldErrors(input) == s + d + p + w;
    assert SystolicMissing !in p + w && SystolicOutOfRange !in p + w;
    assert DiastolicMissing !in p + w && DiastolicOutOfRange !in p + w;
    assert SystolicMissing !in d && SystolicOutOfRange !in d;
    assert DiastolicMissing !in s && DiastolicOutOfRange !in s;
    assert s + d + p + w == (s + d) + (p + w);
  }

  /** The optional fields' messages in the list: each appears exactly when its
      check fails. */
  lemma OptionalFieldErrors(input: BPInput)
    ensures var r := FieldErrors(input);
            && (PulseOutOfRange in r <==>
                  Present(input.pulse) && !IntegerIn(input.pulse.n, 30, 250))
            && (WeightOutOfRange in r <==>
                  Present(input.weight) && !NumberIn(input.weight.n, 20, 300))
  {
    var s := SystolicCheck(input.systolic);
    var d := DiastolicCheck(input.diastolic);
    var p := PulseCheck(input.pulse);
    var w := WeightCheck(input.weight);
    assert FieldErrors(input) == s + d + p + w;
    assert PulseOutOfRange !in s + d && WeightOutOfRange !in s + d;
    assert PulseOutOfRange !in w && WeightOutOfRange !in p;
    assert s + d + p + w == (s + d) + (p + w);
  }

  /** Two lists in check order, the first from earlier checks than the
      second, are in check order together. */
  lemma ConcatInCheckOrder(a: seq<Error>, b: seq<Error>)
    requires InCheckOrder(a) && InCheckOrder(b)
    requires forall x, y | x in a && y in b :: CheckOf(x) < CheckOf(y)
    ensures InCheckOrder(a + b)
  {
    var r := a + b;
    forall i, j | 0 <= i < j < |r|
      ensures CheckOf(r[i]) < CheckOf(r[j])
    {
      if j < |a| {
        assert r[i] == a[i] && r[j] == a[j];
      } else if i < |a| {
        assert r[i] == a[i] && r[j] == b[j - |a|];
        assert r[i] in a && r[j] in b;
      } else {
        assert r[i] == b[i - |a|] && r[j] == b[j - |a|];
      }
    }
  }

  /** `validateBPInput`: every per-field check runs and contributes at most one
      message; the cross-field check runs only when none of them produced a
      message. The result is valid exactly when no message was collected. */
  function ValidateBPInput(input: BPInput): (r: Validation)
    ensures r.valid <==> |r.errors| == 0
    ensures r.valid <==> Acceptable(input)
    ensures InCheckOrder(r.errors)
    ensures forall e | e != SystolicNotAboveDiastolic :: e in r.errors <==> e in FieldErrors(input)
    ensures SystolicNotAboveDiastolic in r.errors <==>
              FieldsPass(input) && input.systolic.n.value <= input.diastolic.n.value
  {
    var fieldErrors := FieldErrors(input);
    var errors :=
      if |fieldErrors| == 0 && input.systolic.n.value <= input.diastolic.n.value
      then [SystolicNotAboveDiastolic]
      else fieldErrors;
    Validation(|errors| == 0, errors)
  }

  /** The first message is the one the form shows; it comes from the earliest
      failing check. */
  lemma FirstErrorIsEarliest(input: BPInput)
    requires !ValidateBPInput(input).valid
    ensures var r := ValidateBPInput(input);
            forall e | e in r.errors :: CheckOf(r.errors[0]) <= CheckOf(e)
  {
  }

  /** The well-formed reading of the unit tests passes with no message. */
  lemma AcceptsTestReadings()
    ensures ValidateBPInput(BPInput(Num(Finite(120.0)), Num(Finite(80.0)), Null, Null)) == Validation(true, [])
  {
  }

  /** The same reading with a pulse passes too. */
  lemma AcceptsTestReadingWithPulse()
    ensures ValidateBPInput(BPInput(Num(Finite(120.0)), Num(Finite(80.0)), Num(Finite(72.0)), Null)).valid
  {
  }

  /** Out-of-range systolic readings from the unit tests fail. */
  lemma RejectsSystolicOutOfRange()
    ensures !ValidateBPInput(BPInput(Num(Finite(40.0)), Num(Finite(80.0)), Null, Null)).valid
    ensures !ValidateBPInput(BPInput(Num(Finite(310.0)), Num(Finite(80.0)), Null, Null)).valid
  {
  }

  /** Out-of-range pulse readings from the unit tests fail. */
  lemma RejectsPulseOutOfRange()
    ensures !ValidateBPInput(BPInput(Num(Finite(120.0)), Num(Finite(80.0)), Num(Finite(20.0)), Null)).valid
    ensures !ValidateBPInput(BPInput(Num(Finite(120.0)), Num(Finite(80.0)), Num(Finite(260.0)), Null)).valid
  {
  }

  /** A missing systolic (`null`) or diastolic (`''`) fails. */
  lemma RejectsMissing()
    ensures !ValidateBPInput(BPInput(Null, Num(Finite(80.0)), Null, Null)).valid
    ensures !ValidateBPInput(BPInput(Num(Finite(120.0)), EmptyString, Null, Null)).valid
  {
  }

  /** (80, 80) is rejected with the cross-field message only. */
  lemma RejectsEqualPressures()
    ensures ValidateBPInput(BPInput(Num(Finite(80.0)), Num(Finite(80.0)), Null, Null)).errors
            == [SystolicNotAboveDiastolic]
  {
  }

  /** A pulse error suppresses the cross-field check: (80, 80) with an
      out-of-range pulse reports only the pulse. */
  lemma PulseErrorSuppressesCrossField()
    ensures ValidateBPInput(BPInput(Num(Finite(80.0)), Num(Finite(80.0)), Num(Finite(20.0)), Null)).errors
            == [PulseOutOfRange]
  {
  }

  /** A weight error suppresses the cross-field check as well. */
  lemma WeightErrorSuppressesCrossField()
    ensures ValidateBPInput(BPInput(Num(Finite(80.0)), Num(Finite(80.0)), Null, Num(Finite(10.0)))).errors
            == [WeightOutOfRange]
  {
  }
}
