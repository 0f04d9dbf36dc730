/** The stored measurement record and the object store that holds records. */
module Records {
  import opened Wrappers
  import Validate

  /** A point in time in milliseconds; the source stores ISO-8601 strings. */
  type Timestamp = int

  /** One day in milliseconds. */
  const DayMs: int := 86_400_000

  /** A stored measurement, with exactly the fields the save flow and the
      import write. */
  datatype Record = Record(
    id: string,
    measuredAt: Timestamp,
    systolic: int,
    diastolic: int,
    pulse: Option<int>,
    memo: Option<string>,
    createdAt: Timestamp,
    updatedAt: Timestamp)

  /** The object store: records keyed by their own `id` (its key path). */
  type Store = s: map<string, Record> | forall k | k in s :: s[k].id == k

  /** The ranges a record has after passing the validator: systolic 50..300,
      diastolic 30..200, pulse absent or 30..250, systolic above diastolic. */
  predicate Admissible(r: Record) {
    && 50 <= r.systolic <= 300
    && 30 <= r.diastolic <= 200
    && (r.pulse.Some? ==> 30 <= r.pulse.value <= 250)
    && r.systolic > r.diastolic
  }

  predicate AllAdmissible(s: Store) {
    forall k | k in s :: Admissible(s[k])
  }

  /** The validator's view of a stored record (it has no weight). */
  function AsInput(r: Record): Validate.BPInput {
    Validate.BPInput(
      Validate.Num(Validate.Finite(r.systolic as real)),
      Validate.Num(Validate.Finite(r.diastolic as real)),
      if r.pulse.Some? then Validate.Num(Validate.Finite(r.pulse.value as real)) else Validate.Null,
      Validate.Null)
  }

  /** A record is admissible exactly when the validator accepts its readings. */
  lemma AdmissibleIffValidates(r: Record)
    ensures Admissible(r) <==> Validate.ValidateBPInput(AsInput(r)).valid
  {
    assert (r.systolic as real).Floor == r.systolic;
    assert (r.diastolic as real).Floor == r.diastolic;
    if r.pulse.Some? {
      assert (r.pulse.value as real).Floor == r.pulse.value;
    }
  }

  /** Ordered by measurement time, newest first. */
  predicate NewestFirst(rs: seq<Record>) {
    forall i, j | 0 <= i < j < |rs| :: rs[i].measuredAt >= rs[j].measuredAt
  }

  /** Ordered by measurement time, oldest first. */
  predicate OldestFirst(rs: seq<Record>) {
    forall i, j | 0 <= i < j < |rs| :: rs[i].measuredAt <= rs[j].measuredAt
  }

  predicate DistinctIds(rs: seq<Record>) {
    forall i, j | 0 <= i < j < |rs| :: rs[i].id != rs[j].id
  }

  /** `rs` lists the records of `s`, each exactly once. */
  predicate ListsExactly(rs: seq<Record>, s: Store) {
    && |rs| == |s|
    && DistinctIds(rs)
    && (forall i | 0 <= i < |rs| :: rs[i].id in s && s[rs[i].id] == rs[i])
    && (forall k | k in s :: s[k] in rs)
  }
}
