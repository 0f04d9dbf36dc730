/** `saveRecord` and `saveEditRecord`: the entry and edit forms turned into
    stored records once the validator accepts them. */
module Entry {
  import opened Wrappers
  import opened Validate
  import opened Records
  import RecordStore
  import Text
  import Classify

  /** A numeric form input: empty text, or what `Number(text)` makes of it. */
  datatype FormNumber = Blank | Typed(n: JsNumber)

  /** The entry or edit form. `datetime` is the datetime-local input, already
      parsed; nothing when the input is empty. */
  datatype Form = Form(
    systolic: FormNumber,
    diastolic: FormNumber,
    pulse: FormNumber,
    memo: string,
    datetime: Option<Timestamp>)

  /** `text ? Number(text) : null`. */
  function AsField(f: FormNumber): Field {
    match f
    case Blank => Null
    case Typed(n) => Num(n)
  }

  /** What both flows hand to the validator: the three readings, no weight. */
  function ValidatorInput(form: Form): BPInput {
    BPInput(AsField(form.systolic), AsField(form.diastolic), AsField(form.pulse), Null)
  }

  /** `memo.trim() || null`: the trimmed memo, or nothing when it is empty. */
  function StoredMemo(memo: string): Option<string> {
    var t := Text.Trim(memo);
    if t == "" then None else Some(t)
  }

  /** The readings of `r` are those of a form the validator accepted: the
      numbers typed, and no pulse exactly when the pulse input was empty. */
  predicate CarriesReadings(r: Record, form: Form) {
    && form.systolic.Typed? && form.systolic.n.Finite? && r.systolic as real == form.systolic.n.value
    && form.diastolic.Typed? && form.diastolic.n.Finite? && r.diastolic as real == form.diastolic.n.value
    && (r.pulse.None? <==> form.pulse.Blank?)
    && (r.pulse.Some? ==> form.pulse.n.Finite? && r.pulse.value as real == form.pulse.n.value)
    && (r.memo.None? <==> Text.Trim(form.memo) == "")
    && (r.memo.Some? ==> r.memo.value == Text.Trim(form.memo))
  }

  /** The integer a validated numeric input holds. */
  function WholeNumber(n: JsNumber): int {
    if n.Finite? then n.value.Floor else 0
  }

  /** The fields both flows take from an accepted form. */
  function Readings(form: Form): (r: (int, int, Option<int>))
    requires ValidateBPInput(ValidatorInput(form)).valid
    ensures 50 <= r.0 <= 300 && 30 <= r.1 <= 200 && r.0 > r.1
    ensures r.0 as real == form.systolic.n.value && r.1 as real == form.diastolic.n.value
    ensures r.2.None? <==> form.pulse.Blank?
    ensures r.2.Some? ==> 30 <= r.2.value <= 250 && r.2.value as real == form.pulse.n.value
  {
    (WholeNumber(form.systolic.n),
     WholeNumber(form.diastolic.n),
     if form.pulse.Blank? then None else Some(WholeNumber(form.pulse.n)))
  }

  datatype SaveOutcome =
    | Saved(store: Store, record: Record)
    | Rejected(message: Error)
    | SaveFailed

  /** `saveRecord` with the generated id and the clock reading passed in. An
      invalid form is rejected with the first message and writes nothing; an
      accepted one is added as a new record created and updated `now`,
      measured at the form's time or `now`. Adding fails when `id` is taken. */
  function SaveRecord(s: Store, form: Form, id: string, now: Timestamp): (r: SaveOutcome)
    ensures r.Rejected? <==> !ValidateBPInput(ValidatorInput(form)).valid
    ensures r.Rejected? ==> r.message == ValidateBPInput(ValidatorInput(form)).errors[0]
    ensures r.Saved? <==> ValidateBPInput(ValidatorInput(form)).valid && id !in s
    ensures r.Saved? ==>
              && r.record.id == id
              && r.record.createdAt == now && r.record.updatedAt == now
              && r.record.measuredAt == form.datetime.GetOr(now)
              && CarriesReadings(r.record, form)
              && Admissible(r.record)
              && r.store.Keys == s.Keys + {id}
              && r.store[id] == r.record
              && forall k | k in s :: r.store[k] == s[k]
  {
    var v := ValidateBPInput(ValidatorInput(form));
    if !v.valid then Rejected(v.errors[0])
    else
      var (systolic, diastolic, pulse) := Readings(form);
      var record := Record(id, form.datetime.GetOr(now), systolic, diastolic, pulse,
                           StoredMemo(form.memo), now, now);
      match RecordStore.AddRecord(s, record)
      case Added(s', _) => Saved(s', record)
      case ConstraintError => SaveFailed
  }

  datatype EditOutcome =
    | Edited(store: Store, record: Record)
    | EditRejected(message: Error)
    | NotFound

  /** `saveEditRecord`: an invalid form or an id that is not stored changes
      nothing. Otherwise the stored record keeps its id and creation time,
      takes the form's readings and memo, keeps its measurement time unless
      the form gives one, is stamped updated `now`, and is put back. */
  function SaveEditRecord(s: Store, id: string, form: Form, now: Timestamp): (r: EditOutcome)
    ensures r.EditRejected? <==> !ValidateBPInput(ValidatorInput(form)).valid
    ensures r.EditRejected? ==> r.message == ValidateBPInput(ValidatorInput(form)).errors[0]
    ensures r.NotFound? <==> ValidateBPInput(ValidatorInput(form)).valid && id !in s
    ensures r.Edited? ==>
              && id in s
              && r.record.id == id
              && r.record.createdAt == s[id].createdAt
              && r.record.measuredAt == form.datetime.GetOr(s[id].measuredAt)
              && r.record.updatedAt == now
              && CarriesReadings(r.record, form)
              && Admissible(r.record)
              && r.store == s[id := r.record]
  {
    var v := ValidateBPInput(ValidatorInput(form));
    if !v.valid then EditRejected(v.errors[0])
    else
      match RecordStore.GetRecord(s, id)
      case None => NotFound
      case Some(original) =>
        var updated := Edit(original, form, now);
        assert original == s[id] && updated.id == id;
        Edited(RecordStore.UpdateRecord(s, updated), updated)
  }

  /** The stored record as the edit form changes it: same id and creation
      time, the form's readings and memo, the form's measurement time if it
      gives one, updated `now`. */
  function Edit(original: Record, form: Form, now: Timestamp): (r: Record)
    requires ValidateBPInput(ValidatorInput(form)).valid
    ensures r.id == original.id && r.createdAt == original.createdAt
    ensures r.measuredAt == form.datetime.GetOr(original.measuredAt)
    ensures r.updatedAt == now
    ensures CarriesReadings(r, form) && Admissible(r)
  {
    var (systolic, diastolic, pulse) := Readings(form);
    original.(
      measuredAt := form.datetime.GetOr(original.measuredAt),
      systolic := systolic,
      diastolic := diastolic,
      pulse := pulse,
      memo := StoredMemo(form.memo),
      updatedAt := now)
  }

  /** Saving keeps every stored record within the validator's ranges. */
  lemma SavePreservesAdmissible(s: Store, form: Form, id: string, now: Timestamp)
    requires AllAdmissible(s)
    ensures var r := SaveRecord(s, form, id, now); r.Saved? ==> AllAdmissible(r.store)
  {
  }

  /** Editing keeps every stored record within the validator's ranges. */
  lemma EditPreservesAdmissible(s: Store, id: string, form: Form, now: Timestamp)
    requires AllAdmissible(s)
    ensures var r := SaveEditRecord(s, id, form, now); r.Edited? ==> AllAdmissible(r.store)
  {
  }

  /** The reading of the end-to-end scenario passes the validator. */
  lemma ScenarioReadingValid()
    ensures ValidateBPInput(BPInput(Num(Finite(125.0)), Num(Finite(82.0)), Num(Finite(72.0)), Null)).valid
  {
  }

  /** The memo the end-to-end scenario types. */
  const ScenarioMemo: string := "E2Eテスト記録"

  /** The form of the end-to-end scenario: 125/82, pulse 72, the typed memo,
      and the time input as the page fills it on loading, the minute `shown`. */
  function ScenarioForm(shown: Timestamp): Form {
    Form(Typed(Finite(125.0)), Typed(Finite(82.0)), Typed(Finite(72.0)), ScenarioMemo, Some(shown))
  }

  /** Saving the scenario's form into an empty store adds exactly the record
      with those readings and that memo, measured at the minute the time input
      showed, created and updated `now`. */
  lemma ScenarioSaved(shown: Timestamp, now: Timestamp)
    ensures var record := Record("a", shown, 125, 82, Some(72), Some(ScenarioMemo), now, now);
            SaveRecord(map[], ScenarioForm(shown), "a", now) == Saved(map["a" := record], record)
  {
    var form := ScenarioForm(shown);
    ScenarioReadingValid();
    assert ValidatorInput(form) == BPInput(Num(Finite(125.0)), Num(Finite(82.0)), Num(Finite(72.0)), Null);
    var readings := Readings(form);
    assert readings.0 as real == 125.0 && readings.1 as real == 82.0;
    assert readings.2.value as real == 72.0;
    assert readings == (125, 82, Some(72));
    ScenarioMemoKept();
  }

  /** The scenario's memo has no whitespace at either end, so it is stored as typed. */
  lemma ScenarioMemoKept()
    ensures StoredMemo(ScenarioMemo) == Some(ScenarioMemo)
  {
    assert !Text.IsWhitespace(ScenarioMemo[0]) && !Text.IsWhitespace(ScenarioMemo[|ScenarioMemo| - 1]);
    assert Text.TrimStart(ScenarioMemo) == ScenarioMemo;
    assert Text.TrimEnd(ScenarioMemo) == ScenarioMemo;
  }

  /** A store holding one record is listed as just that record. */
  lemma SingleListing(record: Record, rs: seq<Record>)
    requires ListsExactly(rs, map[record.id := record])
    ensures rs == [record]
  {
    var store: Store := map[record.id := record];
    assert |store| == 1 by {
      assert store.Keys == {record.id};
    }
    assert rs[0].id in store;
  }

  /** Deleting the only record empties the store. */
  lemma DeleteOnly(record: Record)
    ensures RecordStore.DeleteRecord(map[record.id := record], record.id) == map[]
  {
    var s' := RecordStore.DeleteRecord(map[record.id := record], record.id);
    assert s'.Keys == {};
  }

  /** Saving 125/82 with pulse 72 into an empty store succeeds with those
      readings, which classify as high-normal. */
  lemma SaveThenClassify(shown: Timestamp, now: Timestamp)
    ensures var r := SaveRecord(map[], ScenarioForm(shown), "a", now);
            && r.Saved?
            && r.record.systolic == 125 && r.record.diastolic == 82 && r.record.pulse == Some(72)
            && Classify.ClassifyBP(r.record.systolic, r.record.diastolic) == Classify.HighNormal
  {
    ScenarioSaved(shown, now);
    ScenarioClassified();
  }

  /** The scenario's reading is high-normal. */
  lemma ScenarioClassified()
    ensures Classify.ClassifyBP(125, 82) == Classify.HighNormal
  {
  }

  /** After that save, listing shows the one record and deleting it empties
      the store. */
  lemma SaveListDelete(shown: Timestamp, now: Timestamp, rs: seq<Record>)
    ensures var r := SaveRecord(map[], ScenarioForm(shown), "a", now);
            && r.Saved?
            && (ListsExactly(rs, r.store) ==> rs == [r.record])
            && RecordStore.DeleteRecord(r.store, "a") == map[]
  {
    ScenarioSaved(shown, now);
    var record := Record("a", shown, 125, 82, Some(72), Some(ScenarioMemo), now, now);
    if ListsExactly(rs, map["a" := record]) {
      SingleListing(record, rs);
    }
    DeleteOnly(record);
  }
}
