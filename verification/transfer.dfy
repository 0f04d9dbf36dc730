/** `exportData` and `importData`: the backup document and the merge of a
    document back into the store. */
module Transfer {
  import opened Wrappers
  import opened Records
  import RecordStore
  import Entry

  /** The application name written into, and checked on, every document. */
  const AppName: string := "sbpr"

  /** The version written when the application reports none. */
  const DefaultVersion: string := "0.1.0"

  datatype ExportDocument = ExportDocument(
    version: string,
    appName: string,
    exportedAt: Timestamp,
    recordCount: nat,
    records: seq<Record>)

  /** `exportData` without the file download: the document holds every stored
      record once, newest first, and its count. */
  method ExportData(s: Store, appVersion: Option<string>, now: Timestamp) returns (d: ExportDocument)
    ensures d.appName == AppName && d.exportedAt == now
    ensures appVersion.Some? && appVersion.value != "" ==> d.version == appVersion.value
    ensures appVersion.None? || appVersion.value == "" ==> d.version == DefaultVersion
    ensures d.recordCount == |d.records| == |s|
    ensures ListsExactly(d.records, s) && NewestFirst(d.records)
  {
    var records := RecordStore.GetAllRecords(s);
    var version := if appVersion.Some? && appVersion.value != "" then appVersion.value else DefaultVersion;
    d := ExportDocument(version, AppName, now, |records|, records);
  }

  // ----- the parsed import document -----

  /** One entry of the document's `records` array: an object, whose
      properties that are absent or `null` are nothing, or `null` itself. */
  datatype DocRecord =
    | DocRecord(
        id: Option<string>,
        measuredAt: Option<Timestamp>,
        systolic: Option<int>,
        diastolic: Option<int>,
        pulse: Option<int>,
        memo: Option<string>,
        createdAt: Option<Timestamp>,
        updatedAt: Option<Timestamp>)
    | NullItem

  /** The document's `records` property: absent (or `null`), something other
      than an array, or an array. */
  datatype RecordsField = Missing | NotAnArray | Items(items: seq<DocRecord>)

  datatype ImportDocument = ImportDocument(appName: Option<string>, records: RecordsField)

  /** What reading an exported document back gives: every record with all of
      its properties, `null` ones absent. */
  function Reread(d: ExportDocument): ImportDocument {
    ImportDocument(Some(d.appName), Items(AsDocRecords(d.records)))
  }

  function AsDocRecord(r: Record): DocRecord {
    DocRecord(Some(r.id), Some(r.measuredAt), Some(r.systolic), Some(r.diastolic),
              r.pulse, r.memo, Some(r.createdAt), Some(r.updatedAt))
  }

  function AsDocRecords(rs: seq<Record>): (ds: seq<DocRecord>)
    ensures |ds| == |rs| && forall i | 0 <= i < |rs| :: ds[i] == AsDocRecord(rs[i])
  {
    seq(|rs|, i requires 0 <= i < |rs| => AsDocRecord(rs[i]))
  }

  // ----- JavaScript truthiness of the properties the import tests -----

  predicate TruthyText(o: Option<string>) {
    o.Some? && o.value != ""
  }

  predicate TruthyNumber(o: Option<int>) {
    o.Some? && o.value != 0
  }

  /** The entry is not skipped for a falsy id, systolic or diastolic. */
  predicate HasRequired(d: DocRecord) {
    d.DocRecord? && TruthyText(d.id) && TruthyNumber(d.systolic) && TruthyNumber(d.diastolic)
  }

  /** The entry the loop would add under `k`. */
  predicate Carries(d: DocRecord, k: string) {
    HasRequired(d) && d.id.value == k
  }

  /** The position of the first entry carrying `k`, or `|items|` when none does. */
  function FirstCarrying(items: seq<DocRecord>, k: string): (i: nat)
    ensures i <= |items|
    ensures i < |items| ==> Carries(items[i], k)
    ensures forall j | 0 <= j < i :: !Carries(items[j], k)
  {
    if |items| == 0 || Carries(items[0], k) then 0
    else 1 + FirstCarrying(items[1..], k)
  }

  /** The record the import adds for an entry; missing times default to `now`
      and an empty memo becomes nothing. No range is checked. */
  function Restore(d: DocRecord, now: Timestamp): (r: Record)
    requires HasRequired(d)
    ensures r.id == d.id.value
    ensures r.systolic == d.systolic.value && r.diastolic == d.diastolic.value && r.pulse == d.pulse
    ensures r.measuredAt == d.measuredAt.GetOr(now)
    ensures r.createdAt == d.createdAt.GetOr(now)
    ensures r.updatedAt == d.updatedAt.GetOr(now)
    ensures r.memo == if TruthyText(d.memo) then d.memo else None
    ensures Restorable(r)
  {
    Record(
      d.id.value,
      d.measuredAt.GetOr(now),
      d.systolic.value,
      d.diastolic.value,
      d.pulse,
      if TruthyText(d.memo) then d.memo else None,
      d.createdAt.GetOr(now),
      d.updatedAt.GetOr(now))
  }

  /** The ids the loop sets out to add: entries with the required fields whose
      id was not stored when the import began. */
  function NewIds(items: seq<DocRecord>, existing: set<string>): (ids: set<string>)
    ensures ids !! existing
  {
    if |items| == 0 then {}
    else
      NewIds(items[1..], existing)
      + (if HasRequired(items[0]) && items[0].id.value !in existing then {items[0].id.value} else {})
  }

  /** An id is new exactly when some entry with the required fields carries it
      and it was not stored before. */
  lemma {:induction false} InNewIds(items: seq<DocRecord>, existing: set<string>, k: string)
    ensures k in NewIds(items, existing) <==>
            k !in existing && exists i | 0 <= i < |items| :: HasRequired(items[i]) && items[i].id.value == k
    decreases |items|
  {
    if |items| > 0 {
      var tail := items[1..];
      InNewIds(tail, existing, k);
      if k !in existing && (exists i | 0 <= i < |items| :: HasRequired(items[i]) && items[i].id.value == k) {
        var i :| 0 <= i < |items| && HasRequired(items[i]) && items[i].id.value == k;
        if i > 0 {
          assert tail[i - 1] == items[i];
        }
      }
      if exists i | 0 <= i < |tail| :: HasRequired(tail[i]) && tail[i].id.value == k {
        var i :| 0 <= i < |tail| && HasRequired(tail[i]) && tail[i].id.value == k;
        assert items[i + 1] == tail[i];
      }
    }
  }

  // ----- the import loop -----

  /** How the loop ends: it ran to the end, having added `added` records, or
      it stopped at position `at` of the entries, keeping what it had added. */
  datatype LoopResult =
    | Completed(store: Store, added: nat)
    | Aborted(store: Store, at: nat, error: ImportError)

  /** The result of the rest of the loop as seen one entry earlier: `added`
      more records counted, or the stop one place later. */
  function Later(r: LoopResult, added: nat): (r': LoopResult)
    ensures r'.store == r.store && r'.Completed? == r.Completed?
    ensures r.Completed? ==> r'.added == r.added + added
    ensures r.Aborted? ==> r'.at == r.at + 1 && r'.error == r.error
  {
    match r
    case Completed(s, n) => Completed(s, n + added)
    case Aborted(s, at, e) => Aborted(s, at + 1, e)
  }

  /** What one turn of the loop does with an entry. */
  datatype Step = Skip | Stop(error: ImportError) | Add(store: Store)

  /** One turn of the `for` loop of `importData`, with the ids stored before
      the loop as `existing`. A `null` entry stops the loop, since reading its
      `id` throws. An entry without the required fields, or whose id is in
      `existing`, is skipped. Any other entry is added in a transaction of its
      own, which fails when its id was added earlier in the same loop. */
  function StepOn(s: Store, existing: set<string>, d: DocRecord, now: Timestamp): (r: Step)
    ensures r.Skip? <==> d.DocRecord? && (!HasRequired(d) || d.id.value in existing)
    ensures r.Stop? ==>
              || (d.NullItem? && r.error == NullEntry)
              || (HasRequired(d) && d.id.value !in existing && d.id.value in s
                  && r.error == AddFailed(d.id.value))
    ensures r.Add? ==>
              && HasRequired(d) && d.id.value !in existing && d.id.value !in s
              && r.store == s[d.id.value := Restore(d, now)]
  {
    if d.NullItem? then Stop(NullEntry)
    else if !HasRequired(d) || d.id.value in existing then Skip
    else
      match RecordStore.AddRecord(s, Restore(d, now))
      case ConstraintError => Stop(AddFailed(d.id.value))
      case Added(s', _) => Add(s')
  }

  /** The `for` loop of `importData` over the entries: each turn skips, adds
      or stops, and a stop keeps the records added before it. */
  function ImportLoop(s: Store, existing: set<string>, items: seq<DocRecord>, now: Timestamp): (r: LoopResult)
    decreases |items|
  {
    if |items| == 0 then Completed(s, 0)
    else
      match StepOn(s, existing, items[0], now)
      case Stop(e) => Aborted(s, 0, e)
      case Skip => Later(ImportLoop(s, existing, items[1..], now), 0)
      case Add(s') => Later(ImportLoop(s', existing, items[1..], now), 1)
  }

  /** The loop only adds: every record stored before it is still there, unchanged. */
  lemma {:induction false} LoopKeepsStored(s: Store, existing: set<string>, items: seq<DocRecord>, now: Timestamp)
    ensures var r := ImportLoop(s, existing, items, now);
            forall k | k in s :: k in r.store && r.store[k] == s[k]
    decreases |items|
  {
    if |items| > 0 {
      match StepOn(s, existing, items[0], now)
      case Stop(_) =>
      case Skip => LoopKeepsStored(s, existing, items[1..], now);
      case Add(s') => LoopKeepsStored(s', existing, items[1..], now);
    }
  }

  /** The loop adds no id but new ones. */
  lemma {:induction false} LoopAddsOnlyNewIds(s: Store, existing: set<string>, items: seq<DocRecord>, now: Timestamp)
    ensures ImportLoop(s, existing, items, now).store.Keys <= s.Keys + NewIds(items, existing)
    decreases |items|
  {
    if |items| > 0 {
      match StepOn(s, existing, items[0], now)
      case Stop(_) =>
      case Skip => LoopAddsOnlyNewIds(s, existing, items[1..], now);
      case Add(s') =>
        assert s'.Keys == s.Keys + {items[0].id.value};
        LoopAddsOnlyNewIds(s', existing, items[1..], now);
    }
  }

  /** A loop that completes has grown the store by the count it reports, at
      most one per entry. */
  lemma {:induction false} CompletedLoopCount(s: Store, existing: set<string>, items: seq<DocRecord>, now: Timestamp)
    ensures var r := ImportLoop(s, existing, items, now);
            r.Completed? ==> |r.store| == |s| + r.added && r.added <= |items|
    decreases |items|
  {
    if |items| > 0 {
      match StepOn(s, existing, items[0], now)
      case Stop(_) =>
      case Skip => CompletedLoopCount(s, existing, items[1..], now);
      case Add(s') =>
        assert s'.Keys == s.Keys + {items[0].id.value} && |s'| == |s| + 1;
        CompletedLoopCount(s', existing, items[1..], now);
    }
  }


  /** One turn of the loop for an entry it skips. */
  lemma LoopSkipsHead(s: Store, existing: set<string>, items: seq<DocRecord>, now: Timestamp)
    requires |items| > 0 && items[0].DocRecord?
    requires !HasRequired(items[0]) || items[0].id.value in existing
    ensures ImportLoop(s, existing, items, now) == Later(ImportLoop(s, existing, items[1..], now), 0)
    ensures NewIds(items, existing) == NewIds(items[1..], existing)
  {
  }

  /** One turn of the loop for an entry it adds: the rest of the loop runs on
      the grown store and, when it completes, counts one more. */
  lemma LoopAddsHead(s: Store, existing: set<string>, items: seq<DocRecord>, now: Timestamp)
    requires |items| > 0 && HasRequired(items[0])
    requires items[0].id.value !in existing && items[0].id.value !in s
    ensures ImportLoop(s, existing, items, now)
            == Later(ImportLoop(s[items[0].id.value := Restore(items[0], now)], existing, items[1..], now), 1)
    ensures NewIds(items, existing) == NewIds(items[1..], existing) + {items[0].id.value}
  {
  }

  /** One turn of the loop for an entry whose id is already in the store. */
  lemma LoopStopsAtStored(s: Store, existing: set<string>, items: seq<DocRecord>, now: Timestamp)
    requires |items| > 0 && HasRequired(items[0])
    requires items[0].id.value !in existing && items[0].id.value in s
    ensures ImportLoop(s, existing, items, now) == Aborted(s, 0, AddFailed(items[0].id.value))
  {
  }

  /** One turn of the loop for a `null` entry. */
  lemma LoopStopsAtNull(s: Store, existing: set<string>, items: seq<DocRecord>, now: Timestamp)
    requires |items| > 0 && items[0].NullItem?
    ensures ImportLoop(s, existing, items, now) == Aborted(s, 0, NullEntry)
  {
  }

  /** A loop that runs to the end has added every new id. */
  lemma {:induction false} CompletedLoopAddsAllNewIds(
    s: Store, existing: set<string>, items: seq<DocRecord>, now: Timestamp)
    ensures var r := ImportLoop(s, existing, items, now);
            r.Completed? ==> r.store.Keys == s.Keys + NewIds(items, existing)
    decreases |items|
  {
    if |items| > 0 {
      var d := items[0];
      var tail := items[1..];
      if d.NullItem? {
        LoopStopsAtNull(s, existing, items, now);
      } else if !HasRequired(d) || d.id.value in existing {
        LoopSkipsHead(s, existing, items, now);
        CompletedLoopAddsAllNewIds(s, existing, tail, now);
      } else if d.id.value !in s {
        var s' := s[d.id.value := Restore(d, now)];
        LoopAddsHead(s, existing, items, now);
        CompletedLoopAddsAllNewIds(s', existing, tail, now);
        assert s'.Keys == s.Keys + {d.id.value};
      } else {
        LoopStopsAtStored(s, existing, items, now);
      }
    }
  }

  /** A loop that runs to the end met no `null` entry. */
  lemma {:induction false} CompletedLoopMetNoNull(
    s: Store, existing: set<string>, items: seq<DocRecord>, now: Timestamp)
    ensures ImportLoop(s, existing, items, now).Completed? ==>
              forall i | 0 <= i < |items| :: items[i].DocRecord?
    decreases |items|
  {
    if |items| > 0 {
      var d := items[0];
      var tail := items[1..];
      if d.NullItem? {
        LoopStopsAtNull(s, existing, items, now);
      } else if !HasRequired(d) || d.id.value in existing {
        LoopSkipsHead(s, existing, items, now);
        CompletedLoopMetNoNull(s, existing, tail, now);
      } else if d.id.value !in s {
        LoopAddsHead(s, existing, items, now);
        CompletedLoopMetNoNull(s[d.id.value := Restore(d, now)], existing, tail, now);
      } else {
        LoopStopsAtStored(s, existing, items, now);
      }
      assert forall i | 0 < i < |items| :: items[i] == tail[i - 1];
    }
  }

  /** No id outside the snapshot is carried by two entries with truthy
      required fields. */
  predicate NoRepeatedNewId(items: seq<DocRecord>, existing: set<string>) {
    forall i, j | 0 <= i < j < |items| && HasRequired(items[i]) && HasRequired(items[j]) ::
      items[i].id == items[j].id ==> items[i].id.value in existing
  }

  /** The loop passes every entry before `p` when started from a store whose
      keys are `existing`: each is an object, and no new id among them repeats. */
  predicate CleanBefore(items: seq<DocRecord>, existing: set<string>, p: nat)
    requires p <= |items|
  {
    && (forall q | 0 <= q < p :: items[q].DocRecord?)
    && NoRepeatedNewId(items[..p], existing)
  }

  /** The entry at `p` stops a loop that got that far: it is `null`, or it
      carries again a new id that an earlier entry brought. */
  predicate FailsAt(items: seq<DocRecord>, existing: set<string>, p: nat)
    requires p < |items|
  {
    || items[p].NullItem?
    || (HasRequired(items[p]) && items[p].id.value in NewIds(items[..p], existing))
  }

  /** Once an entry fails, no longer prefix is clean. */
  lemma FailureEndsClean(items: seq<DocRecord>, existing: set<string>, p: nat, m: nat)
    requires p < m <= |items| && FailsAt(items, existing, p)
    ensures !CleanBefore(items, existing, m)
  {
    if items[p].DocRecord? {
      var k := items[p].id.value;
      InNewIds(items[..p], existing, k);
      var i :| 0 <= i < p && HasRequired(items[..p][i]) && items[..p][i].id.value == k;
      assert items[..m][i] == items[i] && items[..m][p] == items[p];
    }
  }

  /** A list has at most one entry that fails after a clean prefix: it is the
      first failing entry. */
  lemma FailurePositionUnique(items: seq<DocRecord>, existing: set<string>, p: nat, p': nat)
    requires p < |items| && CleanBefore(items, existing, p) && FailsAt(items, existing, p)
    requires p' < |items| && CleanBefore(items, existing, p') && FailsAt(items, existing, p')
    ensures p == p'
  {
    if p < p' {
      FailureEndsClean(items, existing, p, p');
    } else if p' < p {
      FailureEndsClean(items, existing, p', p);
    }
  }

  /** A prefix is clean when the rest of it is, its first entry is an object,
      and no later entry of it carries that entry's id when the id is new. */
  lemma CleanBeforeCons(items: seq<DocRecord>, existing: set<string>, p: nat)
    requires 0 < p <= |items|
    requires items[0].DocRecord? && CleanBefore(items[1..], existing, p - 1)
    requires HasRequired(items[0]) && items[0].id.value !in existing ==>
               forall q | 0 < q < p && HasRequired(items[q]) :: items[q].id != items[0].id
    ensures CleanBefore(items, existing, p)
  {
    var tail := items[1..];
    forall q | 0 < q < p
      ensures items[q] == tail[q - 1] == items[..p][q] == tail[..p - 1][q - 1]
    {
    }
  }

  /** The entries a stopped loop passed: all objects, none repeating a new id,
      and no new id among them stored when the loop began. */
  lemma {:induction false} StoppedLoopPassedClean(
    s: Store, existing: set<string>, items: seq<DocRecord>, now: Timestamp)
    ensures var r := ImportLoop(s, existing, items, now);
            r.Aborted? ==>
              && r.at < |items|
              && CleanBefore(items, existing, r.at)
              && (forall q | 0 <= q < r.at && HasRequired(items[q]) && items[q].id.value !in existing ::
                    items[q].id.value !in s)
    decreases |items|
  {
    if |items| > 0 {
      var tail := items[1..];
      var r := ImportLoop(s, existing, items, now);
      match StepOn(s, existing, items[0], now)
      case Stop(_) =>
        assert items[..0] == [];
      case Skip =>
        StoppedLoopPassedClean(s, existing, tail, now);
        if r.Aborted? {
          assert forall q | 0 < q < r.at :: items[q] == tail[q - 1];
          CleanBeforeCons(items, existing, r.at);
        }
      case Add(s') =>
        StoppedLoopPassedClean(s', existing, tail, now);
        if r.Aborted? {
          assert forall q | 0 < q < r.at :: items[q] == tail[q - 1];
          assert items[0].id.value in s';
          CleanBeforeCons(items, existing, r.at);
        }
    }
  }

  /** Where and why a loop stops: at the first entry that is `null`, or that
      has the required fields and an id outside the snapshot which is stored
      by then, either from the start or by an earlier entry of the loop. */
  lemma LoopStopPosition(
    s: Store, existing: set<string>, items: seq<DocRecord>, now: Timestamp)
    ensures var r := ImportLoop(s, existing, items, now);
            r.Aborted? ==>
              && r.at < |items|
              && CleanBefore(items, existing, r.at)
              && (forall q | 0 <= q < r.at && HasRequired(items[q]) && items[q].id.value !in existing ::
                    items[q].id.value !in s)
              && (items[r.at].NullItem? ==> r.error == NullEntry)
              && (items[r.at].DocRecord? ==>
                    && HasRequired(items[r.at]) && items[r.at].id.value !in existing
                    && items[r.at].id.value in s.Keys + NewIds(items[..r.at], existing)
                    && r.error == AddFailed(items[r.at].id.value))
  {
    StoppedLoopPassedClean(s, existing, items, now);
    StoppedLoopCause(s, existing, items, now);
    AbortedIdWasAdded(s, existing, items, now);
  }

  /** The entry a loop stops at and the error it reports. */
  lemma {:induction false} StoppedLoopCause(
    s: Store, existing: set<string>, items: seq<DocRecord>, now: Timestamp)
    ensures var r := ImportLoop(s, existing, items, now);
            r.Aborted? ==>
              && r.at < |items|
              && (items[r.at].NullItem? ==> r.error == NullEntry)
              && (items[r.at].DocRecord? ==>
                    && HasRequired(items[r.at]) && items[r.at].id.value !in existing
                    && r.error == AddFailed(items[r.at].id.value))
    decreases |items|
  {
    if |items| > 0 {
      var tail := items[1..];
      var r := ImportLoop(s, existing, items, now);
      match StepOn(s, existing, items[0], now)
      case Stop(_) =>
      case Skip =>
        StoppedLoopCause(s, existing, tail, now);
        if r.Aborted? {
          assert items[r.at] == tail[r.at - 1];
        }
      case Add(s') =>
        StoppedLoopCause(s', existing, tail, now);
        if r.Aborted? {
          assert items[r.at] == tail[r.at - 1];
        }
    }
  }

  /** The new ids of a non-empty prefix: those of the prefix of the rest, and
      the first entry's id when it is new. */
  lemma NewIdsOfPrefix(items: seq<DocRecord>, existing: set<string>, n: nat)
    requires 0 < n <= |items|
    ensures NewIds(items[..n], existing)
            == NewIds(items[1..][..n - 1], existing)
               + (if HasRequired(items[0]) && items[0].id.value !in existing then {items[0].id.value} else {})
  {
    assert items[..n][1..] == items[1..][..n - 1];
  }

  /** A loop that stops has added exactly the new ids of the entries before
      the one it stopped at. */
  lemma {:induction false} StoppedLoopKeys(
    s: Store, existing: set<string>, items: seq<DocRecord>, now: Timestamp)
    ensures var r := ImportLoop(s, existing, items, now);
            r.Aborted? ==> r.at < |items| && r.store.Keys == s.Keys + NewIds(items[..r.at], existing)
    decreases |items|
  {
    if |items| > 0 {
      match StepOn(s, existing, items[0], now)
      case Stop(_) =>
        assert items[..0] == [];
      case Skip =>
        StoppedLoopKeys(s, existing, items[1..], now);
        var r := ImportLoop(s, existing, items, now);
        if r.Aborted? {
          NewIdsOfPrefix(items, existing, r.at);
        }
      case Add(s') =>
        StoppedLoopKeys(s', existing, items[1..], now);
        var r := ImportLoop(s, existing, items, now);
        if r.Aborted? {
          NewIdsOfPrefix(items, existing, r.at);
          assert s'.Keys == s.Keys + {items[0].id.value};
        }
    }
  }


  /** Every record the loop adds is the restored first entry carrying its id. */
  lemma {:induction false} LoopStoresFirstEntries(
    s: Store, existing: set<string>, items: seq<DocRecord>, now: Timestamp)
    ensures var r := ImportLoop(s, existing, items, now);
            forall k | k in r.store && k !in s ::
              FirstCarrying(items, k) < |items| && r.store[k] == Restore(items[FirstCarrying(items, k)], now)
    decreases |items|
  {
    if |items| > 0 {
      var d := items[0];
      var tail := items[1..];
      var r := ImportLoop(s, existing, items, now);
      if d.NullItem? {
        LoopStopsAtNull(s, existing, items, now);
      } else if !HasRequired(d) || d.id.value in existing {
        LoopSkipsHead(s, existing, items, now);
        LoopStoresFirstEntries(s, existing, tail, now);
        LoopAddsOnlyNewIds(s, existing, items, now);
        forall k | k in r.store && k !in s
          ensures FirstCarrying(items, k) == 1 + FirstCarrying(tail, k)
        {
          assert k in NewIds(items, existing);
          assert !Carries(d, k);
        }
      } else if d.id.value !in s {
        var s' := s[d.id.value := Restore(d, now)];
        LoopAddsHead(s, existing, items, now);
        LoopStoresFirstEntries(s', existing, tail, now);
        LoopKeepsStored(s', existing, tail, now);
        assert FirstCarrying(items, d.id.value) == 0;
        forall k | k in r.store && k !in s && k != d.id.value
          ensures FirstCarrying(items, k) == 1 + FirstCarrying(tail, k)
        {
          assert !Carries(d, k);
        }
      } else {
        LoopStopsAtStored(s, existing, items, now);
      }
    }
  }

  // ----- importData -----

  /** Why an import fails: the document is refused, an entry is `null` (the
      loop's property read throws), or an add hits a stored id. */
  datatype ImportError = InvalidFormat | ForeignApp | NullEntry | AddFailed(id: string)

  /** What the import reports: the number added and `total - added`, or the
      error that stopped it. */
  datatype Report = Imported(imported: nat, skipped: nat) | Failed(error: ImportError)

  datatype ImportOutcome = ImportOutcome(store: Store, report: Report)

  /** `data.appName && data.appName !== 'sbpr'`. */
  predicate ForeignAppName(appName: Option<string>) {
    TruthyText(appName) && appName.value != AppName
  }

  /** An import loop over the ids stored beforehand stops at the first
      failing entry, with the error that entry raises, having added the new
      ids of the entries before it. */
  lemma StoppedImport(s: Store, items: seq<DocRecord>, now: Timestamp)
    ensures var r := ImportLoop(s, s.Keys, items, now);
            r.Aborted? ==>
              && r.at < |items|
              && CleanBefore(items, s.Keys, r.at) && FailsAt(items, s.Keys, r.at)
              && r.error == (if items[r.at].NullItem? then NullEntry else AddFailed(items[r.at].id.value))
              && r.store.Keys == s.Keys + NewIds(items[..r.at], s.Keys)
  {
    StoppedLoopKeys(s, s.Keys, items, now);
    LoopStopPosition(s, s.Keys, items, now);
  }

  /** `importData` on an already parsed document. A document whose `records`
      is missing or not an array, or that names another application, is
      refused before anything is written. Otherwise the loop runs over the
      entries against the ids stored beforehand; when it stops, the records
      it added stay. */
  function ImportData(s: Store, doc: ImportDocument, now: Timestamp): (r: ImportOutcome)
    ensures !doc.records.Items? ==> r == ImportOutcome(s, Failed(InvalidFormat))
    ensures doc.records.Items? && ForeignAppName(doc.appName) ==> r == ImportOutcome(s, Failed(ForeignApp))
    ensures forall k | k in s :: k in r.store && r.store[k] == s[k]
    ensures doc.records.Items? ==>
              var items := doc.records.items;
              forall k | k in r.store && k !in s ::
                FirstCarrying(items, k) < |items| && r.store[k] == Restore(items[FirstCarrying(items, k)], now)
    ensures r.report.Imported? ==>
              && doc.records.Items?
              && (forall i | 0 <= i < |doc.records.items| :: doc.records.items[i].DocRecord?)
              && r.store.Keys == s.Keys + NewIds(doc.records.items, s.Keys)
              && r.report.imported == |NewIds(doc.records.items, s.Keys)|
              && r.report.imported + r.report.skipped == |doc.records.items|
    ensures doc.records.Items? && !ForeignAppName(doc.appName) && r.report.Failed? ==>
              var items := doc.records.items;
              exists p | 0 <= p < |items| ::
                && CleanBefore(items, s.Keys, p) && FailsAt(items, s.Keys, p)
                && r.report.error == (if items[p].NullItem? then NullEntry else AddFailed(items[p].id.value))
                && r.store.Keys == s.Keys + NewIds(items[..p], s.Keys)
  {
    if !doc.records.Items? then ImportOutcome(s, Failed(InvalidFormat))
    else if ForeignAppName(doc.appName) then ImportOutcome(s, Failed(ForeignApp))
    else
      var items := doc.records.items;
      match ImportLoop(s, s.Keys, items, now)
      case Aborted(s', at, e) =>
        StoppedImport(s, items, now);
        LoopStoresFirstEntries(s, s.Keys, items, now);
        LoopKeepsStored(s, s.Keys, items, now);
        ImportOutcome(s', Failed(e))
      case Completed(s', n) =>
        var added := NewIds(items, s.Keys);
        CompletedLoopAddsAllNewIds(s, s.Keys, items, now);
        CompletedLoopMetNoNull(s, s.Keys, items, now);
        CompletedLoopCount(s, s.Keys, items, now);
        LoopStoresFirstEntries(s, s.Keys, items, now);
        LoopKeepsStored(s, s.Keys, items, now);
        assert s'.Keys == s.Keys + added && s.Keys !! added;
        assert |s'.Keys| == |s.Keys| + |added|;
        ImportOutcome(s', Imported(n, |items| - n))
  }

  // ----- import properties -----

  /** A well-formed document none of whose entries brings a new id adds
      nothing and reports every entry as skipped. */
  lemma ReimportIsNoOp(s: Store, doc: ImportDocument, now: Timestamp)
    requires doc.records.Items? && !ForeignAppName(doc.appName)
    requires forall i | 0 <= i < |doc.records.items| :: doc.records.items[i].DocRecord?
    requires forall i | 0 <= i < |doc.records.items| ::
               HasRequired(doc.records.items[i]) ==> doc.records.items[i].id.value in s
    ensures ImportData(s, doc, now).store == s
    ensures ImportData(s, doc, now).report == Imported(0, |doc.records.items|)
  {
    var items := doc.records.items;
    assert NewIds(items, s.Keys) == {} by {
      if k :| k in NewIds(items, s.Keys) {
        InNewIds(items, s.Keys, k);
      }
    }
    var r := ImportLoop(s, s.Keys, items, now);
    CompletedLoopAddsAllNewIds(s, s.Keys, items, now);
    LoopStopPosition(s, s.Keys, items, now);
    LoopKeepsStored(s, s.Keys, items, now);
    CompletedLoopCount(s, s.Keys, items, now);
    assert r.Completed?;
    assert r.store.Keys == s.Keys;
    assert r.store == s;
    assert r.added == 0;
    assert ImportData(s, doc, now).store == s;
  }

  /** An id that stops the loop is already in the store it stops on, which is
      the store it started from plus what it added. */
  lemma {:induction false} AbortedIdWasAdded(
    s: Store, existing: set<string>, items: seq<DocRecord>, now: Timestamp)
    ensures var r := ImportLoop(s, existing, items, now);
            r.Aborted? && r.error.AddFailed? ==>
              && r.at < |items|
              && r.error.id in s.Keys + NewIds(items[..r.at], existing)
              && r.error.id !in existing
    decreases |items|
  {
    if |items| > 0 {
      match StepOn(s, existing, items[0], now)
      case Stop(_) =>
      case Skip =>
        AbortedIdWasAdded(s, existing, items[1..], now);
        var r := ImportLoop(s, existing, items, now);
        if r.Aborted? && r.error.AddFailed? {
          NewIdsOfPrefix(items, existing, r.at);
        }
      case Add(s') =>
        AbortedIdWasAdded(s', existing, items[1..], now);
        var r := ImportLoop(s, existing, items, now);
        if r.Aborted? && r.error.AddFailed? {
          NewIdsOfPrefix(items, existing, r.at);
          assert s'.Keys == s.Keys + {items[0].id.value};
        }
    }
  }

  /** The loop runs to the end when no entry is `null`, no new id repeats, and
      no new id is in the store yet. */
  lemma {:induction false} LoopCompletes(s: Store, existing: set<string>, items: seq<DocRecord>, now: Timestamp)
    requires forall i | 0 <= i < |items| :: items[i].DocRecord?
    requires NoRepeatedNewId(items, existing)
    requires forall i | 0 <= i < |items| && HasRequired(items[i]) && items[i].id.value !in existing ::
               items[i].id.value !in s
    ensures ImportLoop(s, existing, items, now).Completed?
    decreases |items|
  {
    if |items| > 0 {
      var tail := items[1..];
      assert forall i | 0 <= i < |tail| :: tail[i] == items[i + 1];
      assert NoRepeatedNewId(tail, existing);
      match StepOn(s, existing, items[0], now)
      case Stop(_) =>
      case Skip =>
        LoopCompletes(s, existing, tail, now);
      case Add(s') =>
        forall i | 0 <= i < |tail| && HasRequired(tail[i]) && tail[i].id.value !in existing
          ensures tail[i].id.value !in s'
        {
          assert items[i + 1] == tail[i];
        }
        LoopCompletes(s', existing, tail, now);
    }
  }

  /** An import succeeds exactly when the document is well formed, names no
      other application, has no `null` entry, and repeats no new id. */
  lemma ImportSucceedsExactly(s: Store, doc: ImportDocument, now: Timestamp)
    ensures ImportData(s, doc, now).report.Imported? <==>
              && doc.records.Items?
              && !ForeignAppName(doc.appName)
              && (forall i | 0 <= i < |doc.records.items| :: doc.records.items[i].DocRecord?)
              && NoRepeatedNewId(doc.records.items, s.Keys)
  {
    if doc.records.Items? && !ForeignAppName(doc.appName) {
      var items := doc.records.items;
      if (forall i | 0 <= i < |items| :: items[i].DocRecord?) && NoRepeatedNewId(items, s.Keys) {
        LoopCompletes(s, s.Keys, items, now);
      } else if ImportData(s, doc, now).report.Imported? && !NoRepeatedNewId(items, s.Keys) {
        var i, j :| 0 <= i < j < |items| && HasRequired(items[i]) && HasRequired(items[j])
                    && items[i].id == items[j].id && items[i].id.value !in s.Keys;
        RepeatedNewIdFailsImport(s, doc, now, i, j);
      }
    }
  }

  /** The import writes only restorable records: a store whose records are
      all restorable stays so. */
  lemma ImportKeepsRestorable(s: Store, doc: ImportDocument, now: Timestamp)
    ensures (forall k | k in s :: Restorable(s[k])) ==>
              var r := ImportData(s, doc, now).store;
              forall k | k in r :: Restorable(r[k])
  {
  }

  /** Importing a document a second time after it was imported in full adds
      nothing and skips every entry. */
  lemma ImportTwiceIsNoOp(s: Store, doc: ImportDocument, now: Timestamp, later: Timestamp)
    requires ImportData(s, doc, now).report.Imported?
    ensures var s1 := ImportData(s, doc, now).store;
            && ImportData(s1, doc, later).store == s1
            && ImportData(s1, doc, later).report == Imported(0, |doc.records.items|)
  {
    var items := doc.records.items;
    var s1 := ImportData(s, doc, now).store;
    forall i | 0 <= i < |items| && HasRequired(items[i])
      ensures items[i].id.value in s1
    {
      InNewIds(items, s.Keys, items[i].id.value);
    }
    ReimportIsNoOp(s1, doc, later);
  }

  /** Records the import restores unchanged: a non-empty id, non-zero
      readings, and no empty memo. */
  predicate Restorable(r: Record) {
    r.id != "" && r.systolic != 0 && r.diastolic != 0 && r.memo != Some("")
  }

  /** Every record the save and edit flows write is restorable when its id is
      not empty. */
  lemma SavedRecordsRestorable(s: Store, form: Entry.Form, id: string, now: Timestamp)
    requires id != ""
    ensures var r := Entry.SaveRecord(s, form, id, now); r.Saved? ==> Restorable(r.record)
    ensures var r := Entry.SaveEditRecord(s, id, form, now); r.Edited? ==> Restorable(r.record)
  {
  }

  function IdsOf(rs: seq<Record>): set<string> {
    set x | x in rs :: x.id
  }

  /** What the tail of a list of restorable records with new, distinct ids
      keeps of those facts once its head has been added. */
  lemma TailStaysNew(m: Store, rs: seq<Record>)
    requires |rs| > 0 && DistinctIds(rs)
    requires forall x | x in rs :: Restorable(x) && x.id !in m
    ensures DistinctIds(rs[1..])
    ensures forall y | y in rs[1..] :: Restorable(y) && y.id !in m[rs[0].id := rs[0]]
  {
    var tail := rs[1..];
    forall y | y in tail
      ensures Restorable(y) && y.id !in m[rs[0].id := rs[0]]
    {
      var j :| 0 <= j < |tail| && tail[j] == y;
      assert rs[j + 1] == y;
    }
    forall a, b | 0 <= a < b < |tail|
      ensures tail[a].id != tail[b].id
    {
      assert tail[a] == rs[a + 1] && tail[b] == rs[b + 1];
    }
  }

  /** The store with the records of `rs` put in one after the other. */
  function Placed(m: Store, rs: seq<Record>): Store
    decreases |rs|
  {
    if |rs| == 0 then m else Placed(m[rs[0].id := rs[0]], rs[1..])
  }

  /** The tail of a list with distinct ids has distinct ids, none of them
      the head's. */
  lemma DistinctTail(rs: seq<Record>)
    requires |rs| > 0 && DistinctIds(rs)
    ensures DistinctIds(rs[1..])
    ensures rs[0].id !in IdsOf(rs[1..])
    ensures IdsOf(rs) == {rs[0].id} + IdsOf(rs[1..])
  {
    var tail := rs[1..];
    forall a, b | 0 <= a < b < |tail|
      ensures tail[a].id != tail[b].id
    {
      assert tail[a] == rs[a + 1] && tail[b] == rs[b + 1];
    }
    forall y | y in tail
      ensures y.id != rs[0].id
    {
      var j :| 0 <= j < |tail| && tail[j] == y;
      assert rs[j + 1] == y;
    }
    assert rs == [rs[0]] + tail;
  }

  /** Putting in records adds exactly their ids. */
  lemma {:induction false} PlacedKeys(m: Store, rs: seq<Record>)
    ensures Placed(m, rs).Keys == m.Keys + IdsOf(rs)
    decreases |rs|
  {
    if |rs| == 0 {
      assert IdsOf(rs) == {};
    } else {
      PlacedKeys(m[rs[0].id := rs[0]], rs[1..]);
      assert rs == [rs[0]] + rs[1..];
      assert IdsOf(rs) == {rs[0].id} + IdsOf(rs[1..]);
    }
  }

  /** Putting in records with distinct ids stores each unchanged and keeps
      every other stored record. */
  lemma {:induction false} PlacedValues(m: Store, rs: seq<Record>)
    requires DistinctIds(rs)
    ensures forall x | x in rs :: x.id in Placed(m, rs) && Placed(m, rs)[x.id] == x
    ensures forall k | k in m && k !in IdsOf(rs) :: k in Placed(m, rs) && Placed(m, rs)[k] == m[k]
    decreases |rs|
  {
    PlacedKeys(m, rs);
    if |rs| > 0 {
      var x := rs[0];
      var tail := rs[1..];
      DistinctTail(rs);
      PlacedKeys(m[x.id := x], tail);
      PlacedValues(m[x.id := x], tail);
      assert forall y | y in rs :: y == x || y in tail;
    }
  }

  /** Re-reading a restorable record gives an entry the import restores to
      that very record. */
  lemma ReadBackHead(rs: seq<Record>, now: Timestamp)
    requires |rs| > 0 && Restorable(rs[0])
    ensures var ds := AsDocRecords(rs);
            && ds[1..] == AsDocRecords(rs[1..])
            && HasRequired(ds[0])
            && Restore(ds[0], now) == rs[0]
  {
    var ds := AsDocRecords(rs);
    assert ds[1..] == AsDocRecords(rs[1..]);
    assert ds[0] == AsDocRecord(rs[0]);
  }

  /** The loop run over re-read records with new, distinct ids completes,
      having put in every one of them. */
  lemma {:induction false} LoopRestoresRecords(m: Store, rs: seq<Record>, now: Timestamp)
    requires DistinctIds(rs)
    requires forall x | x in rs :: Restorable(x) && x.id !in m
    ensures ImportLoop(m, {}, AsDocRecords(rs), now) == Completed(Placed(m, rs), |rs|)
    decreases |rs|
  {
    if |rs| == 0 {
      assert AsDocRecords(rs) == [];
    } else {
      ReadBackHead(rs, now);
      LoopAddsHead(m, {}, AsDocRecords(rs), now);
      TailStaysNew(m, rs);
      LoopRestoresRecords(m[rs[0].id := rs[0]], rs[1..], now);
    }
  }

  /** Putting a listing of a store's records into an empty store rebuilds it. */
  lemma PlacedListing(s: Store, rs: seq<Record>)
    requires ListsExactly(rs, s)
    ensures Placed(map[], rs) == s
  {
    PlacedKeys(map[], rs);
    PlacedValues(map[], rs);
    var p := Placed(map[], rs);
    assert IdsOf(rs) == s.Keys;
    forall k | k in s
      ensures p[k] == s[k]
    {
      assert s[k] in rs;
    }
  }

  /** Exporting every record and importing the document into an empty store
      gives back the same store, reporting every record imported and none
      skipped. */
  lemma ExportImportRoundTrip(s: Store, d: ExportDocument, now: Timestamp)
    requires ListsExactly(d.records, s) && d.appName == AppName
    requires forall k | k in s :: Restorable(s[k])
    ensures ImportData(map[], Reread(d), now).store == s
    ensures ImportData(map[], Reread(d), now).report == Imported(|s|, 0)
  {
    var rs := d.records;
    forall x | x in rs
      ensures Restorable(x)
    {
      var i :| 0 <= i < |rs| && rs[i] == x;
    }
    LoopRestoresRecords(map[], rs, now);
    PlacedListing(s, rs);
    var empty: Store := map[];
    assert empty.Keys == {};
    assert ImportLoop(empty, empty.Keys, AsDocRecords(rs), now) == Completed(s, |s|);
  }

  /** Two entries with the same new id in one document: the loop stops at the
      second of them, if not before. */
  lemma {:induction false} RepeatedNewIdAborts(
    s: Store, existing: set<string>, items: seq<DocRecord>, now: Timestamp, i: nat, j: nat)
    requires i < j < |items|
    requires HasRequired(items[i]) && HasRequired(items[j])
    requires items[i].id == items[j].id && items[i].id.value !in existing
    ensures var r := ImportLoop(s, existing, items, now);
            r.Aborted? && r.at <= j
    decreases i
  {
    var d := items[0];
    var tail := items[1..];
    if i == 0 {
      FirstOfRepeatAborts(s, existing, items, now, j);
    } else if d.NullItem? {
      LoopStopsAtNull(s, existing, items, now);
    } else {
      assert tail[i - 1] == items[i] && tail[j - 1] == items[j];
      if !HasRequired(d) || d.id.value in existing {
        LoopSkipsHead(s, existing, items, now);
        RepeatedNewIdAborts(s, existing, tail, now, i - 1, j - 1);
      } else if d.id.value !in s {
        RepeatedNewIdAborts(s[d.id.value := Restore(d, now)], existing, tail, now, i - 1, j - 1);
        LoopAddsHead(s, existing, items, now);
      } else {
        LoopStopsAtStored(s, existing, items, now);
      }
    }
  }

  /** The case of the repeat starting at the first entry: that entry is added
      or already stored, and either way the loop stops by the second. */
  lemma FirstOfRepeatAborts(s: Store, existing: set<string>, items: seq<DocRecord>, now: Timestamp, j: nat)
    requires 0 < j < |items|
    requires HasRequired(items[0]) && HasRequired(items[j])
    requires items[0].id == items[j].id && items[0].id.value !in existing
    ensures var r := ImportLoop(s, existing, items, now);
            r.Aborted? && r.at <= j
  {
    var d := items[0];
    var tail := items[1..];
    if d.id.value !in s {
      var s' := s[d.id.value := Restore(d, now)];
      assert tail[j - 1] == items[j];
      LoopAddsHead(s, existing, items, now);
      StoredIdAborts(s', existing, tail, now, j - 1);
    } else {
      LoopStopsAtStored(s, existing, items, now);
    }
  }

  /** An entry whose id is in the store but was not in the snapshot makes the
      loop stop when it reaches it, if not before. */
  lemma {:induction false} StoredIdAborts(
    s: Store, existing: set<string>, items: seq<DocRecord>, now: Timestamp, j: nat)
    requires j < |items| && HasRequired(items[j])
    requires items[j].id.value in s && items[j].id.value !in existing
    ensures var r := ImportLoop(s, existing, items, now);
            r.Aborted? && r.at <= j
    decreases j
  {
    var d := items[0];
    var tail := items[1..];
    if d.NullItem? {
      LoopStopsAtNull(s, existing, items, now);
    } else if j == 0 {
      LoopStopsAtStored(s, existing, items, now);
    } else {
      assert tail[j - 1] == items[j];
      if !HasRequired(d) || d.id.value in existing {
        LoopSkipsHead(s, existing, items, now);
        StoredIdAborts(s, existing, tail, now, j - 1);
      } else if d.id.value !in s {
        LoopAddsHead(s, existing, items, now);
        StoredIdAborts(s[d.id.value := Restore(d, now)], existing, tail, now, j - 1);
      } else {
        LoopStopsAtStored(s, existing, items, now);
      }
    }
  }

  /** A document repeating a new id is reported as failed; the records added
      before the failure stay, each the restored first entry carrying its id,
      and they are the new ids of the entries before the second repeat at most. */
  lemma RepeatedNewIdFailsImport(s: Store, doc: ImportDocument, now: Timestamp, i: nat, j: nat)
    requires doc.records.Items? && !ForeignAppName(doc.appName)
    requires i < j < |doc.records.items|
    requires HasRequired(doc.records.items[i]) && HasRequired(doc.records.items[j])
    requires doc.records.items[i].id == doc.records.items[j].id
    requires doc.records.items[i].id.value !in s
    ensures var r := ImportData(s, doc, now);
            var items := doc.records.items;
            && r.report.Failed?
            && (exists p | 0 <= p <= j ::
                  && CleanBefore(items, s.Keys, p) && FailsAt(items, s.Keys, p)
                  && r.store.Keys == s.Keys + NewIds(items[..p], s.Keys))
            && (forall k | k in s :: k in r.store && r.store[k] == s[k])
            && (forall k | k in r.store && k !in s ::
                  FirstCarrying(items, k) < |items| && r.store[k] == Restore(items[FirstCarrying(items, k)], now))
  {
    var items := doc.records.items;
    RepeatedNewIdAborts(s, s.Keys, items, now, i, j);
    StoppedImport(s, items, now);
    LoopStoresFirstEntries(s, s.Keys, items, now);
    var r := ImportLoop(s, s.Keys, items, now);
    assert ImportData(s, doc, now).store == r.store;
  }

  /** An entry that brings a new id and that the loop reaches after a clean
      prefix has its id stored, whether or not the loop stops later. */
  lemma CleanEntryIsStored(s: Store, items: seq<DocRecord>, now: Timestamp, i: nat)
    requires i < |items| && HasRequired(items[i]) && items[i].id.value !in s
    requires CleanBefore(items, s.Keys, i + 1)
    ensures items[i].id.value in ImportLoop(s, s.Keys, items, now).store
  {
    var k := items[i].id.value;
    var r := ImportLoop(s, s.Keys, items, now);
    if r.Aborted? {
      StoppedImport(s, items, now);
      if r.at <= i {
        FailureEndsClean(items, s.Keys, r.at, i + 1);
      }
      assert items[..r.at][i] == items[i];
      InNewIds(items[..r.at], s.Keys, k);
    } else {
      CompletedLoopAddsAllNewIds(s, s.Keys, items, now);
      InNewIds(items, s.Keys, k);
    }
  }

  /** When every entry before the second of two entries with the same new id
      is passed, the loop stops exactly there. */
  lemma CleanRepeatStopsThere(s: Store, items: seq<DocRecord>, now: Timestamp, i: nat, j: nat)
    requires i < j < |items|
    requires HasRequired(items[i]) && HasRequired(items[j]) && items[i].id == items[j].id
    requires items[i].id.value !in s
    requires CleanBefore(items, s.Keys, j)
    ensures var r := ImportLoop(s, s.Keys, items, now);
            r.Aborted? && r.at == j
  {
    var r := ImportLoop(s, s.Keys, items, now);
    RepeatedNewIdAborts(s, s.Keys, items, now, i, j);
    StoppedImport(s, items, now);
    assert items[..j][i] == items[i];
    InNewIds(items[..j], s.Keys, items[i].id.value);
    assert FailsAt(items, s.Keys, j);
    FailurePositionUnique(items, s.Keys, r.at, j);
  }

  /** Of two entries carrying the same new id, the first is stored unless an
      entry before it already stopped the import; and when every entry before
      the second is passed, the import fails exactly on the second. */
  lemma RepeatedNewIdKeepsFirst(s: Store, doc: ImportDocument, now: Timestamp, i: nat, j: nat)
    requires doc.records.Items? && !ForeignAppName(doc.appName)
    requires i < j < |doc.records.items|
    requires HasRequired(doc.records.items[i]) && HasRequired(doc.records.items[j])
    requires doc.records.items[i].id == doc.records.items[j].id
    requires doc.records.items[i].id.value !in s
    ensures var r := ImportData(s, doc, now);
            var items := doc.records.items;
            CleanBefore(items, s.Keys, i + 1) ==> items[i].id.value in r.store
    ensures var r := ImportData(s, doc, now);
            var items := doc.records.items;
            CleanBefore(items, s.Keys, j) ==>
              && r.report == Failed(AddFailed(items[j].id.value))
              && r.store.Keys == s.Keys + NewIds(items[..j], s.Keys)
  {
    var items := doc.records.items;
    var r := ImportLoop(s, s.Keys, items, now);
    RepeatedNewIdAborts(s, s.Keys, items, now, i, j);
    assert ImportData(s, doc, now) == ImportOutcome(r.store, Failed(r.error));
    if CleanBefore(items, s.Keys, i + 1) {
      CleanEntryIsStored(s, items, now, i);
    }
    if CleanBefore(items, s.Keys, j) {
      CleanRepeatStopsThere(s, items, now, i, j);
      StoppedImport(s, items, now);
    }
  }




  /** Concretely: an id repeated after another entry keeps both earlier
      records, and the import fails on the repeat. */
  lemma RepeatAfterOtherExample(now: Timestamp)
    ensures var a := DocRecord(Some("x"), Some(1), Some(120), Some(80), None, None, Some(1), Some(1));
            var b := a.(id := Some("y"));
            var r := ImportData(map[], ImportDocument(Some(AppName), Items([a, b, a])), now);
            r.store.Keys == {"x", "y"} && r.report == Failed(AddFailed("x"))
  {
    var a := DocRecord(Some("x"), Some(1), Some(120), Some(80), None, None, Some(1), Some(1));
    var b := a.(id := Some("y"));
    var items := [a, b, a];
    var empty: Store := map[];
    var s1 := empty["x" := Restore(a, now)];
    var s2 := s1["y" := Restore(b, now)];
    assert empty.Keys == {} && items[1..] == [b, a] && [b, a][1..] == [a];
    LoopAddsHead(empty, {}, items, now);
    LoopAddsHead(s1, {}, [b, a], now);
    LoopStopsAtStored(s2, {}, [a], now);
    assert s2.Keys == {"x", "y"};
  }

  /** A `null` entry before a repeated id stops the import before the first
      copy of that id is added. */
  lemma NullBeforeRepeatExample(now: Timestamp)
    ensures var a := DocRecord(Some("x"), Some(1), Some(120), Some(80), None, None, Some(1), Some(1));
            ImportData(map[], ImportDocument(Some(AppName), Items([NullItem, a, a])), now)
            == ImportOutcome(map[], Failed(NullEntry))
  {
    var a := DocRecord(Some("x"), Some(1), Some(120), Some(80), None, None, Some(1), Some(1));
    var empty: Store := map[];
    assert empty.Keys == {};
    LoopStopsAtNull(empty, {}, [NullItem, a, a], now);
  }

  /** Concretely: the first of two entries with id "x" is added, then the
      import fails on the second, keeping the first. */
  lemma RepeatedIdExample(now: Timestamp)
    ensures var a := DocRecord(Some("x"), Some(1), Some(120), Some(80), None, None, Some(1), Some(1));
            var b := a.(systolic := Some(130));
            ImportData(map[], ImportDocument(Some(AppName), Items([a, b])), now)
            == ImportOutcome(map["x" := Record("x", 1, 120, 80, None, None, 1, 1)], Failed(AddFailed("x")))
  {
    var a := DocRecord(Some("x"), Some(1), Some(120), Some(80), None, None, Some(1), Some(1));
    var b := a.(systolic := Some(130));
    var items := [a, b];
    var empty: Store := map[];
    var x := Record("x", 1, 120, 80, None, None, 1, 1);
    var s1: Store := map["x" := x];
    assert empty.Keys == {} && items[1..] == [b];
    assert Restore(a, now) == x;
    LoopAddsHead(empty, {}, items, now);
    assert empty["x" := x] == s1;
    LoopStopsAtStored(s1, {}, [b], now);
  }

  /** The import checks no ranges: a systolic of 500 is stored as it is,
      although the validator would refuse it. */
  lemma ImportSkipsRangeChecks(now: Timestamp)
    ensures var a := DocRecord(Some("x"), Some(1), Some(500), Some(80), None, None, Some(1), Some(1));
            var r := ImportData(map[], ImportDocument(None, Items([a])), now);
            && r.report == Imported(1, 0)
            && "x" in r.store && !Admissible(r.store["x"])
  {
    var a := DocRecord(Some("x"), Some(1), Some(500), Some(80), None, None, Some(1), Some(1));
    var items := [a];
    var empty: Store := map[];
    var x := Record("x", 1, 500, 80, None, None, 1, 1);
    assert empty.Keys == {} && items[1..] == [];
    assert Restore(a, now) == x;
    LoopAddsHead(empty, {}, items, now);
    assert ImportLoop(map["x" := x], {}, [], now) == Completed(map["x" := x], 0);
  }
}
