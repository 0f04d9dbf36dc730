# sbpr blood-pressure tracker: a Dafny model of its domain logic

sbpr ("simple blood-pressure record") is a browser application. It stores home
blood-pressure readings in an IndexedDB object store, classifies them with the
home-measurement column of the adult classification table of the Japanese
Society of Hypertension guidelines (JSH2019), and shows them in lists and a
chart. It can also back them up to a JSON file and read them back in.

This project models two layers of the application:

- **The measurement calculations of `local_app/bp.calc.js`.**
  - `classifyBP` and `classifyBPClass` are in module `Classify`.
  - `validateBPInput` is in module `Validate`.
  - `calcAverage` and `calcMinMax` are in module `Stats`.
  - Arithmetic is exact: integers and reals, not IEEE-754 doubles.
- **The record lifecycle of `local_app/script.js`.**
  - The object store is a map from id to record that keeps every record under
    its own `id`, its key path (module `Records`).
  - The store operations, insert-only `add` and overwriting `put`, follow the
    object store storage operation of section 5.1 of the W3C Indexed Database
    API (module `RecordStore`).
  - The save and edit flows are in module `Entry`.
  - The export document and the import merge are in module `Transfer`.
  - The recent list, the history filter and the chart series are in module
    `Views`.
  - `String.prototype.trim`, as applied to memos, is in module `Text`.

Timestamps are integers (milliseconds). New record ids and the clock reading
`now` are parameters. The parsed import document is a datatype.

Every operation is a pure function over immutable values, except
`GetAllRecords` and `ExportData`. Those two are methods, because the listing
order of records measured at the same moment is not fixed.

### Choices the code makes

- **Grade II threshold.** A reading is grade II when systolic ≥ 145 or
  diastolic ≥ 90 (`local_app/bp.calc.js:14`).
- **Rounding.** `Math.round` rounds halves up, towards +∞. The averages are
  floor(10·sum/n + ½)/10.
- **Cross-field check.** The systolic > diastolic check runs only when no
  message at all was collected, so a pulse or weight error also suppresses it
  (`local_app/bp.calc.js:80`).

## Model

| member | source | states |
|---|---|---|
| `Classify.ClassifyBP` | local_app/bp.calc.js:12-19 | The tier returned is one whose guideline row the reading reaches, and no more severe row is reached, so the checks run from grade III downwards and the first match wins |
| `Classify.MonotoneInSystolic` | local_app/bp.calc.js:13-17 | Raising the systolic reading with the diastolic fixed never gives a less severe tier |
| `Classify.MonotoneInDiastolic` | local_app/bp.calc.js:13-16 | Raising the diastolic reading with the systolic fixed never gives a less severe tier |
| `Classify.ClassifyBPClass` | local_app/bp.calc.js:26-36 | Each of the six labels maps to its own tag; any other string maps to `bp-normal` (names inherited from `Object.prototype` aside, see Left out) |
| `Classify.LabelsAndTagsOneToOne` | local_app/bp.calc.js:27-34 | Distinct tiers have distinct labels and distinct tags, so the label-to-tag map is one-to-one |
| `Classify.ClassifyExamples` | local_app/bp.calc.test.js:15-76 | Each unit-test reading gets the tier its test expects, including the boundaries 115, 114/74, diastolic 75, 135 and 160. The grade II edges 145 and 90 fall into grade II. An unknown label gives `bp-normal` |
| `Text.Trim` | local_app/script.js:231 | The trimmed memo is a slice of the input with only whitespace around it, and it neither starts nor ends with whitespace |
| `Text.TrimIdempotent` | local_app/script.js:393 | Trimming a trimmed memo changes nothing |
| `Validate.SystolicCheck` | local_app/bp.calc.js:47-54 | A missing systolic gives the "enter systolic" message; a present one outside the integers 50..300 gives the range message; at most one message |
| `Validate.DiastolicCheck` | local_app/bp.calc.js:56-63 | A missing diastolic gives its message; a present one outside the integers 30..200 gives the range message; at most one message |
| `Validate.PulseCheck` | local_app/bp.calc.js:65-70 | Only a present pulse outside the integers 30..250 gives a message |
| `Validate.WeightCheck` | local_app/bp.calc.js:72-78 | Only a present weight that is NaN or outside 20..300 gives a message |
| `Validate.FieldErrors` | local_app/bp.calc.js:44-78 | The per-field messages come in check order, at most one per check, never include the cross-field message, and are empty exactly when every field passes |
| `Validate.PressureErrors` | local_app/bp.calc.js:47-63 | Each systolic and diastolic message is in the list exactly when its condition holds |
| `Validate.OptionalFieldErrors` | local_app/bp.calc.js:65-78 | The pulse and weight messages are in the list exactly when their conditions hold |
| `Validate.ValidateBPInput` | local_app/bp.calc.js:43-89 | Valid exactly when no message was collected, and exactly when systolic is an integer in 50..300, diastolic an integer in 30..200, pulse absent or an integer in 30..250, weight absent or a number in 20..300, and systolic > diastolic. Messages are in check order. The cross-field message appears exactly when every field passes and systolic ≤ diastolic |
| `Validate.FirstErrorIsEarliest` | local_app/bp.calc.js:44-88 | The first message of a failed validation, the one the forms show, comes from the earliest failing check |
| `Validate.AcceptsTestReadings` | local_app/bp.calc.test.js:80-84 | 120/80 is valid with no messages |
| `Validate.AcceptsTestReadingWithPulse` | local_app/bp.calc.test.js:86-89 | 120/80 with pulse 72 is valid |
| `Validate.RejectsSystolicOutOfRange` | local_app/bp.calc.test.js:91-99 | Systolic 40 and systolic 310 are rejected |
| `Validate.RejectsPulseOutOfRange` | local_app/bp.calc.test.js:107-115 | Pulse 20 and pulse 260 are rejected |
| `Validate.RejectsMissing` | local_app/bp.calc.test.js:117-125 | A `null` systolic and an empty-string diastolic are rejected |
| `Validate.RejectsEqualPressures` | local_app/bp.calc.test.js:101-105 | 80/80 is rejected with exactly the cross-field message |
| `Validate.PulseErrorSuppressesCrossField` | local_app/bp.calc.js:65-86 | 80/80 with pulse 20 reports only the pulse message |
| `Validate.WeightErrorSuppressesCrossField` | local_app/bp.calc.js:72-86 | 80/80 with weight 10 reports only the weight message |
| `Stats.PulseCount` | local_app/bp.calc.js:103-106 | The number of readings with a pulse is zero exactly when no reading has one |
| `Stats.RoundHalfUp` | local_app/bp.calc.js:110 | `Math.round` gives the integer k with k − ½ ≤ x < k + ½, that is floor(x + ½): halves round up |
| `Stats.MeanToTenth` | local_app/bp.calc.js:110-112 | The result is a whole number of tenths within half a tenth of sum/n, halves rounding up |
| `Stats.RoundedMeanUnique` | local_app/bp.calc.js:110-112 | At most one tenth satisfies the rounding rule, so the rounded mean is determined by sum and count |
| `Stats.CalcAverage` | local_app/bp.calc.js:96-114 | Nothing exactly for a missing or empty list. Otherwise systolic and diastolic are the rounded means over all readings. The pulse is the rounded mean over the readings that have one, and is absent exactly when none has |
| `Stats.AverageExamples` | local_app/bp.calc.test.js:134-150 | 120/80 and 130/85 average to 125 and 82.5 with no pulse average; an empty list and `null` give nothing |
| `Stats.AveragePulseExample` | local_app/bp.calc.test.js:152-159 | Pulses 70 and 80 average to 75 |
| `Stats.AverageMissingPulseExample` | local_app/bp.calc.test.js:161-168 | A pulse of 70 next to a missing one averages to 70: the missing pulse is not counted |
| `Stats.Scan` | local_app/bp.calc.js:124-139 | The single pass over a non-empty list yields each field's largest and smallest value, each attained by some reading and bounding all |
| `Stats.CalcMinMax` | local_app/bp.calc.js:121-149 | Nothing exactly for a missing or empty list. Otherwise each extreme is attained by a reading and bounds every reading. The pulse extremes are absent exactly when no reading has a pulse |
| `Stats.MinAtMostMax` | local_app/bp.calc.js:141-148 | Every minimum is at most the matching maximum |
| `Stats.MinMaxExamples` | local_app/bp.calc.test.js:181-195 | 120/80 and 140/90 give systolic 140..120 and diastolic 90..80; the empty list gives nothing |
| `Stats.MinMaxPulseExample` | local_app/bp.calc.test.js:197-205 | Pulses 70 and 85 give pulse extremes 85 and 70 |
| `Records.AdmissibleIffValidates` | local_app/bp.calc.js:47-86 | A stored record's readings lie in the validator's ranges, with systolic above diastolic, exactly when the validator accepts them |
| `RecordStore.AddRecord` | local_app/script.js:36-45 | Fails exactly when the id is stored, leaving the store as it was. Otherwise it stores exactly this record under its id, returns the id, and changes no other key |
| `RecordStore.UpdateRecord` | local_app/script.js:52-61 | Stores the record under its id whether or not it existed and keeps every other record |
| `RecordStore.GetRecord` | local_app/script.js:87-96 | Returns the record stored under the id, or nothing exactly when none is |
| `RecordStore.InsertionPoint` | local_app/script.js:75 | The place for a record in a newest-first list: every record before it is measured at the same time or later, and the one after it earlier |
| `RecordStore.Insert` | local_app/script.js:75 | Inserting one record adds exactly that record (the list gains it once and keeps every other entry as often as before), keeps a newest-first list newest first, and keeps ids distinct when the record's id is new |
| `RecordStore.GetAllRecords` | local_app/script.js:67-80 | Lists every stored record exactly once, newest measurement first |
| `RecordStore.DeleteRecord` | local_app/script.js:103-112 | Removes only that id, keeps every other record, and is a no-op when the id is absent |
| `RecordStore.DeleteAllRecords` | local_app/script.js:118-127 | The store is empty afterwards |
| `RecordStore.AddVersusUpdate` | local_app/script.js:41-57 | On a fresh id add and put agree; on a stored id add fails while put overwrites |
| `RecordStore.DeleteUndoesAdd` | local_app/script.js:103-112 | Deleting a freshly added record gives back the store from before the add |
| `RecordStore.GetAfterWrite` | local_app/script.js:36-127 | A lookup right after a write sees it: the record just added under a fresh id or put, nothing under a just-deleted id, nothing after clearing |
| `RecordStore.ClearedStoreListsNothing` | local_app/script.js:67-127 | After clearing, a listing of the store is exactly the empty one |
| `Entry.Readings` | local_app/script.js:249-251 | An accepted form's readings are the typed whole numbers within the validator's ranges, systolic above diastolic, pulse absent exactly when the pulse input is blank |
| `Entry.SaveRecord` | local_app/script.js:227-271 | An invalid form is rejected with the first message and writes nothing. A valid form with a fresh id adds exactly one record, with the given id, created and updated `now`, measured at the form's time or `now`, the typed readings, and the trimmed memo or none. A taken id fails without writing |
| `Entry.SaveEditRecord` | local_app/script.js:388-428 | An invalid form or a missing id changes nothing. Otherwise the stored record keeps its id and creation time, takes the form's readings and memo, keeps its measurement time unless the form gives one, is updated `now`, and no other record changes |
| `Entry.Edit` | local_app/script.js:410-418 | The edited record keeps id and creation time, carries the form's readings and memo, and lies in the validator's ranges |
| `Entry.SavePreservesAdmissible` | local_app/script.js:234-258 | When every stored record lies in the validator's ranges, it still does after a save |
| `Entry.EditPreservesAdmissible` | local_app/script.js:396-421 | When every stored record lies in the validator's ranges, it still does after an edit |
| `Entry.ScenarioReadingValid` | local_app/e2e.test.js:163-165 | The reading 125/82 with pulse 72 passes the validator |
| `Entry.ScenarioSaved` | local_app/e2e.test.js:157-179 | Saving the browser test's form into an empty store adds exactly one record: 125/82 with pulse 72, the typed memo, measured at the minute the page put in the time input on loading (`setDefaultDateTime`, script.js:145 and 204-207), created and updated `now` |
| `Entry.ScenarioMemoKept` | local_app/script.js:231 | The browser test's memo has no whitespace at either end, so trimming keeps it as typed |
| `Entry.ScenarioClassified` | local_app/bp.calc.js:16 | 125/82 is high-normal |
| `Entry.SaveThenClassify` | local_app/e2e.test.js:157-179 | The saved scenario record has readings 125/82/72 and classifies as high-normal |
| `Entry.SingleListing` | local_app/script.js:67-80 | A store holding one record is listed as just that record |
| `Entry.DeleteOnly` | local_app/script.js:103-112 | Deleting the only record empties the store |
| `Entry.SaveListDelete` | local_app/e2e.test.js:181-204 | The browser test's save-then-delete flow, run on the form of the previous test (125/82, pulse 72, a memo) rather than this test's 130/85 without pulse or memo: the listing after the save is that one record, and deleting it empties the store |
| `Transfer.ExportData` | local_app/script.js:661-670 | The document names the application `sbpr`, carries the application version or `0.1.0`, and holds every stored record once, newest first, with the matching count |
| `Transfer.Restore` | local_app/script.js:717-726 | The record an import adds keeps the entry's id, readings and pulse as they are; each time is the entry's when truthy and `now` otherwise; the memo is the entry's when it is a non-empty string and none otherwise. The record has a non-empty id, non-zero readings and no empty memo |
| `Transfer.NewIds` | local_app/script.js:708-715 | The ids the loop sets out to add are disjoint from the snapshot taken before it |
| `Transfer.FirstCarrying` | local_app/script.js:712-715 | The position found is the first entry with truthy required fields carrying the id, or the end when there is none |
| `Transfer.InNewIds` | local_app/script.js:712-715 | An id is new exactly when some entry with a truthy id, systolic and diastolic carries it and it is not in the snapshot |
| `Transfer.StepOn` | local_app/script.js:713-727 | One entry: a `null` entry stops the loop; an entry with a falsy required field or a snapshot id is skipped; otherwise its restored record is added when its id is free, and the loop stops with the add failure when it is taken |
| `Transfer.LoopKeepsStored` | local_app/script.js:711-728 | The loop never changes or removes a stored record |
| `Transfer.LoopAddsOnlyNewIds` | local_app/script.js:711-728 | The loop adds no id but new ones |
| `Transfer.CompletedLoopCount` | local_app/script.js:711-728 | When the loop runs to the end, the store grows by exactly the count it reports, which is at most the number of entries |
| `Transfer.CompletedLoopAddsAllNewIds` | local_app/script.js:711-728 | A loop that runs to the end has added every new id |
| `Transfer.CompletedLoopMetNoNull` | local_app/script.js:712-713 | A loop that runs to the end met no `null` entry |
| `Transfer.LoopStopPosition` | local_app/script.js:711-728 | A loop that stops does so at its first failing entry. Every entry before it is an object, none repeats a new id, and none brings an id already stored. The entry itself is `null`, giving the null-entry error, or has truthy required fields and an id outside the snapshot that is stored by then, giving the add failure for that id |
| `Transfer.StoppedLoopPassedClean` | local_app/script.js:711-728 | The entries a stopped loop passed are all objects, repeat no new id, and bring no id that was stored when the loop began |
| `Transfer.StoppedLoopCause` | local_app/script.js:712-727 | The entry a loop stops at is `null`, with the null-entry error, or has truthy required fields and an id outside the snapshot, with the add failure for that id |
| `Transfer.FailureEndsClean` | local_app/script.js:711-727 | Once an entry is `null` or repeats a new id of an earlier entry, no longer prefix of the entries is passed cleanly |
| `Transfer.FailurePositionUnique` | local_app/script.js:711-727 | At most one entry fails after a clean prefix, so the position at which an import fails is the first failing entry |
| `Transfer.StoppedImport` | local_app/script.js:707-728 | An import loop over the ids stored beforehand stops at the first failing entry, with the null-entry error for a `null` and the add failure for a repeated id, having added exactly the new ids of the entries before it |
| `Transfer.StoppedLoopKeys` | local_app/script.js:711-728 | A loop that stops has added exactly the new ids of the entries before the one it stopped at |
| `Transfer.LoopStoresFirstEntries` | local_app/script.js:711-728 | Every record the loop adds is the restored first entry carrying its id |
| `Transfer.LoopSkipsHead` | local_app/script.js:713-715 | An entry with a falsy required field or a snapshot id is skipped without effect |
| `Transfer.LoopStopsAtStored` | local_app/script.js:715-726 | An entry whose id was not in the snapshot but is stored by now makes the add fail and ends the loop |
| `Transfer.LoopStopsAtNull` | local_app/script.js:712-713 | A `null` entry ends the loop: reading its `id` throws |
| `Transfer.LoopAddsHead` | local_app/script.js:717-727 | An added entry grows the store by its record, and the rest of the loop counts one more |
| `Transfer.ImportData` | local_app/script.js:700-733 | A missing or non-array `records`, or a present `appName` other than `sbpr`, fails before any write. Otherwise every existing record stays, and every added one is the restored first entry carrying its id. On success no entry was `null`, the store gains exactly the new ids, and it reports imported = number of new ids and skipped = total − imported. A well-formed, own-application document that fails names its first failing entry: every entry before it is an object and repeats no new id. The error is the null-entry error when that entry is `null`, and otherwise the add failure for its id, which an earlier entry brought. The store keeps exactly the new ids of the entries before it |
| `Transfer.ReimportIsNoOp` | local_app/script.js:708-715 | A well-formed document without `null` entries bringing no new id leaves the store unchanged and reports every entry skipped |
| `Transfer.ImportTwiceIsNoOp` | local_app/script.js:708-730 | Importing the same document a second time after a successful import changes nothing |
| `Transfer.AbortedIdWasAdded` | local_app/script.js:715-726 | When an add fails, its id was not in the snapshot and is either in the store the loop started from or a new id of an entry before the one the loop stopped on, that is, one the loop added |
| `Transfer.LoopCompletes` | local_app/script.js:711-728 | The loop runs to the end when no entry is `null`, no new id repeats, and no new id is stored yet |
| `Transfer.ImportSucceedsExactly` | local_app/script.js:700-733 | An import reports success exactly when `records` is an array, the application name is not foreign, no entry is `null`, and no id outside the snapshot is carried by two entries with truthy required fields |
| `Transfer.ImportKeepsRestorable` | local_app/script.js:711-728 | A store whose records are all restorable stays so after an import, so together with the save and edit flows every reachable store can be exported and imported back |
| `Transfer.SavedRecordsRestorable` | local_app/script.js:246-255 | Records written by the save and edit flows have non-zero readings and no empty memo, so the import restores them unchanged |
| `Transfer.ReadBackHead` | local_app/script.js:717-726 | Re-reading an exported record gives an entry that the import restores to the very same record |
| `Transfer.LoopRestoresRecords` | local_app/script.js:711-728 | The loop over re-read records with distinct, new ids runs to the end, counts every one, and puts each one in unchanged |
| `Transfer.ExportImportRoundTrip` | local_app/script.js:661-728 | Importing an export of every record into an empty store rebuilds the same store, reporting every record imported and none skipped |
| `Transfer.RepeatedNewIdAborts` | local_app/script.js:715-726 | A new id that appears twice among the entries makes the loop stop, at the second of them or earlier |
| `Transfer.FirstOfRepeatAborts` | local_app/script.js:715-726 | When the first entry's new id repeats later, the loop stops by that repeat |
| `Transfer.StoredIdAborts` | local_app/script.js:715-726 | An entry whose id is stored but was not in the snapshot makes the loop stop there or earlier |
| `Transfer.RepeatedNewIdFailsImport` | local_app/script.js:712-733 | A document repeating a new id fails the import, at its first failing entry, at the repeat or earlier. What was added before the failure stays: the new ids of the entries before that entry, each the restored first entry carrying it, with the existing records unchanged |
| `Transfer.CleanEntryIsStored` | local_app/script.js:711-727 | An entry that brings a new id and follows a clean prefix has its id stored, whether or not the loop stops later |
| `Transfer.CleanRepeatStopsThere` | local_app/script.js:711-727 | When every entry before the second copy of a new id is passed cleanly, the loop stops exactly at that copy |
| `Transfer.RepeatedNewIdKeepsFirst` | local_app/script.js:711-733 | Of two entries with the same new id, the first is stored unless an earlier entry stopped the import. When the entries before the second pass cleanly, the import fails on the second with its add failure, keeping the new ids of the entries before it |
| `Transfer.RepeatedIdExample` | local_app/script.js:712-733 | Two entries with id "x": the first is added and kept, and the import fails on the second |
| `Transfer.RepeatAfterOtherExample` | local_app/script.js:712-733 | Entries "x", "y", "x": both "x" and "y" are kept and the import fails on the second "x" |
| `Transfer.NullBeforeRepeatExample` | local_app/script.js:711-733 | A `null` entry before two entries "x" stops the import at once: nothing is added and the error is the null-entry error |
| `Transfer.ImportSkipsRangeChecks` | local_app/script.js:713-726 | A systolic of 500 is imported as it is although the validator refuses it |
| `Views.RecentRecords` | local_app/script.js:283-286 | The recent list has min(10, n) records, the first ones listed |
| `Views.RecentAreNewest` | local_app/script.js:283-286 | Over the newest-first listing, no record left out is newer than any shown, nothing is left out when there are at most ten, and the list stays newest first |
| `Views.Window` | local_app/script.js:630-638 | Filtering keeps exactly the listed records measured inside the window, and no more than the listing holds; how often and in what order is stated by `Views.WindowKeepsCounts` and `Views.WindowKeepsOrder` |
| `Views.WindowKeepsCounts` | local_app/script.js:630-638 | Each record inside the window appears as often as it is listed, and no record outside it appears |
| `Views.WindowKeepsOrder` | local_app/script.js:630-638 | The filtered list is the listing with entries dropped, the rest in their order |
| `Views.WindowKeepsNewestFirst` | local_app/script.js:630-638 | Filtering a newest-first listing keeps it newest first |
| `Views.WindowKeepsOldestFirst` | local_app/script.js:448-452 | Filtering an oldest-first listing keeps it oldest first |
| `Views.OpenWindowKeepsAll` | local_app/script.js:630-638 | A window open at both ends keeps every record in order |
| `Views.HistoryRecords` | local_app/script.js:624-638 | The history shows the listing with entries dropped, in order: each record measured at or after the start day (when one is chosen) and before the start of the day after the end day (when one is chosen), as often as it is listed, and no other |
| `Views.HistoryKeepsOrder` | local_app/script.js:624-638 | The history keeps the newest-first order |
| `Views.HistoryUnfilteredIsAll` | local_app/script.js:628-638 | With neither day chosen the history shows every record |
| `Views.HistoryIncludesEndDay` | local_app/script.js:634-638 | A record measured during the end day is shown, and a window ending a day earlier does not show it |
| `Views.Reverse` | local_app/script.js:446 | The reversed list has the same length, with the element at i taken from position n − 1 − i |
| `Views.ReverseKeepsRecords` | local_app/script.js:446 | Reversing keeps exactly the listed records, each as often |
| `Views.ReverseFlipsOrder` | local_app/script.js:446 | Reversing a newest-first listing gives an oldest-first one, and reversing twice gives the listing back |
| `Views.ChartRecords` | local_app/script.js:444-455 | The chart shows the reversed listing with entries dropped, in order: each record measured at or after `now` minus the period in days (every record for the period "all"), as often as it is listed, and no other |
| `Views.ChartRunsOldestFirst` | local_app/script.js:444-455 | Over the newest-first listing the chart series runs oldest first, and with the period "all" it is the whole listing reversed |

## Left out

- IndexedDB plumbing is not modelled: opening the database, transactions, request callbacks and promises. The store is a map, and each operation applies in sequence.
- Failed requests are not modelled, except for the constraint error of `add` on a taken key. That error is what a save with a taken id and a repeated id inside one import run into.
- DOM and presentation are not modelled: tabs, messages and their timers, dialogs, rendering of list items, HTML escaping, `alert`.
- The chart library is not modelled: `updateChart`'s configuration and `updateStats`'s text.
- `generateId` is not modelled. It draws on randomness and crypto, so the id is a parameter of `SaveRecord`.
- Date handling is not modelled: `formatDateTime`, `formatDateTimeLocal`, parsing of ISO-8601 and `datetime-local` strings, and the export file name.
  - Timestamps are integers in milliseconds.
  - A form's datetime input arrives already parsed, or as nothing when it is empty.
  - A history day is its start time. The "following day" is that time plus 86 400 000 ms, so days that are not 24 hours long, as at a daylight-saving change, are not modelled.
- JSON parsing and serialisation are not modelled, nor the file, Blob and URL download and upload. The import acts on a parsed document. `Reread` gives the document an export reads back as: every property present, with `null` ones absent.
- IEEE-754 doubles are not modelled. Averages, comparisons and `Number.isInteger` use exact reals, and `NaN` is a separate value. Infinities are not modelled.
- The `api/` directory is not part of this model. It is a network proxy for another service.
- The browser test file drives a real browser. Its profile, AI and weight tests call functions outside `script.js` and `bp.calc.js`, so only the scenario readings of two of its tests appear here.
- `Transfer.Restore`: the import runs `Number(...)` on systolic, diastolic and pulse. The model takes these properties as integers already, so string-valued or fractional numbers in an imported file are not modelled. A falsy `measuredAt`, `createdAt` or `updatedAt` (missing, `null`, or an empty string) is the absent value, and it defaults to `now`.
- `Transfer.ImportData`: the source reads the clock afresh for each default time. The model uses a single `now` for the whole import.
- `Transfer.ImportData`: an entry is an object or `null`. Entries that are numbers, strings, booleans or arrays are not modelled, nor ids and memos that are numbers or other non-string values, nor an `appName` that is not a string. The source treats a truthy non-string `appName`, such as a number or `true`, as naming another application; the model has no such value. A `null` entry ends the loop with an error, as the source's property read throws.
- `Classify.ClassifyBPClass`: for a name inherited from `Object.prototype` (`constructor`, `toString`, `__proto__` and the like) the source returns the inherited value, not a tag; the model returns `bp-normal`. Its only caller (`local_app/script.js:303`) passes a label `classifyBP` produced.
- `RecordStore.GetAllRecords`: the source sorts the object store's key-ordered listing with a stable sort. The model fixes no order among records measured at the same moment.
- `Views.ChartRecords`: the cutoff is `now` minus the period in whole days of 86 400 000 ms. The source steps the local calendar date back, which differs across a daylight-saving change.
- `Stats.CalcAverage` and `Stats.CalcMinMax` take the readings (systolic, diastolic, optional pulse) of the records, which is all those functions read.
- The weight field is modelled only inside the validator. The save and edit forms never pass it, and stored records have no weight.
