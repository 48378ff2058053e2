# Periodontal patient record keeper, modelled in Dafny

The record keeper stores periodontal patients and their appointments. Four appointment classes exist: `PeriodicExam`, `LimitedExam`, `ComprehensiveExam` and `Surgery`. They are kept as YAML lists of flat records, one record per (patient, appointment).

The repository holds several snapshots of one design:

- core.py holds the record classes.
- storage.py holds the repository that saves and loads them.
- application.py and perio.py are the `Application` object that the command line drives.
- perio-recorder.py is a self-contained copy of all three, whose records use the key `type` instead of `_type`.

The model covers the shared design once. Where the snapshots differ it takes a parameter: `Core.Layout` is the discriminator key and `Service.Snapshot` is the mrn argument check.

## Files

| file | module | models |
|---|---|---|
| values.dfy | `Values` | scalars (`Value`), flat records (`Record = map<string, Value>`), the Python exceptions raised (`Failure`), `Result` and `Option` |
| text.dfy | `Text` | Python's `<` on `str`, and `str(int)` |
| dates.dfy | `Dates` | calendar dates, `strftime('%Y%m%d')` as `Format` and `strptime(..., '%Y%m%d')` as `Parse` |
| lists.dfy | `Lists` | the first-hit `for` loop and `list.remove` |
| core.dfy | `Core` | `Patient` and the four appointment classes: identity (`__eq__`), construction from a record, `to_dict` and `to_stats_dict`; core.py's aliasing `to_dict` as an object with a mutable `__dict__`, `AppointmentObject` |
| storage.dfy | `Storage` | `Repo.save`, `Repo._add_record` and `Repo._load_obj`; the class `Repo` holds the patient list that `_add_record` appends to |
| stats.dfy | `Stats` | `tally_stats`: the date window, the collecting loops and the four counters |
| service.dfy | `Service` | the operations of `Application` as functions of the patient list |
| application.dfy | `App` | the class `Application`, whose methods update its patient list in place, and the search loops they run |

Patients and appointments are values. `patient.appointments.append(x)` is modelled as replacing that patient in the patient list held by `Repo` or `Application`.

Each loop of the source is a method, proved equal to a specification function. Examples are `App.ScanMrn` against `Core.IndexOfMrn`, `Stats.CountBuckets` against `Stats.Tally` and `Storage.Repo.Load` against `Storage.LoadAll`. The lemmas are stated about those functions.

## Model

| member | source | states |
|---|---|---|
| Text.NatToString | application.py:178-179 | `str(n)` is a non-empty run of decimal digits without a leading zero |
| Text.NatToStringValue | application.py:178-179 | `int(str(n)) == n`: the decimal text of a number reads back as that number |
| Text.IntToStringInjective | application.py:352-353 | distinct ints have distinct `str` texts, so an int mrn stands for exactly one text mrn |
| Dates.Format | core.py:82 | a date formats as exactly eight decimal digits |
| Dates.ParseFormat | core.py:28 | parsing the `YYYYMMDD` text of any valid date gives back that date (birthday and appointment date alike) |
| Dates.FormatParse | core.py:100 | formatting a parsed `YYYYMMDD` text reproduces the eight-digit input |
| Dates.FormatOrder | application.py:199 | comparing two `YYYYMMDD` texts as strings orders them exactly as comparing the dates does (both directions) |
| Dates.FormatInjective | core.py:114 | distinct dates have distinct texts |
| Lists.FirstWhere | application.py:359-362 | the index a first-hit `for` loop stops at satisfies the test and no earlier one does; None exactly when none does |
| Lists.RemoveAt | application.py:228 | removing element i keeps the elements before it and shifts the ones after it down by one |
| Lists.RemoveAtMultiset | application.py:248 | removing element i takes exactly that one element out of the multiset |
| Core.VariantNamed | storage.py:124-133 | only the four class names name a class, each its own |
| Core.IndexOfMrn | storage.py:136-137 | the patient a `for patient in patients: if patient == key` loop stops at has the mrn and is the first such; None exactly when no patient has it |
| Core.IndexOfMrnAt | storage.py:136-142 | the first patient with the mrn is the one the search returns |
| Core.PatientKeyFormsAgree | core.py:46-53 | a patient equals another patient, that patient's dict, or its mrn string exactly when the mrns match |
| Core.AppointmentEqualsMeaning | core.py:146-151 | against an appointment, equality means same date and same class; against a date, the class is ignored; a same-date appointment of another class matches the date but not the appointment |
| Core.PatientFromRecordMeaning | core.py:25-30 | `Patient(record)` succeeds exactly when the five patient keys are present and the birthday parses; it then copies them and starts with no appointments |
| Core.AppointmentFromRecordMeaning | core.py:128-133 | an appointment is built exactly when the discriminator names a class and `date` parses; asa, note and the class's fields are read with `.get` (absent means None); a missing discriminator raises KeyError and an unknown one ValueError |
| Core.FieldNamesReserved | core.py:199-213 | no procedure field of any class is named like a patient key, `date`, `asa`, `note` or a discriminator |
| Core.ToDictShape | core.py:113-116 | `to_dict` has exactly the discriminator (the class name), `date` as `YYYYMMDD`, `asa`, `note` and the class's fields, and no patient key |
| Core.StatsDictIsDictWithoutAsaNote | core.py:178-184 | `to_stats_dict` is `to_dict` with exactly `note` and `asa` removed |
| Core.AppointmentRoundTrip | storage.py:124-131 | the appointment built from its own `to_dict`, merged over any record, is that appointment |
| Core.PatientToDictMeaning | core.py:80-85 | `Patient.to_dict` has exactly mrn, first, last, birthday as `YYYYMMDD` and sex, and no `appointments`; building a patient from it gives the patient without appointments |
| Core.PatientRoundTrip | storage.py:144 | the patient built from a saved row (its dict merged with an appointment's) is that patient without appointments |
| Core.AppointmentObject.constructor | core.py:91-102 | an object's `__dict__` after `__init__`: the date object, asa, note and the fields |
| Core.AppointmentObject.ToDict | core.py:104-117 | as written, `to_dict` overwrites the object's `date` with its text and adds `_type`, and returns a copy; a second call fails on the text date |
| Core.AliasedToDictTwice | core.py:113-115 | after the first `to_dict` the result is right, but the object no longer equals its own date, and a second `to_dict` raises AttributeError |
| Core.AliasedFirstCallRecord | core.py:162-166 | the record the first aliased call returns is `Core.ToDict` with key `_type` |
| Core.AliasedAttrs | core.py:113-115 | what the aliased call leaves in `__dict__`: the date as text, `_type`, asa, note and the fields |
| Core.RecorderLimitedStatsDropsMiscellaneous | perio-recorder.py:232-249 | perio-recorder.py's `LimitedExam.to_stats_dict` lacks `miscellaneous`, so it differs from `to_dict` without `asa` and `note` |
| Storage.PatientRows | storage.py:87-90 | one row per appointment of the patient |
| Storage.FlattenCount | storage.py:85-92 | `save` emits exactly one record per (patient, appointment); a patient without appointments emits nothing |
| Storage.FlattenSnoc | storage.py:85-90 | the records come patient by patient, in list order |
| Storage.PatientRowsContent | storage.py:86-89 | each saved row holds the patient's keys unchanged (birthday as `YYYYMMDD`), the appointment's class name and its date text |
| Storage.RowReadsBack | storage.py:86-89 | a saved row rebuilds its appointment and its patient, and carries the patient's mrn |
| Storage.UpsertKnown | storage.py:135-142 | with a known mrn the appointment is appended to the first matching patient and nothing else changes |
| Storage.UpsertUnknown | storage.py:144-146 | with an unknown mrn one new patient holding exactly that appointment is appended at the end |
| Storage.UpsertRejectsUnknownType | perio-recorder.py:466-475 | a discriminator that names no class raises ValueError |
| Storage.UpsertCounts | storage.py:124-146 | each `_add_record` adds exactly one appointment and at most one patient, and keeps mrns distinct and appointments well formed |
| Storage.PlacedCounts | storage.py:135-146 | placing a built appointment adds one appointment and at most one patient and keeps the invariants |
| Storage.Upsert | storage.py:113-146 | the dispatch and the patient loop of `_add_record` compute `Storage.Upserted` |
| Storage.Place | storage.py:135-146 | the patient loop of `_add_record` computes `Storage.Placed` |
| Storage.UnknownTypeCrashes | storage.py:132-133 | as written, an unknown `_type` is only logged and the load then fails on the unbound `exam` (UnboundLocalError) |
| Storage.LoggedAgreesOnKnownTypes | storage.py:124-146 | on every record without an unknown class the as-written and the corrected `_add_record` agree |
| Storage.LoadConcat | storage.py:58-59 | loading two batches in turn is loading their concatenation; an exception stops the load |
| Storage.LoadCounts | storage.py:58-59 | a load keeps mrns distinct, and a complete one adds one appointment per record |
| Storage.LoadFromEmpty | storage.py:55-59 | after a complete load into an empty repository the appointments number the records and no two patients share an mrn |
| Storage.LoadSaved | storage.py:71-92 | loading what `save` wrote into an empty repository gives the same patients in the same order, with the same appointments, except patients without appointments |
| Storage.Repo.constructor | storage.py:26-37 | a new repository has the layout given and no patients |
| Storage.Repo.Save | storage.py:71-92 | the records `save` writes are the flattened rows |
| Storage.Repo.SaveOne | storage.py:86-90 | the inner loop yields exactly the patient's rows |
| Storage.Repo.AddRecord | storage.py:113-146 | the list becomes `Storage.Upserted`, or stays as it was when an exception is raised |
| Storage.Repo.Load | storage.py:55-59 | the loop over the records leaves the patients and the exception of `Storage.LoadAll` |
| Stats.WindowForms | application.py:266-280 | a bound given as a date, as its `YYYYMMDD` text or as the int with that text gives the same strict window |
| Stats.KeptOfMeaning | application.py:282-291 | exactly the appointments strictly inside the window are kept, and without a window all of them in order |
| Stats.Tally | application.py:293-336 | the tally returns four counters |
| Stats.CountedIsRecorded | application.py:302-307 | the keys a stats record counts are its date and the procedures whose value is not None |
| Stats.AbsorbedCounts | application.py:302-307 | the inner loop bumps each counted key once in the record's own counter, and no other |
| Stats.TypeNeverRecorded | application.py:306 | the discriminator is never counted |
| Stats.TallyMeaning | application.py:293-336 | the tally succeeds, and each class's counter holds the number of its appointments under the class name and, under every other key, the number of its appointments that recorded that key |
| Stats.TallyStopsAt | application.py:298-300 | a record that raises ends the tally with that exception |
| Stats.CollectStats | application.py:282-291 | the collecting loops gather the stats records of the kept appointments, patient by patient |
| Stats.CollectOf | application.py:283-285 | the inner collecting loop over one patient |
| Stats.AbsorbRow | application.py:302-307 | the loop over a record's items computes `Stats.Absorbed` |
| Stats.CountBuckets | application.py:298-334 | the loop over the records computes `Stats.Tally` |
| Stats.ComprehensiveCountResets | application.py:318-325 | as written, two ComprehensiveExams count `date` once, because the key is looked up in `limited`; the intended tally counts it twice |
| Stats.LimitedThenComprehensiveFails | application.py:323 | as written, a LimitedExam followed by a ComprehensiveExam raises KeyError('date'); the intended tally succeeds |
| Stats.TallyPair | application.py:298-336 | the intended tally of any two well-formed appointments succeeds |
| Stats.TallyTwice | application.py:318-325 | the intended tally of two records of one appointment counts its date twice |
| Service.MrnArgMeaning | perio.py:328-332 | an int mrn and its decimal text are the same mrn; perio.py and perio-recorder.py accept exactly ints and strs, go on with a str and otherwise raise ValueError; application.py goes on with any argument |
| Service.FoundPatientMeaning | perio.py:328-338 | a patient is found exactly when one has the mrn, and it is the first patient with that mrn; an int finds what its text finds |
| Service.FoundPatientUnique | application.py:359-362 | with distinct mrns the patient found is the one with the mrn |
| Service.SortDescMeaning | application.py:198-199 | the sort returns the same appointments, newest first, keeping same-day appointments in their order (stable) |
| Service.SortedDescByText | application.py:199 | newest-first by date is non-increasing on the `YYYYMMDD` text the source sorts on |
| Service.PatientRecordsMeaning | perio.py:165-186 | the first matching patient's dict and the dicts of a stable newest-first rearrangement of exactly its appointments; None exactly when no patient has the mrn |
| Service.RecordsNotFound | application.py:185-208 | an mrn no patient has gives None in all three copies (`patient_info` starts as None) |
| Service.FirstMatch | application.py:156-157 | the appointment found equals the key and none before it does; None exactly when none does |
| Service.Target | application.py:152-157 | the first patient with the mrn that holds a matching appointment, and that appointment; None exactly when no such patient holds one |
| Service.RemoveFindsTarget | application.py:158 | `remove(appointment)` removes the appointment found, not an earlier equal one |
| Service.RemovePatientFindsTarget | perio.py:107 | `remove(patient)` removes the patient found |
| Service.ModifiedAppointmentMeaning | application.py:152-160 | a modification removes, from the first patient with the mrn that holds one, its first appointment of the same date and class, and appends the new one after the others, which keep their order; other patients are kept and the count is unchanged |
| Service.ModifiedAppointmentNotFound | application.py:152-162 | when nothing is modified the list is unchanged and no patient with the mrn holds an appointment of the same date and class |
| Service.ModifiedAppointmentKeeps | application.py:152-160 | a modification keeps mrns distinct and appointments well formed |
| Service.ModifyWithOwnRecord | application.py:152-160 | modifying a patient's latest appointment with its own saved row changes nothing |
| Service.DeletedAppointmentMeaning | application.py:220-231 | a deletion removes the first appointment on the date, whatever its class, of the first patient with the mrn that has one; other patients are kept and the count drops by one |
| Service.DeletedAppointmentNotFound | application.py:220-233 | when nothing is deleted the list is unchanged and every patient with the mrn (if any) has no appointment on the parsed date |
| Service.DeletedAppointmentKeeps | application.py:220-231 | a deletion keeps mrns distinct and appointments well formed |
| Service.AddThenDeleteAppointment | application.py:63-68 | adding an appointment on a new date to a known patient, then deleting on that date, gives back the list |
| Service.DeletedPatientMeaning | perio.py:222-227 | a deletion removes exactly the first patient with the key's mrn, if any; otherwise nothing changes; with distinct mrns no patient with that mrn is left |
| Service.AddThenDeletePatient | perio.py:222-227 | adding an appointment for a new patient, then deleting that patient, gives back the list |
| Service.DeleteNoReturnAgrees | application.py:246-251 | with distinct mrns, application.py's `delete_patient` without `return` leaves the same list as the returning version |
| Service.DiffMeaning | application.py:112-115 | the diff succeeds exactly when the record has every key; before/after then hold exactly the keys whose values differ, with old and new values; otherwise KeyError names the first missing key |
| Service.DiffStopsAt | application.py:112-113 | once a key is missing the loop raises that KeyError |
| Service.ModifiedPatientMeaning | perio.py:90-110 | the first patient with the mrn is replaced by the patient the record describes, moved to the end, keeping the old appointments in order; the counts and invariants are kept |
| Service.MovedKeepsInvariants | perio.py:107-108 | moving a patient to the end with its appointments keeps the total, distinct mrns and well-formedness |
| Service.ModifyWithOwnDict | perio.py:90-110 | modifying a patient with its own dict reports an empty diff and only moves it to the end |
| Service.ModifyNoReturnRaises | application.py:105-128 | as written, the list ends as the returning version leaves it, but the loop goes on and raises TypeError unless the patient was the last one |
| Service.ModifyNoReturnOtherwiseAgrees | application.py:105-128 | where the returning version raises or finds nothing, the as-written one does the same |
| App.ScanMrn | application.py:359-362 | the loop computes `Core.IndexOfMrn` |
| App.ScanAppointments | application.py:156-157 | the loop computes `Service.FirstMatch` |
| App.FindTarget | application.py:152-157 | the nested loops compute `Service.Target` |
| App.Diff | application.py:112-115 | the loop computes `Service.DiffOver` |
| App.LoadKeepsValid | storage.py:58-59 | a load that starts from a consistent list leaves one |
| App.DeletedPatientWellFormed | perio.py:224 | removing a patient keeps the remaining appointments well formed |
| App.Application.constructor | perio.py:25-27 | the object holds a repository of its snapshot's layout and a consistent patient list (Valid) |
| App.Application.Open | application.py:26-37 | a repository for the snapshot's layout loads the records; an exception means no object; the object's list is the load's and is consistent |
| App.Application.AddAppointment | perio.py:29-59 | the list becomes `Storage.Upserted`, or is unchanged on an exception; consistency is kept |
| App.Application.Save | application.py:76-89 | the records saved are the flattened rows; loaded back they give the same patients in order, except that patients without appointments are not reloaded |
| App.Application.FindPatient | perio.py:318-338 | the result of `Service.FoundPatient` |
| App.Application.ReturnPatientRecords | perio.py:148-186 | the result of `Service.ReturnedRecords` |
| App.Application.ModifyPatient | perio.py:74-112 | the list and result of `Service.ModifiedPatient`; unchanged on an exception; consistency kept |
| App.Application.ModifyAppointment | perio.py:114-146 | the list and result of `Service.ModifiedAppointment`; unchanged on an exception; consistency kept |
| App.Application.DeleteApt | perio.py:188-209 | the list and result of `Service.DeletedAppointment`; unchanged on an exception; consistency kept |
| App.Application.DeletePatient | perio.py:211-227 | the list and result of `Service.DeletedPatient`; unchanged on an exception; consistency kept |
| App.Application.TallyStats | perio.py:229-316 | the corrected tally `Stats.TallyStats` on the object's list; the `k in limited` defect of perio.py:300 and 309 is not reproduced (see Findings) |

## Left out

- YAML reading and writing (`_get_from_yaml`, `_push_to_yaml`) and the file names. Load and save work on `seq<Record>`: `Storage.Repo.Load` takes the records read and `Storage.Repo.Save` returns the records written.
- The command-line layer: `parse_args`, `_add_mod_apt` and `main`.
- Logging, `RUNTIME_ID`, `today_date` (the clock), `__str__`/`__repr__`, and the `self_test`/`test` harnesses.
- The messages the operations return are reduced to found or not found (`bool`, `Option`).
- perio.py imports `core2`, which is not part of this model. core.py's classes stand in for it.
- `strptime` accepts fields without zero padding; `Dates.Parse` accepts exactly eight digits that form a date of years 1 to 9999.
- Dates.Format: pads years below 1000 to four digits. There CPython's `strftime('%Y')` follows the C library (glibc writes no padding), so `Dates.ParseFormat`, `Dates.FormatParse` and `Dates.FormatOrder` describe the source only for years 1000 to 9999.
- Aliasing: Patient objects, and the list `Application` shares with its `Repo`, are not modelled as shared. Patients are values in a `seq`.
- application.py `modify_patient` with a non-dict argument only logs, then compares it in the loop. The model treats the argument as a key (`Core.PatientKey`), so that path is not modelled.
- application.py `modify_appointment` with an unknown class: after the log, the unbound `exam` is read. This path is not modelled separately. The model raises ValueError as perio.py does.
- `tally_stats` bounds of other types (a float, a list) are not modelled: `Stats.Bound` is None, int, str or date.
- `Stats.Tally`: its own contract only promises four counters. What they mean is `Stats.TallyMeaning`.
- `Service.SortDescMeaning`: the sort is modelled on the dates. `Service.SortedDescByText` and `Dates.FormatOrder` connect it to the `YYYYMMDD` text the source sorts on.
- The `Application` class uses the corrected behaviour of every finding below, in all three snapshots. For the tally this is a behaviour none of the three copies has: application.py:322 and 331, perio.py:300 and 309 and perio-recorder.py:723 and 732 all test `k in limited` in the ComprehensiveExam and Surgery branches. The snapshots differ only in the discriminator key and in the mrn argument check.
- App.Application.TallyStats: returns the corrected tally, not the `k in limited` tally all three copies compute. The as-written tally is `Stats.TallyAsWritten`.

## Findings

| source | as written | input that shows it | evidently intended | confidence | as-written member | corrected member |
|---|---|---|---|---|---|---|
| core.py:113-115 | `to_dict` takes `record = self.__dict__` and overwrites `date` with its text and adds `_type` on the object itself | any appointment: after one `to_dict` it no longer equals its date, and a second `to_dict` calls `strftime` on a str | a copy, as the docstring at core.py:105 says, leaving the object unchanged; perio-recorder.py:93-140 builds fresh dicts | not executed | Core.AliasedToDictTwice | Core.ToDictShape |
| application.py:322-334 | the ComprehensiveExam and Surgery branches test `k in limited`, not their own counter; perio.py:300-309 and perio-recorder.py:723-732 repeat it (the lemmas use the `_type` key; `Stats.TallyAsWritten` takes the key as a parameter) | two ComprehensiveExams with no procedure: `date` counts 1; a LimitedExam then a ComprehensiveExam: KeyError('date') | each class tests its own counter | not executed | Stats.ComprehensiveCountResets | Stats.TallyMeaning |
| application.py:105-128 | `modify_patient` has no `return` after moving the patient to the end of the list it iterates | two patients, modifying the first: the loop reaches the moved patient and subscripts a `Patient` (TypeError) | return after the move, as perio.py:110 does | not executed | Service.ModifyNoReturnRaises | Service.ModifiedPatientMeaning |
| storage.py:132-133 | an unknown `_type` is only logged, then `exam` is read unbound | a record with `_type` `'Exam'`: UnboundLocalError, not the skip the log message suggests | reject the record with ValueError, as perio-recorder.py:475 does | not executed | Storage.UnknownTypeCrashes | Storage.UpsertRejectsUnknownType |
| perio-recorder.py:232-249 | `LimitedExam.to_stats_dict` lists every field but `miscellaneous` | a LimitedExam with `miscellaneous` recorded: the tally never counts it | the stats record is `to_dict` without `asa` and `note`, as for the other classes | not executed | Core.RecorderLimitedStatsDropsMiscellaneous | Core.StatsDictIsDictWithoutAsaNote |

## Notes on the source

- The tally counts every non-None item of a stats record, so `date` is counted in each class's counter. The model follows the code here.
- application.py's `delete_patient` has no `return` either. It goes on over the shrunken list, but the loop can only find another patient with the same mrn. Adding, loading and modifying keep mrns distinct (`Storage.UpsertCounts`, `Storage.LoadCounts`, `Service.ModifiedPatientMeaning`), so the missing `return` changes nothing (`Service.DeleteNoReturnAgrees`).
