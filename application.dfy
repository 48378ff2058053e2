/** The `Application` object the user interface drives: its patient list, the repository it loads from and saves
    to, and the loops of its methods. */
module App {
  import opened Values
  import opened Lists
  import opened Core
  import opened Storage
  import opened Stats
  import opened Service

  // ---------------------------------------------------------------- the loops

  /** `for patient in self.patients: if patient.mrn == mrn: ... return`. */
  method ScanMrn(ps: seq<Patient>, m: Value) returns (r: Option<nat>)
    ensures r == IndexOfMrn(ps, m)
  {
    var i := 0;
    while i < |ps|
      invariant 0 <= i <= |ps|
      invariant forall j :: 0 <= j < i ==> ps[j].mrn != m
    {
      if ps[i].mrn == m {
        IndexOfMrnAt(ps, m, i);
        return Some(i);
      }
      i := i + 1;
    }
    return None;
  }

  /** `for appointment in patient.appointments: if appointment == key: ... return`. */
  method ScanAppointments(apts: seq<Appointment>, key: AppointmentKey) returns (r: Option<nat>)
    ensures r == FirstMatch(apts, key)
  {
    var j := 0;
    while j < |apts|
      invariant 0 <= j <= |apts|
      invariant forall k :: 0 <= k < j ==> !AppointmentEquals(apts[k], key)
    {
      if AppointmentEquals(apts[j], key) {
        var f := FirstMatch(apts, key);
        assert f.Some? && f.value == j;
        return Some(j);
      }
      j := j + 1;
    }
    return None;
  }

  /** The nested loops of `modify_appointment` and `delete_apt`. */
  method FindTarget(ps: seq<Patient>, m: Value, key: AppointmentKey) returns (r: Option<(nat, nat)>)
    ensures r == Target(ps, m, key)
  {
    var i := 0;
    while i < |ps|
      invariant 0 <= i <= |ps|
      invariant forall k :: 0 <= k < i && ps[k].mrn == m ==> FirstMatch(ps[k].appointments, key).None?
    {
      if ps[i].mrn == m {
        var j := ScanAppointments(ps[i].appointments, key);
        if j.Some? {
          TargetAt(ps, m, key, i);
          return Some((i, j.value));
        }
      }
      i := i + 1;
    }
    return None;
  }

  /** The comparison loop of `modify_patient`. */
  method Diff(keys: seq<string>, orig: Record, rec: Record) returns (r: Result<(Record, Record)>)
    requires forall i :: 0 <= i < |keys| ==> keys[i] in orig
    ensures r == DiffOver(keys, orig, rec)
  {
    var before: Record, after: Record := map[], map[];
    var i := 0;
    while i < |keys|
      invariant 0 <= i <= |keys|
      invariant DiffOver(keys[..i], orig, rec) == Ok((before, after))
    {
      var k := keys[i];
      assert keys[..i + 1][..i] == keys[..i];
      if k !in rec {
        DiffStopsAt(keys, orig, rec, i + 1);
        return Err(KeyError(k));
      }
      if orig[k] != rec[k] {
        before, after := before[k := orig[k]], after[k := rec[k]];
      }
      i := i + 1;
    }
    assert keys[..i] == keys;
    return Ok((before, after));
  }

  /** A load that starts from a consistent list leaves one. */
  lemma {:induction false} LoadKeepsValid(l: Layout, ps: seq<Patient>, recs: seq<Record>)
    requires DistinctMrns(ps) && AllWellFormed(ps)
    ensures DistinctMrns(LoadAll(l, ps, recs).patients) && AllWellFormed(LoadAll(l, ps, recs).patients)
    decreases |recs|
  {
    if recs != [] && Upserted(l, ps, recs[0]).Ok? {
      UpsertCounts(l, ps, recs[0]);
      LoadKeepsValid(l, Upserted(l, ps, recs[0]).value, recs[1..]);
    }
  }

  // ---------------------------------------------------------------- the object

  class Application {
    const snapshot: Snapshot
    const repo: Repo
    var patients: seq<Patient>

    /** No two patients share an mrn and every appointment holds its class's fields: what loading and every
        method below keep. */
    ghost predicate Valid()
      reads this
    {
      repo.layout == LayoutOf(snapshot) && DistinctMrns(patients) && AllWellFormed(patients)
    }

    /** The object over a repository of the snapshot's layout and a consistent list, as `Open` builds it. */
    constructor (s: Snapshot, r: Repo, ps: seq<Patient>)
      requires r.layout == LayoutOf(s) && DistinctMrns(ps) && AllWellFormed(ps)
      ensures snapshot == s && repo == r && patients == ps
      ensures Valid()
    {
      snapshot := s;
      repo := r;
      patients := ps;
    }

    /** `__init__`: a repository for the snapshot's layout loads the records; an exception there means no object. */
    static method Open(s: Snapshot, records: seq<Record>) returns (app: Application?, failure: Option<Failure>)
      ensures failure == LoadAll(LayoutOf(s), [], records).failure
      ensures failure.Some? <==> app == null
      ensures app != null ==> fresh(app) && app.snapshot == s && app.patients == LoadAll(LayoutOf(s), [], records).patients
      ensures app != null ==> app.Valid()
    {
      var repo := new Repo(LayoutOf(s));
      failure := repo.Load(records);
      if failure.Some? {
        return null, failure;
      }
      LoadKeepsValid(LayoutOf(s), [], records);
      app := new Application(s, repo, repo.patients);
    }

    /** `add_appointment(apt)`, which is `_add_record` on the object's own list. */
    method AddAppointment(rec: Record) returns (failure: Option<Failure>)
      modifies this
      ensures var res := Upserted(LayoutOf(snapshot), old(patients), rec);
        (res.Ok? ==> failure.None? && patients == res.value)
        && (res.Err? ==> failure == Some(res.error) && patients == old(patients))
      ensures old(Valid()) ==> Valid()
    {
      var r := Upsert(LayoutOf(snapshot), patients, rec);
      if r.Err? {
        return Some(r.error);
      }
      UpsertCounts(LayoutOf(snapshot), patients, rec);
      patients := r.value;
      failure := None;
    }

    /** `save()`: the records handed to the repository, which read back as the patients that have appointments. */
    method Save() returns (records: seq<Record>)
      requires Valid()
      ensures records == Flatten(LayoutOf(snapshot), patients)
      ensures LoadAll(LayoutOf(snapshot), [], records) == Loaded(NonEmpty(patients), None)
    {
      records := repo.Save(patients);
      LoadSaved(LayoutOf(snapshot), patients);
    }

    /** `find_patient(mrn)`. */
    method FindPatient(arg: MrnArg) returns (r: Result<Option<Patient>>)
      ensures r == FoundPatient(snapshot, patients, arg)
    {
      var m := MrnValueOf(snapshot, arg);
      if m.Err? {
        return Err(m.error);
      }
      var hit := ScanMrn(patients, m.value);
      if hit.None? {
        return Ok(None);
      }
      return Ok(Some(patients[hit.value]));
    }

    /** `return_patient_records(mrn)`. */
    method ReturnPatientRecords(arg: MrnArg) returns (r: Result<Option<(Record, seq<Record>)>>)
      ensures r == ReturnedRecords(snapshot, patients, arg)
    {
      var key := RecordsKey(snapshot, arg);
      if key.Err? {
        return Err(key.error);
      }
      if |patients| == 0 {
        return Ok(None);
      }
      var m := KeyMrn(key.value);
      if m.Err? {
        return Err(m.error);
      }
      var hit := ScanMrn(patients, m.value);
      if hit.None? {
        return Ok(None);
      }
      var p := patients[hit.value];
      return Ok(Some((PatientToDict(p), Dicts(LayoutOf(snapshot), SortDesc(p.appointments)))));
    }

    /** `modify_patient(person)`. */
    method ModifyPatient(person: PatientKey) returns (r: Result<Option<(Record, Record)>>)
      modifies this
      ensures var res := ModifiedPatient(old(patients), person);
        (res.Ok? ==> r == Ok(res.value.1) && patients == res.value.0)
        && (res.Err? ==> r == Err(res.error) && patients == old(patients))
      ensures old(Valid()) ==> Valid()
    {
      if !person.ByRecord? {
        return Err(ValueError);
      }
      var rec := person.record;
      if |patients| == 0 {
        return Ok(None);
      }
      if "mrn" !in rec {
        return Err(KeyError("mrn"));
      }
      var hit := ScanMrn(patients, rec["mrn"]);
      if hit.None? {
        return Ok(None);
      }
      var i := hit.value;
      var diff := Diff(PatientKeyOrder, PatientToDict(patients[i]), rec);
      if diff.Err? {
        return Err(diff.error);
      }
      var p := PatientFromRecord(rec);
      if p.Err? {
        return Err(p.error);
      }
      RemovePatientFindsTarget(patients, rec["mrn"], i);
      ModifiedPatientMeaning(patients, rec);
      patients := RemoveAt(patients, i) + [p.value.(appointments := patients[i].appointments)];
      r := Ok(Some(diff.value));
    }

    /** `modify_appointment(apt)`. */
    method ModifyAppointment(rec: Record) returns (r: Result<bool>)
      modifies this
      ensures var res := ModifiedAppointment(LayoutOf(snapshot), old(patients), rec);
        (res.Ok? ==> r == Ok(res.value.1) && patients == res.value.0)
        && (res.Err? ==> r == Err(res.error) && patients == old(patients))
      ensures old(Valid()) ==> Valid()
    {
      var exam := AppointmentFromRecord(LayoutOf(snapshot), rec);
      if exam.Err? {
        return Err(exam.error);
      }
      if |patients| == 0 {
        return Ok(false);
      }
      if "mrn" !in rec {
        return Err(KeyError("mrn"));
      }
      var t := FindTarget(patients, rec["mrn"], Like(exam.value));
      if t.None? {
        return Ok(false);
      }
      var (i, j) := t.value;
      RemoveFindsTarget(patients[i].appointments, Like(exam.value), j);
      ModifiedAppointmentKeeps(LayoutOf(snapshot), patients, rec);
      patients := patients[i := patients[i].(appointments := RemoveAt(patients[i].appointments, j) + [exam.value])];
      r := Ok(true);
    }

    /** `delete_apt(apt)`. */
    method DeleteApt(rec: Record) returns (r: Result<bool>)
      modifies this
      ensures var res := DeletedAppointment(old(patients), rec);
        (res.Ok? ==> r == Ok(res.value.1) && patients == res.value.0)
        && (res.Err? ==> r == Err(res.error) && patients == old(patients))
      ensures old(Valid()) ==> Valid()
    {
      if |patients| == 0 {
        return Ok(false);
      }
      if "mrn" !in rec {
        return Err(KeyError("mrn"));
      }
      var hit := ScanMrn(patients, rec["mrn"]);
      if hit.None? {
        return Ok(false);
      }
      var d := DateField(rec, "date");
      if d.Err? {
        return Err(d.error);
      }
      var t := FindTarget(patients, rec["mrn"], OnDate(d.value));
      if t.None? {
        return Ok(false);
      }
      var (i, j) := t.value;
      RemoveFindsTarget(patients[i].appointments, OnDate(d.value), j);
      DeletedAppointmentKeeps(patients, rec);
      patients := patients[i := patients[i].(appointments := RemoveAt(patients[i].appointments, j))];
      r := Ok(true);
    }

    /** `delete_patient(p)`. */
    method DeletePatient(key: PatientKey) returns (r: Result<bool>)
      modifies this
      ensures var res := DeletedPatient(old(patients), key);
        (res.Ok? ==> r == Ok(res.value.1) && patients == res.value.0)
        && (res.Err? ==> r == Err(res.error) && patients == old(patients))
      ensures old(Valid()) ==> Valid()
    {
      if |patients| == 0 {
        return Ok(false);
      }
      var m := KeyMrn(key);
      if m.Err? {
        return Err(m.error);
      }
      var hit := ScanMrn(patients, m.value);
      if hit.None? {
        return Ok(false);
      }
      RemovePatientFindsTarget(patients, m.value, hit.value);
      DeletedPatientMeaning(patients, key);
      DeletedPatientWellFormed(patients, hit.value);
      patients := RemoveAt(patients, hit.value);
      r := Ok(true);
    }

    /** `tally_stats(date_1, date_2)`. */
    method TallyStats(b1: Bound, b2: Bound) returns (r: Result<seq<Counter>>)
      ensures r == Stats.TallyStats(LayoutOf(snapshot), patients, b1, b2)
    {
      var w := WindowOf(b1, b2);
      if w.Err? {
        return Err(w.error);
      }
      var rows := CollectStats(LayoutOf(snapshot), patients, w.value);
      r := CountBuckets(rows, TypeKey(LayoutOf(snapshot)));
    }
  }

  /** Removing a patient keeps every remaining appointment well formed. */
  lemma DeletedPatientWellFormed(ps: seq<Patient>, i: nat)
    requires i < |ps|
    ensures AllWellFormed(ps) ==> AllWellFormed(RemoveAt(ps, i))
  {
    var ps' := RemoveAt(ps, i);
    if AllWellFormed(ps) {
      forall k, j | 0 <= k < |ps'| && 0 <= j < |ps'[k].appointments| ensures WellFormed(ps'[k].appointments[j]) {
        assert ps'[k] == ps[if k < i then k else k + 1];
      }
    }
  }
}
