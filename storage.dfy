/** The repository (storage.py, and the Repo of perio-recorder.py): saving patients as flat records, and loading
    flat records back into patients by upserting each one by MRN. */
module Storage {
  import opened Values
  import Dates
  import opened Lists
  import opened Core

  // ---------------------------------------------------------------- invariants of a patient list

  /** No two patients share an MRN. */
  predicate DistinctMrns(ps: seq<Patient>)
  {
    forall i, j :: 0 <= i < j < |ps| ==> ps[i].mrn != ps[j].mrn
  }

  /** Every stored appointment has exactly its class's attributes. */
  predicate AllWellFormed(ps: seq<Patient>)
  {
    forall i, j :: 0 <= i < |ps| && 0 <= j < |ps[i].appointments| ==> WellFormed(ps[i].appointments[j])
  }

  /** The number of appointments over all patients. */
  function Total(ps: seq<Patient>): nat
  {
    if ps == [] then 0 else Total(ps[..|ps| - 1]) + |ps[|ps| - 1].appointments|
  }

  /** The patients that have at least one appointment, in order. */
  function NonEmpty(ps: seq<Patient>): seq<Patient>
  {
    if ps == [] then []
    else NonEmpty(ps[..|ps| - 1]) + (if |ps[|ps| - 1].appointments| > 0 then [ps[|ps| - 1]] else [])
  }

  lemma {:induction false} NonEmptyElements(ps: seq<Patient>)
    ensures forall q :: q in NonEmpty(ps) ==> q in ps && |q.appointments| > 0
  {
    if ps != [] {
      NonEmptyElements(ps[..|ps| - 1]);
      forall q | q in NonEmpty(ps) ensures q in ps && |q.appointments| > 0 {
        if q in NonEmpty(ps[..|ps| - 1]) { assert q in ps[..|ps| - 1]; }
      }
    }
  }

  // ---------------------------------------------------------------- save

  /** The rows `save` emits for one patient: its dict merged with each appointment's dict, the appointment's keys
      winning on a clash (`{**patient_info, **appointment_info}`). */
  function PatientRows(l: Layout, p: Patient): (rows: seq<Record>)
    ensures |rows| == |p.appointments|
  {
    seq(|p.appointments|, j requires 0 <= j < |p.appointments| => PatientToDict(p) + ToDict(l, p.appointments[j]))
  }

  /** Everything `save` emits: for each patient in order, one row per appointment in order. */
  function Flatten(l: Layout, ps: seq<Patient>): seq<Record>
  {
    if ps == [] then [] else Flatten(l, ps[..|ps| - 1]) + PatientRows(l, ps[|ps| - 1])
  }

  /** `save` emits exactly one record per (patient, appointment); a patient without appointments emits nothing. */
  lemma {:induction false} FlattenCount(l: Layout, ps: seq<Patient>)
    ensures |Flatten(l, ps)| == Total(ps)
  {
    if ps != [] { FlattenCount(l, ps[..|ps| - 1]); }
  }

  /** Saving one more patient appends exactly that patient's rows. */
  lemma FlattenSnoc(l: Layout, ps: seq<Patient>, p: Patient)
    ensures Flatten(l, ps + [p]) == Flatten(l, ps) + PatientRows(l, p)
  {
    assert (ps + [p])[..|ps + [p]| - 1] == ps;
  }

  /** Each saved row holds the patient's keys unchanged (birthday as `YYYYMMDD`) and the appointment's keys. */
  lemma PatientRowsContent(l: Layout, p: Patient, j: nat)
    requires j < |p.appointments| && WellFormed(p.appointments[j])
    ensures var row := PatientRows(l, p)[j];
      row["mrn"] == p.mrn && row["first"] == p.first && row["last"] == p.last && row["sex"] == p.sex
      && row["birthday"] == VStr(Dates.Format(p.birthday))
      && row[TypeKey(l)] == VStr(Name(p.appointments[j].variant)) && row["date"] == VStr(Dates.Format(p.appointments[j].date))
  {
    ToDictShape(l, p.appointments[j]);
  }

  // ---------------------------------------------------------------- upsert

  /** The patient list after `_add_record(rec)`: the appointment class named by the discriminator is built first
      (an unknown name raises ValueError, as perio.py and perio-recorder.py do), then placed by MRN. */
  function Upserted(l: Layout, ps: seq<Patient>, rec: Record): Result<seq<Patient>>
  {
    var exam :- AppointmentFromRecord(l, rec);
    Placed(ps, rec, exam)
  }

  /** The first patient with the record's MRN gets the appointment appended, or else a new patient built from the
      record is appended holding only it. A record without `mrn` raises KeyError from `Patient.__eq__` as soon as
      one patient is stored. */
  function Placed(ps: seq<Patient>, rec: Record, exam: Appointment): Result<seq<Patient>>
  {
    if ps != [] && "mrn" !in rec then Err(KeyError("mrn"))
    else
      var hit := if ps == [] then None else IndexOfMrn(ps, rec["mrn"]);
      match hit
      case Some(i) => Ok(ps[i := ps[i].(appointments := ps[i].appointments + [exam])])
      case None =>
        var p :- PatientFromRecord(rec);
        Ok(ps + [p.(appointments := [exam])])
  }

  /** `_add_record` with a known MRN appends the appointment to the first matching patient and changes nothing else. */
  lemma UpsertKnown(l: Layout, ps: seq<Patient>, rec: Record, i: nat)
    requires AppointmentFromRecord(l, rec).Ok? && "mrn" in rec
    requires i < |ps| && ps[i].mrn == rec["mrn"] && forall j :: 0 <= j < i ==> ps[j].mrn != rec["mrn"]
    ensures Upserted(l, ps, rec) == Ok(ps[i := ps[i].(appointments := ps[i].appointments + [AppointmentFromRecord(l, rec).value])])
  {
    IndexOfMrnAt(ps, rec["mrn"], i);
  }

  /** `_add_record` with an unknown MRN appends one new patient at the end, holding exactly that appointment. */
  lemma UpsertUnknown(l: Layout, ps: seq<Patient>, rec: Record)
    requires AppointmentFromRecord(l, rec).Ok? && PatientFromRecord(rec).Ok?
    requires forall j :: 0 <= j < |ps| ==> ps[j].mrn != rec["mrn"]
    ensures Upserted(l, ps, rec) == Ok(ps + [PatientFromRecord(rec).value.(appointments := [AppointmentFromRecord(l, rec).value])])
  {
  }

  /** Only the four class names build an appointment: any other discriminator is rejected and nothing changes. */
  lemma UpsertRejectsUnknownType(l: Layout, ps: seq<Patient>, rec: Record)
    requires TypeKey(l) in rec && VariantOf(rec[TypeKey(l)]).Err?
    ensures Upserted(l, ps, rec) == Err(ValueError)
  {
  }

  /** Each upsert adds exactly one appointment, adds at most one patient, and keeps MRNs distinct and
      appointments well formed. */
  lemma UpsertCounts(l: Layout, ps: seq<Patient>, rec: Record)
    requires Upserted(l, ps, rec).Ok?
    ensures var ps' := Upserted(l, ps, rec).value;
      Total(ps') == Total(ps) + 1 && |ps| <= |ps'| <= |ps| + 1
      && (DistinctMrns(ps) ==> DistinctMrns(ps'))
      && (AllWellFormed(ps) ==> AllWellFormed(ps'))
  {
    var exam := AppointmentFromRecord(l, rec).value;
    AppointmentFromRecordMeaning(l, rec);
    PlacedCounts(ps, rec, exam);
  }

  lemma PlacedCounts(ps: seq<Patient>, rec: Record, exam: Appointment)
    requires Placed(ps, rec, exam).Ok?
    ensures var ps' := Placed(ps, rec, exam).value;
      Total(ps') == Total(ps) + 1 && |ps| <= |ps'| <= |ps| + 1
      && (DistinctMrns(ps) ==> DistinctMrns(ps'))
      && (AllWellFormed(ps) && WellFormed(exam) ==> AllWellFormed(ps'))
  {
    if ps != [] && IndexOfMrn(ps, rec["mrn"]).Some? {
      var i := IndexOfMrn(ps, rec["mrn"]).value;
      AppendedCounts(ps, i, exam);
    } else {
      var p := PatientFromRecord(rec).value;
      PatientFromRecordMeaning(rec);
      AddedCounts(ps, p.(appointments := [exam]));
    }
  }

  lemma AppendedCounts(ps: seq<Patient>, i: nat, exam: Appointment)
    requires i < |ps|
    ensures var ps' := ps[i := ps[i].(appointments := ps[i].appointments + [exam])];
      Total(ps') == Total(ps) + 1
      && (DistinctMrns(ps) ==> DistinctMrns(ps'))
      && (AllWellFormed(ps) && WellFormed(exam) ==> AllWellFormed(ps'))
  {
    var q := ps[i].(appointments := ps[i].appointments + [exam]);
    TotalUpdate(ps, i, q);
    if AllWellFormed(ps) && WellFormed(exam) {
      forall j | 0 <= j < |q.appointments| ensures WellFormed(q.appointments[j]) {
        if j < |ps[i].appointments| { assert q.appointments[j] == ps[i].appointments[j]; }
      }
    }
  }

  lemma AddedCounts(ps: seq<Patient>, q: Patient)
    requires |q.appointments| == 1 && forall j :: 0 <= j < |ps| ==> ps[j].mrn != q.mrn
    ensures Total(ps + [q]) == Total(ps) + 1
    ensures DistinctMrns(ps) ==> DistinctMrns(ps + [q])
    ensures AllWellFormed(ps) && WellFormed(q.appointments[0]) ==> AllWellFormed(ps + [q])
  {
    TotalSnoc(ps, q);
  }

  lemma TotalSnoc(ps: seq<Patient>, p: Patient)
    ensures Total(ps + [p]) == Total(ps) + |p.appointments|
  {
    assert (ps + [p])[..|ps|] == ps;
  }

  lemma {:induction false} TotalUpdate(ps: seq<Patient>, i: nat, p: Patient)
    requires i < |ps|
    ensures Total(ps[i := p]) == Total(ps) - |ps[i].appointments| + |p.appointments|
  {
    var n := |ps| - 1;
    if i < n {
      TotalUpdate(ps[..n], i, p);
      assert ps[i := p][..n] == ps[..n][i := p];
    } else {
      assert ps[i := p][..n] == ps[..n];
    }
  }

  /** `_add_record(rec)` as a loop over the stored patients, as storage.py and perio-recorder.py write it. */
  method Upsert(l: Layout, ps: seq<Patient>, rec: Record) returns (r: Result<seq<Patient>>)
    ensures r == Upserted(l, ps, rec)
  {
    var exam := AppointmentFromRecord(l, rec);
    if exam.Err? {
      return Err(exam.error);
    }
    UpsertedIsPlaced(l, ps, rec, exam.value);
    r := Place(ps, rec, exam.value);
  }

  /** The loop of `_add_record` that places an appointment already built. */
  method Place(ps: seq<Patient>, rec: Record, exam: Appointment) returns (r: Result<seq<Patient>>)
    ensures r == Placed(ps, rec, exam)
  {
    var i := 0;
    while i < |ps|
      invariant 0 <= i <= |ps|
      invariant i > 0 ==> "mrn" in rec
      invariant forall j :: 0 <= j < i ==> ps[j].mrn != rec["mrn"]
    {
      var same := PatientEquals(ps[i], ByRecord(rec));
      if same.Err? {
        return Err(same.error);
      }
      if same.value {
        assert IndexOfMrn(ps, rec["mrn"]) == Some(i);
        return Ok(ps[i := ps[i].(appointments := ps[i].appointments + [exam])]);
      }
      i := i + 1;
    }
    assert ps != [] ==> IndexOfMrn(ps, rec["mrn"]).None?;
    var p := PatientFromRecord(rec);
    if p.Err? {
      return Err(p.error);
    }
    return Ok(ps + [p.value.(appointments := [exam])]);
  }

  // ---------------------------------------------------------------- as written: an unknown _type is only logged

  /** `_add_record` as storage.py:124-146 and application.py:52-72 write it: an unknown `_type` is only logged, so
      `exam` is unbound when it is appended and UnboundLocalError is raised, after the MRN comparison and, for a
      new patient, after `Patient(apt)`. */
  function UpsertedLogged(l: Layout, ps: seq<Patient>, rec: Record): Result<seq<Patient>>
  {
    if TypeKey(l) !in rec then Err(KeyError(TypeKey(l)))
    else if VariantOf(rec[TypeKey(l)]).Ok? then Upserted(l, ps, rec)
    else if ps != [] && "mrn" !in rec then Err(KeyError("mrn"))
    else
      var hit := if ps == [] then None else IndexOfMrn(ps, rec["mrn"]);
      if hit.Some? then Err(UnboundLocalError)
      else
        var p :- PatientFromRecord(rec);
        Err(UnboundLocalError)
  }

  /** The defect: a record with an unknown `_type` is not skipped as the log message says but crashes the load
      with UnboundLocalError, while the corrected upsert rejects it with ValueError before touching the list. */
  lemma UnknownTypeCrashes(l: Layout, ps: seq<Patient>, rec: Record)
    requires TypeKey(l) in rec && VariantOf(rec[TypeKey(l)]).Err? && PatientFromRecord(rec).Ok?
    ensures UpsertedLogged(l, ps, rec) == Err(UnboundLocalError)
    ensures Upserted(l, ps, rec) == Err(ValueError)
  {
  }

  /** On every record with a known class the logged upsert and the corrected one agree. */
  lemma LoggedAgreesOnKnownTypes(l: Layout, ps: seq<Patient>, rec: Record)
    requires TypeKey(l) !in rec || VariantOf(rec[TypeKey(l)]).Ok?
    ensures UpsertedLogged(l, ps, rec) == Upserted(l, ps, rec)
  {
  }

  // ---------------------------------------------------------------- load

  /** The patients a load leaves, and the exception that stopped it, if any; the records before that exception
      stay loaded, because `_add_record` appended them in place. */
  datatype Loaded = Loaded(patients: seq<Patient>, failure: Option<Failure>)

  /** `_load_obj(records)`: `_add_record` over the records in order. */
  function LoadAll(l: Layout, ps: seq<Patient>, recs: seq<Record>): Loaded
    decreases |recs|
  {
    if recs == [] then Loaded(ps, None)
    else match Upserted(l, ps, recs[0])
      case Err(e) => Loaded(ps, Some(e))
      case Ok(ps') => LoadAll(l, ps', recs[1..])
  }

  /** Loading two batches in turn is loading their concatenation. */
  lemma {:induction false} LoadConcat(l: Layout, ps: seq<Patient>, a: seq<Record>, b: seq<Record>)
    decreases |a|
    ensures LoadAll(l, ps, a + b) ==
      (var x := LoadAll(l, ps, a); if x.failure.Some? then x else LoadAll(l, x.patients, b))
  {
    if a != [] {
      assert (a + b)[0] == a[0] && (a + b)[1..] == a[1..] + b;
      if Upserted(l, ps, a[0]).Ok? {
        LoadConcat(l, Upserted(l, ps, a[0]).value, a[1..], b);
      }
    } else {
      assert a + b == b;
    }
  }

  /** A complete load from any list adds one appointment per record and keeps MRNs distinct. */
  lemma {:induction false} LoadCounts(l: Layout, ps: seq<Patient>, recs: seq<Record>)
    decreases |recs|
    requires DistinctMrns(ps)
    ensures DistinctMrns(LoadAll(l, ps, recs).patients)
    ensures LoadAll(l, ps, recs).failure.None? ==> Total(LoadAll(l, ps, recs).patients) == Total(ps) + |recs|
  {
    if recs != [] && Upserted(l, ps, recs[0]).Ok? {
      UpsertCounts(l, ps, recs[0]);
      LoadCounts(l, Upserted(l, ps, recs[0]).value, recs[1..]);
    }
  }

  /** After a complete load into an empty repository there are as many appointments as records, and no two
      patients share an MRN. */
  lemma LoadFromEmpty(l: Layout, recs: seq<Record>)
    requires LoadAll(l, [], recs).failure.None?
    ensures Total(LoadAll(l, [], recs).patients) == |recs|
    ensures DistinctMrns(LoadAll(l, [], recs).patients)
  {
    LoadCounts(l, [], recs);
  }

  /** The loaded patients after the first j rows of patient p: p with its first j appointments after prefix. */
  function Partial(prefix: seq<Patient>, p: Patient, j: nat): seq<Patient>
    requires j <= |p.appointments|
  {
    prefix + (if j == 0 then [] else [p.(appointments := p.appointments[..j])])
  }

  /** Loading the first j rows of one patient, whose MRN no loaded patient has, builds that patient with its
      first j appointments at the end. */
  lemma {:induction false} LoadPatientRows(l: Layout, prefix: seq<Patient>, p: Patient, j: nat)
    requires j <= |p.appointments|
    requires forall k :: 0 <= k < |p.appointments| ==> WellFormed(p.appointments[k])
    requires forall q :: q in prefix ==> q.mrn != p.mrn
    ensures LoadAll(l, prefix, PatientRows(l, p)[..j]) == Loaded(Partial(prefix, p, j), None)
  {
    if j > 0 {
      LoadPatientRows(l, prefix, p, j - 1);
      LoadNextRow(l, prefix, p, j);
    } else {
      assert PatientRows(l, p)[..0] == [];
    }
  }

  lemma LoadNextRow(l: Layout, prefix: seq<Patient>, p: Patient, j: nat)
    requires 0 < j <= |p.appointments| && WellFormed(p.appointments[j - 1])
    requires forall q :: q in prefix ==> q.mrn != p.mrn
    requires LoadAll(l, prefix, PatientRows(l, p)[..j - 1]) == Loaded(Partial(prefix, p, j - 1), None)
    ensures LoadAll(l, prefix, PatientRows(l, p)[..j]) == Loaded(Partial(prefix, p, j), None)
  {
    var rows := PatientRows(l, p);
    var row := rows[j - 1];
    TakeSnoc(rows, j);
    LoadConcat(l, prefix, rows[..j - 1], [row]);
    LoadRow(l, prefix, p, j - 1);
    LoadOne(l, Partial(prefix, p, j - 1), row);
  }

  lemma LoadOne(l: Layout, ps: seq<Patient>, rec: Record)
    requires Upserted(l, ps, rec).Ok?
    ensures LoadAll(l, ps, [rec]) == Loaded(Upserted(l, ps, rec).value, None)
  {
    assert [rec][1..] == [];
  }

  /** Loading row j of a patient after its first j appointments are loaded adds its appointment j. */
  lemma LoadRow(l: Layout, prefix: seq<Patient>, p: Patient, j: nat)
    requires j < |p.appointments| && WellFormed(p.appointments[j])
    requires forall q :: q in prefix ==> q.mrn != p.mrn
    ensures Upserted(l, Partial(prefix, p, j), PatientRows(l, p)[j]) == Ok(Partial(prefix, p, j + 1))
  {
    var a := p.appointments[j];
    var row := PatientRows(l, p)[j];
    RowReadsBack(l, p, j);
    var before := Partial(prefix, p, j);
    UpsertedIsPlaced(l, before, row, a);
    PlacedRow(prefix, p, j, row);
  }

  /** A saved row reads back as its appointment and its patient. */
  lemma RowReadsBack(l: Layout, p: Patient, j: nat)
    requires j < |p.appointments| && WellFormed(p.appointments[j])
    ensures var row := PatientRows(l, p)[j];
      AppointmentFromRecord(l, row) == Ok(p.appointments[j])
      && PatientFromRecord(row) == Ok(p.(appointments := []))
      && "mrn" in row && row["mrn"] == p.mrn
  {
    var a := p.appointments[j];
    assert PatientRows(l, p)[j] == PatientToDict(p) + ToDict(l, a);
    AppointmentRoundTrip(l, PatientToDict(p), a);
    PatientRoundTrip(l, p, a);
    ToDictShape(l, a);
  }

  lemma UpsertedIsPlaced(l: Layout, ps: seq<Patient>, rec: Record, exam: Appointment)
    requires AppointmentFromRecord(l, rec) == Ok(exam)
    ensures Upserted(l, ps, rec) == Placed(ps, rec, exam)
  {
  }

  lemma PlacedRow(prefix: seq<Patient>, p: Patient, j: nat, rec: Record)
    requires j < |p.appointments|
    requires forall q :: q in prefix ==> q.mrn != p.mrn
    requires PatientFromRecord(rec) == Ok(p.(appointments := [])) && "mrn" in rec && rec["mrn"] == p.mrn
    ensures Placed(Partial(prefix, p, j), rec, p.appointments[j]) == Ok(Partial(prefix, p, j + 1))
  {
    var a := p.appointments[j];
    assert p.appointments[..j] + [a] == p.appointments[..j + 1];
    if j == 0 {
      assert IndexOfMrn(prefix, p.mrn).None? by {
        forall k | 0 <= k < |prefix| ensures prefix[k].mrn != p.mrn { assert prefix[k] in prefix; }
      }
      assert prefix + [] == prefix;
      assert [a] == p.appointments[..1];
    } else {
      var partial := p.(appointments := p.appointments[..j]);
      var before := prefix + [partial];
      assert IndexOfMrn(before, p.mrn) == Some(|prefix|) by {
        forall k | 0 <= k < |prefix| ensures before[k].mrn != p.mrn { assert before[k] in prefix; }
        assert before[|prefix|].mrn == p.mrn;
      }
      assert before[|prefix| := partial.(appointments := partial.appointments + [a])] == prefix + [p.(appointments := p.appointments[..j + 1])];
    }
  }

  /** Loading what `save` wrote, into an empty repository, gives back the same patients in the same order with
      the same attributes and appointment lists, except the patients that had no appointment. */
  lemma {:induction false} LoadSaved(l: Layout, ps: seq<Patient>)
    requires DistinctMrns(ps) && AllWellFormed(ps)
    ensures LoadAll(l, [], Flatten(l, ps)) == Loaded(NonEmpty(ps), None)
  {
    if ps != [] {
      var n := |ps| - 1;
      var init, p := ps[..n], ps[n];
      LastPatientFresh(ps);
      LoadSaved(l, init);
      LoadConcat(l, [], Flatten(l, init), PatientRows(l, p));
      LoadPatientRows(l, NonEmpty(init), p, |p.appointments|);
      assert PatientRows(l, p)[..|p.appointments|] == PatientRows(l, p);
      assert p.appointments[..|p.appointments|] == p.appointments;
    }
  }

  /** The facts about the last patient of a saved list that loading its rows needs. */
  lemma LastPatientFresh(ps: seq<Patient>)
    requires ps != [] && DistinctMrns(ps) && AllWellFormed(ps)
    ensures var init, p := ps[..|ps| - 1], ps[|ps| - 1];
      DistinctMrns(init) && AllWellFormed(init)
      && (forall q :: q in NonEmpty(init) ==> q.mrn != p.mrn)
      && (forall k :: 0 <= k < |p.appointments| ==> WellFormed(p.appointments[k]))
  {
    var n := |ps| - 1;
    var init, p := ps[..n], ps[n];
    assert DistinctMrns(init) && AllWellFormed(init);
    NonEmptyElements(init);
    forall q | q in NonEmpty(init) ensures q.mrn != p.mrn {
      var k :| 0 <= k < |init| && init[k] == q;
      assert ps[k] == q;
    }
    forall k | 0 <= k < |p.appointments| ensures WellFormed(p.appointments[k]) {
      assert ps[n] == p;
    }
  }

  // ---------------------------------------------------------------- the repository object

  /** A `Repo`: the list of patients it loads records into. */
  class Repo {
    const layout: Layout
    var patients: seq<Patient>

    constructor (l: Layout)
      ensures layout == l && patients == []
    {
      layout := l;
      patients := [];
    }

    /** `save(patients)`: the records it writes, one per (patient, appointment). */
    method Save(ps: seq<Patient>) returns (records: seq<Record>)
      ensures records == Flatten(layout, ps)
    {
      records := [];
      var i := 0;
      while i < |ps|
        invariant 0 <= i <= |ps|
        invariant records == Flatten(layout, ps[..i])
      {
        var rows := SaveOne(ps[i]);
        records := records + rows;
        FlattenSnoc(layout, ps[..i], ps[i]);
        assert ps[..i + 1] == ps[..i] + [ps[i]];
        i := i + 1;
      }
      assert ps[..i] == ps;
    }

    /** The inner loop of `save`: one merged record per appointment of one patient. */
    method SaveOne(patient: Patient) returns (rows: seq<Record>)
      ensures rows == PatientRows(layout, patient)
    {
      var info := PatientToDict(patient);
      rows := [];
      var j := 0;
      while j < |patient.appointments|
        invariant 0 <= j <= |patient.appointments|
        invariant rows == PatientRows(layout, patient)[..j]
      {
        var record := info + ToDict(layout, patient.appointments[j]);
        assert PatientRows(layout, patient)[..j + 1] == PatientRows(layout, patient)[..j] + [record];
        rows := rows + [record];
        j := j + 1;
      }
      assert PatientRows(layout, patient)[..j] == PatientRows(layout, patient);
    }

    /** `_add_record(rec)`: on an exception the list is left as it was. */
    method AddRecord(rec: Record) returns (failure: Option<Failure>)
      modifies this
      ensures Upserted(layout, old(patients), rec).Ok? ==> failure.None? && patients == Upserted(layout, old(patients), rec).value
      ensures Upserted(layout, old(patients), rec).Err? ==> failure == Some(Upserted(layout, old(patients), rec).error) && patients == old(patients)
    {
      var r := Upsert(layout, patients, rec);
      if r.Ok? {
        patients := r.value;
        failure := None;
      } else {
        failure := Some(r.error);
      }
    }

    /** `_load_obj(records)`: adds the records in order and stops at the first exception. */
    method Load(records: seq<Record>) returns (failure: Option<Failure>)
      modifies this
      ensures Loaded(patients, failure) == LoadAll(layout, old(patients), records)
    {
      var i := 0;
      failure := None;
      while i < |records|
        invariant 0 <= i <= |records|
        invariant LoadAll(layout, old(patients), records) == LoadAll(layout, patients, records[i..])
        invariant failure.None?
      {
        assert records[i..][0] == records[i] && records[i..][1..] == records[i + 1..];
        failure := AddRecord(records[i]);
        if failure.Some? {
          return;
        }
        i := i + 1;
      }
      assert records[i..] == [];
    }
  }
}
