/** The operations of the `Application` class (application.py, perio.py, perio-recorder.py) as functions of the
    patient list: finding, listing, modifying and deleting patients and appointments. */
module Service {
  import opened Values
  import opened Text
  import opened Dates
  import opened Lists
  import opened Core
  import opened Storage

  // ---------------------------------------------------------------- the three copies of the Application class

  datatype Snapshot = ApplicationPy | PerioPy | RecorderPy

  /** perio-recorder.py keys its records `type`; the other two `_type`. */
  function LayoutOf(s: Snapshot): Layout
  {
    if s == RecorderPy then PlainType else UnderscoreType
  }

  /** perio.py and perio-recorder.py raise ValueError on an mrn argument that is neither str nor int; application.py
      only logs it and carries on with the value. */
  predicate Strict(s: Snapshot)
  {
    s != ApplicationPy
  }

  /** An mrn argument of `find_patient` / `return_patient_records`: an int, or any other value. */
  datatype MrnArg = MrnInt(i: int) | MrnValue(v: Value)

  /** The mrn after `if type(mrn) is int: mrn = str(mrn)` and the type check. */
  function MrnValueOf(s: Snapshot, arg: MrnArg): (r: Result<Value>)
    ensures arg.MrnInt? ==> r == Ok(VStr(IntToString(arg.i)))
    ensures arg.MrnValue? && arg.v.VStr? ==> r == Ok(arg.v)
    ensures arg.MrnValue? && !arg.v.VStr? ==> r == (if Strict(s) then Err(ValueError) else Ok(arg.v))
  {
    match arg
    case MrnInt(i) => Ok(VStr(IntToString(i)))
    case MrnValue(v) => if v.VStr? || !Strict(s) then Ok(v) else Err(ValueError)
  }

  /** An int and its decimal text are the same mrn; perio.py and perio-recorder.py accept exactly ints and strs and
      always go on with a str, while application.py goes on with any argument. */
  lemma MrnArgMeaning(s: Snapshot, arg: MrnArg, i: int)
    ensures MrnValueOf(s, MrnInt(i)) == MrnValueOf(s, MrnValue(VStr(IntToString(i))))
    ensures Strict(s) ==> (MrnValueOf(s, arg).Ok? <==> arg.MrnInt? || arg.v.VStr?)
    ensures Strict(s) && MrnValueOf(s, arg).Ok? ==> MrnValueOf(s, arg).value.VStr?
    ensures !Strict(s) ==> MrnValueOf(s, arg).Ok?
    ensures MrnValueOf(s, arg).Err? ==> MrnValueOf(s, arg) == Err(ValueError)
  {
  }

  // ---------------------------------------------------------------- find_patient

  /** `find_patient(mrn)`: the first patient whose mrn equals the argument, or None ('Patient not found.'). */
  function FoundPatient(s: Snapshot, ps: seq<Patient>, arg: MrnArg): Result<Option<Patient>>
  {
    var m :- MrnValueOf(s, arg);
    match IndexOfMrn(ps, m)
    case Some(i) => Ok(Some(ps[i]))
    case None => Ok(None)
  }

  /** The patient found has the mrn asked for and is the first such; none is found only when no patient has it;
      an int argument finds the same patient as its decimal text. */
  lemma FoundPatientMeaning(s: Snapshot, ps: seq<Patient>, t: string, i: int)
    ensures var r := FoundPatient(s, ps, MrnValue(VStr(t)));
      r.Ok? && (r.value.Some? <==> exists j :: 0 <= j < |ps| && ps[j].mrn == VStr(t))
      && (r.value.Some? ==>
            IndexOfMrn(ps, VStr(t)).Some? && r.value.value == ps[IndexOfMrn(ps, VStr(t)).value]
            && r.value.value.mrn == VStr(t))
    ensures FoundPatient(s, ps, MrnInt(i)) == FoundPatient(s, ps, MrnValue(VStr(IntToString(i))))
  {
    var r := IndexOfMrn(ps, VStr(t));
    if r.None? {
      assert forall j :: 0 <= j < |ps| ==> ps[j].mrn != VStr(t);
    }
  }

  /** With distinct MRNs the patient found is the only one with that mrn. */
  lemma FoundPatientUnique(s: Snapshot, ps: seq<Patient>, t: string, j: nat)
    requires DistinctMrns(ps) && j < |ps| && ps[j].mrn == VStr(t)
    ensures FoundPatient(s, ps, MrnValue(VStr(t))) == Ok(Some(ps[j]))
  {
    var r := IndexOfMrn(ps, VStr(t));
    assert r.Some?;
    assert r.value == j;
  }

  // ---------------------------------------------------------------- return_patient_records

  /** `apt_records.sort(key=lambda x: x['date'], reverse=True)` places a after every record whose date text is not
      smaller, and before the first whose date text is smaller; YYYYMMDD texts compare as their dates do
      (Dates.FormatOrder), so the comparison is written on dates. */
  function Insert(a: Appointment, s: seq<Appointment>): seq<Appointment>
  {
    if s == [] then [a]
    else if Before(s[0].date, a.date) then [a] + s
    else [s[0]] + Insert(a, s[1..])
  }

  /** Python's stable sort, newest first. */
  function SortDesc(s: seq<Appointment>): seq<Appointment>
  {
    if s == [] then [] else Insert(s[|s| - 1], SortDesc(s[..|s| - 1]))
  }

  predicate SortedDesc(s: seq<Appointment>)
  {
    forall i, j :: 0 <= i < j < |s| ==> !Before(s[i].date, s[j].date)
  }

  /** The appointments on day d, in order. */
  function OnDay(s: seq<Appointment>, d: Date): seq<Appointment>
  {
    if s == [] then [] else (if s[0].date == d then [s[0]] else []) + OnDay(s[1..], d)
  }

  lemma {:induction false} OnDayAppend(xs: seq<Appointment>, ys: seq<Appointment>, d: Date)
    ensures OnDay(xs + ys, d) == OnDay(xs, d) + OnDay(ys, d)
  {
    if xs == [] {
      assert xs + ys == ys;
    } else {
      assert (xs + ys)[0] == xs[0] && (xs + ys)[1..] == xs[1..] + ys;
      OnDayAppend(xs[1..], ys, d);
    }
  }

  lemma {:induction false} OnDayNone(s: seq<Appointment>, d: Date)
    requires forall i :: 0 <= i < |s| ==> s[i].date != d
    ensures OnDay(s, d) == []
  {
    if s != [] { OnDayNone(s[1..], d); }
  }

  lemma {:induction false} InsertPermutes(a: Appointment, s: seq<Appointment>)
    ensures multiset(Insert(a, s)) == multiset(s) + multiset{a}
  {
    if s != [] && !Before(s[0].date, a.date) {
      InsertPermutes(a, s[1..]);
      assert s == [s[0]] + s[1..];
    }
  }

  lemma {:induction false} InsertSorted(a: Appointment, s: seq<Appointment>)
    requires SortedDesc(s)
    ensures SortedDesc(Insert(a, s))
  {
    if s != [] && !Before(s[0].date, a.date) {
      var t := s[1..];
      InsertSorted(a, t);
      InsertPermutes(a, t);
      var r := Insert(a, s);
      forall j | 0 < j < |r| ensures !Before(r[0].date, r[j].date) {
        assert r[j] == Insert(a, t)[j - 1];
        assert r[j] in multiset(t) + multiset{a};
      }
    }
  }

  lemma {:induction false} InsertOnDay(a: Appointment, s: seq<Appointment>, d: Date)
    requires SortedDesc(s)
    ensures OnDay(Insert(a, s), d) == OnDay(s, d) + (if a.date == d then [a] else [])
  {
    if s == [] {
    } else if Before(s[0].date, a.date) {
      assert ([a] + s)[1..] == s;
      if a.date == d { OnDayNone(s, d); }
    } else {
      var t := s[1..];
      InsertOnDay(a, t, d);
      var r := Insert(a, s);
      assert r[0] == s[0] && r[1..] == Insert(a, t);
    }
  }

  lemma {:induction false} SortDescSorted(s: seq<Appointment>)
    ensures SortedDesc(SortDesc(s))
  {
    if s != [] {
      SortDescSorted(s[..|s| - 1]);
      InsertSorted(s[|s| - 1], SortDesc(s[..|s| - 1]));
    }
  }

  lemma {:induction false} SortDescPermutes(s: seq<Appointment>)
    ensures multiset(SortDesc(s)) == multiset(s)
  {
    if s != [] {
      var init, a := s[..|s| - 1], s[|s| - 1];
      SortDescPermutes(init);
      InsertPermutes(a, SortDesc(init));
      TakeSnoc(s, |s|);
      assert s[..|s|] == s;
    }
  }

  lemma {:induction false} SortDescStable(s: seq<Appointment>, d: Date)
    ensures OnDay(SortDesc(s), d) == OnDay(s, d)
  {
    if s != [] {
      var init, a := s[..|s| - 1], s[|s| - 1];
      SortDescStable(init, d);
      SortDescSorted(init);
      InsertOnDay(a, SortDesc(init), d);
      TakeSnoc(s, |s|);
      assert s[..|s|] == s;
      OnDayAppend(init, [a], d);
      assert OnDay([a], d) == (if a.date == d then [a] else []) + OnDay([], d);
    }
  }

  /** The sort returns the same appointments, newest first, and keeps the order of appointments on the same day. */
  lemma SortDescMeaning(s: seq<Appointment>)
    ensures SortedDesc(SortDesc(s)) && multiset(SortDesc(s)) == multiset(s)
    ensures forall d :: OnDay(SortDesc(s), d) == OnDay(s, d)
  {
    SortDescSorted(s);
    SortDescPermutes(s);
    forall d ensures OnDay(SortDesc(s), d) == OnDay(s, d) {
      SortDescStable(s, d);
    }
  }

  /** Newest first, as on the `YYYYMMDD` text the source sorts on. */
  lemma SortedDescByText(s: seq<Appointment>)
    requires SortedDesc(s)
    ensures forall i, j :: 0 <= i < j < |s| ==> !Less(Format(s[i].date), Format(s[j].date))
  {
    forall i, j | 0 <= i < j < |s| ensures !Less(Format(s[i].date), Format(s[j].date)) {
      FormatOrder(s[i].date, s[j].date);
    }
  }

  /** The appointment dicts of a list, in order. */
  function Dicts(l: Layout, s: seq<Appointment>): (r: seq<Record>)
    ensures |r| == |s|
  {
    seq(|s|, j requires 0 <= j < |s| => ToDict(l, s[j]))
  }

  /** `return_patient_records(mrn)` after the argument check: the first matching patient's dict and its appointment
      dicts sorted newest first, or None ('Patient not found.'). `patient == mrn` raises as soon as one patient is
      compared with a key it cannot take. */
  function PatientRecords(l: Layout, ps: seq<Patient>, key: PatientKey): Result<Option<(Record, seq<Record>)>>
  {
    if ps == [] then Ok(None)
    else
      var m :- KeyMrn(key);
      match IndexOfMrn(ps, m)
      case None => Ok(None)
      case Some(i) => Ok(Some((PatientToDict(ps[i]), Dicts(l, SortDesc(ps[i].appointments)))))
  }

  /** The key `return_patient_records` compares with: a str stays a str (an int having become one); another value is
      rejected (perio.py, perio-recorder.py) or only logged, after which `patient == mrn` reads its missing `.mrn`
      (application.py). */
  function RecordsKey(s: Snapshot, arg: MrnArg): Result<PatientKey>
  {
    var v :- MrnValueOf(s, arg);
    Ok(if v.VStr? then ByMrn(v.s) else ByOther)
  }

  function ReturnedRecords(s: Snapshot, ps: seq<Patient>, arg: MrnArg): Result<Option<(Record, seq<Record>)>>
  {
    var key :- RecordsKey(s, arg);
    PatientRecords(LayoutOf(s), ps, key)
  }

  /** An mrn no patient has gives None in all three copies ('Patient not found. Check MRN.'): `patient_info` starts
      as None and stays so through the loop. */
  lemma RecordsNotFound(s: Snapshot, ps: seq<Patient>, t: string)
    requires forall j :: 0 <= j < |ps| ==> ps[j].mrn != VStr(t)
    ensures ReturnedRecords(s, ps, MrnValue(VStr(t))) == Ok(None)
  {
    PatientRecordsMeaning(LayoutOf(s), ps, t);
  }

  /** The records returned are the first matching patient's dict and the dicts of a stable, newest-first
      rearrangement of exactly its appointments. */
  lemma PatientRecordsMeaning(l: Layout, ps: seq<Patient>, t: string)
    ensures var r := PatientRecords(l, ps, ByMrn(t));
      r.Ok? && (r.value.None? <==> forall j :: 0 <= j < |ps| ==> ps[j].mrn != VStr(t))
      && (r.value.Some? ==>
            IndexOfMrn(ps, VStr(t)).Some?
            && r.value.value.0 == PatientToDict(ps[IndexOfMrn(ps, VStr(t)).value])
            && RecordsOf(l, ps[IndexOfMrn(ps, VStr(t)).value].appointments, r.value.value.1))
  {
    if ps != [] {
      match IndexOfMrn(ps, VStr(t))
      case None =>
      case Some(i) =>
        SortDescMeaning(ps[i].appointments);
        assert RecordsOf(l, ps[i].appointments, Dicts(l, SortDesc(ps[i].appointments)));
    }
  }

  /** recs are the dicts of a stable, newest-first rearrangement of apts. */
  ghost predicate RecordsOf(l: Layout, apts: seq<Appointment>, recs: seq<Record>)
  {
    exists s :: recs == Dicts(l, s) && SortedDesc(s) && multiset(s) == multiset(apts) && forall d :: OnDay(s, d) == OnDay(apts, d)
  }

  // ---------------------------------------------------------------- the appointment an operation targets

  /** The first appointment equal to the key, where `for appointment in appointments: if appointment == key` stops. */
  function FirstMatch(apts: seq<Appointment>, key: AppointmentKey): (r: Option<nat>)
    ensures r.Some? ==> r.value < |apts| && AppointmentEquals(apts[r.value], key)
    ensures r.Some? ==> forall j :: 0 <= j < r.value ==> !AppointmentEquals(apts[j], key)
    ensures r.None? ==> forall j :: 0 <= j < |apts| ==> !AppointmentEquals(apts[j], key)
  {
    if apts == [] then None
    else if AppointmentEquals(apts[0], key) then Some(0)
    else match FirstMatch(apts[1..], key)
      case Some(j) => Some(j + 1)
      case None => None
  }

  /** The nested loops of `modify_appointment` and `delete_apt`: the first patient with that mrn, in order, that
      has an appointment equal to the key, and the first such appointment. */
  function Target(ps: seq<Patient>, m: Value, key: AppointmentKey): (r: Option<(nat, nat)>)
    ensures r.Some? ==> r.value.0 < |ps| && ps[r.value.0].mrn == m && FirstMatch(ps[r.value.0].appointments, key) == Some(r.value.1)
    ensures r.Some? ==> forall i :: 0 <= i < r.value.0 && ps[i].mrn == m ==> FirstMatch(ps[i].appointments, key).None?
    ensures r.None? ==> forall i :: 0 <= i < |ps| && ps[i].mrn == m ==> FirstMatch(ps[i].appointments, key).None?
  {
    if ps == [] then None
    else if ps[0].mrn == m && FirstMatch(ps[0].appointments, key).Some? then Some((0, FirstMatch(ps[0].appointments, key).value))
    else match Target(ps[1..], m, key)
      case Some((i, j)) => Some((i + 1, j))
      case None => None
  }

  /** `patient.appointments.remove(appointment)` removes the first appointment equal to the one found (same date and
      class), which is the one found itself, whether it was found by an appointment or by a date. */
  lemma RemoveFindsTarget(apts: seq<Appointment>, key: AppointmentKey, j: nat)
    requires FirstMatch(apts, key) == Some(j)
    ensures FirstMatch(apts, Like(apts[j])) == Some(j)
  {
    forall k | 0 <= k < j ensures !AppointmentEquals(apts[k], Like(apts[j])) {
      assert !AppointmentEquals(apts[k], key);
      AppointmentEqualsMeaning(apts[k], apts[j]);
      if key.Like? {
        AppointmentEqualsMeaning(apts[k], key.other);
        AppointmentEqualsMeaning(apts[j], key.other);
      }
    }
  }

  /** `self.patients.remove(patient)` removes the first patient equal to the one found, which is that one. */
  lemma RemovePatientFindsTarget(ps: seq<Patient>, m: Value, i: nat)
    requires IndexOfMrn(ps, m) == Some(i)
    ensures IndexOfMrn(ps, ps[i].mrn) == Some(i)
  {
    assert ps[i].mrn == m;
  }

  // ---------------------------------------------------------------- modify_appointment

  /** `modify_appointment(apt)`: the appointment is built first; then the first appointment with the same date and
      class, of the first patient with the record's mrn that has one, is removed and the new one appended to that
      patient's list. */
  function ModifiedAppointment(l: Layout, ps: seq<Patient>, rec: Record): Result<(seq<Patient>, bool)>
  {
    var exam :- AppointmentFromRecord(l, rec);
    if ps == [] then Ok((ps, false))
    else if "mrn" !in rec then Err(KeyError("mrn"))
    else match Target(ps, rec["mrn"], Like(exam))
      case None => Ok((ps, false))
      case Some((i, j)) => Ok((ps[i := ps[i].(appointments := RemoveAt(ps[i].appointments, j) + [exam])], true))
  }

  /** An appointment of the same date and class as `exam`: what `appointment == exam` tests. */
  predicate SameExam(a: Appointment, exam: Appointment)
  {
    a.date == exam.date && a.variant == exam.variant
  }

  predicate NoSameExam(apts: seq<Appointment>, exam: Appointment)
  {
    forall k :: 0 <= k < |apts| ==> !SameExam(apts[k], exam)
  }

  /** No appointment before position n equals `exam` exactly when none has its date and class. */
  lemma LikeMeansSameExam(apts: seq<Appointment>, exam: Appointment, n: nat)
    requires n <= |apts| && forall k :: 0 <= k < n ==> !AppointmentEquals(apts[k], Like(exam))
    ensures forall k :: 0 <= k < n ==> !SameExam(apts[k], exam)
  {
    forall k | 0 <= k < n ensures !SameExam(apts[k], exam) {
      AppointmentEqualsMeaning(apts[k], exam);
    }
  }

  /** A modification swaps one appointment of the first matching patient, of the same date and class, for the new
      one at the end of its list: every other patient is kept, and so are the number of appointments, the MRNs and
      the well-formedness. */
  lemma ModifiedAppointmentMeaning(l: Layout, ps: seq<Patient>, rec: Record) returns (i: nat, j: nat)
    requires ModifiedAppointment(l, ps, rec).Ok? && ModifiedAppointment(l, ps, rec).value.1
    ensures var ps' := ModifiedAppointment(l, ps, rec).value.0;
      var exam := AppointmentFromRecord(l, rec).value;
      i < |ps| && j < |ps[i].appointments| && "mrn" in rec && ps[i].mrn == rec["mrn"]
      && ps[i].appointments[j].date == exam.date && ps[i].appointments[j].variant == exam.variant
      && (forall k :: 0 <= k < j ==> !SameExam(ps[i].appointments[k], exam))
      && (forall p :: 0 <= p < i && ps[p].mrn == rec["mrn"] ==> NoSameExam(ps[p].appointments, exam))
      && ps' == ps[i := ps[i].(appointments := RemoveAt(ps[i].appointments, j) + [exam])]
      && multiset(ps'[i].appointments) == multiset(ps[i].appointments) - multiset{ps[i].appointments[j]} + multiset{exam}
      && Total(ps') == Total(ps)
  {
    var exam := AppointmentFromRecord(l, rec).value;
    i, j := Target(ps, rec["mrn"], Like(exam)).value.0, Target(ps, rec["mrn"], Like(exam)).value.1;
    var apts := ps[i].appointments;
    AppointmentEqualsMeaning(apts[j], exam);
    LikeMeansSameExam(apts, exam, j);
    forall p | 0 <= p < i && ps[p].mrn == rec["mrn"] ensures NoSameExam(ps[p].appointments, exam) {
      LikeMeansSameExam(ps[p].appointments, exam, |ps[p].appointments|);
    }
    var apts' := RemoveAt(apts, j) + [exam];
    RemoveAtMultiset(apts, j);
    TotalUpdate(ps, i, ps[i].(appointments := apts'));
  }

  /** When no patient with the record's mrn holds an appointment of the same date and class, nothing changes
      ('Patient not found.'). */
  lemma ModifiedAppointmentNotFound(l: Layout, ps: seq<Patient>, rec: Record)
    requires ModifiedAppointment(l, ps, rec).Ok? && !ModifiedAppointment(l, ps, rec).value.1
    ensures ModifiedAppointment(l, ps, rec).value.0 == ps
    ensures var exam := AppointmentFromRecord(l, rec).value;
      ps == [] || ("mrn" in rec && forall i :: 0 <= i < |ps| && ps[i].mrn == rec["mrn"] ==> NoSameExam(ps[i].appointments, exam))
  {
    var exam := AppointmentFromRecord(l, rec).value;
    if ps != [] {
      forall i | 0 <= i < |ps| && ps[i].mrn == rec["mrn"] ensures NoSameExam(ps[i].appointments, exam) {
        LikeMeansSameExam(ps[i].appointments, exam, |ps[i].appointments|);
      }
    }
  }

  lemma ModifiedAppointmentKeeps(l: Layout, ps: seq<Patient>, rec: Record)
    requires ModifiedAppointment(l, ps, rec).Ok?
    ensures var ps' := ModifiedAppointment(l, ps, rec).value.0;
      (DistinctMrns(ps) ==> DistinctMrns(ps')) && (AllWellFormed(ps) ==> AllWellFormed(ps'))
  {
    if ModifiedAppointment(l, ps, rec).value.1 {
      var exam := AppointmentFromRecord(l, rec).value;
      AppointmentFromRecordMeaning(l, rec);
      var (i, j) := Target(ps, rec["mrn"], Like(exam)).value;
      var apts' := RemoveAt(ps[i].appointments, j) + [exam];
      RemovedFrom(ps[i].appointments, j);
      ReplacedKeepsInvariants(ps, i, apts');
    }
  }

  /** Every appointment left after a removal was there before. */
  lemma RemovedFrom(apts: seq<Appointment>, j: nat)
    requires j < |apts|
    ensures forall x :: x in RemoveAt(apts, j) ==> x in apts
  {
    forall x | x in RemoveAt(apts, j) ensures x in apts {
      var n :| 0 <= n < |apts| - 1 && RemoveAt(apts, j)[n] == x;
      if n < j { assert x == apts[n]; } else { assert x == apts[n + 1]; }
    }
  }

  /** Replacing one patient's appointment list keeps MRNs distinct, and well-formedness when the new list is. */
  lemma ReplacedKeepsInvariants(ps: seq<Patient>, i: nat, apts: seq<Appointment>)
    requires i < |ps|
    requires forall x :: x in apts ==> x in ps[i].appointments || WellFormed(x)
    ensures var ps' := ps[i := ps[i].(appointments := apts)];
      (DistinctMrns(ps) ==> DistinctMrns(ps')) && (AllWellFormed(ps) ==> AllWellFormed(ps'))
  {
    var ps' := ps[i := ps[i].(appointments := apts)];
    if AllWellFormed(ps) {
      forall k, j | 0 <= k < |ps'| && 0 <= j < |ps'[k].appointments| ensures WellFormed(ps'[k].appointments[j]) {
        if k == i {
          var x := apts[j];
          assert x in apts;
          if x in ps[i].appointments {
            var n :| 0 <= n < |ps[i].appointments| && ps[i].appointments[n] == x;
          }
        }
      }
    }
  }

  /** Modifying a patient's latest-added appointment with its own saved row replaces it by itself: nothing
      changes. */
  lemma ModifyWithOwnRecord(l: Layout, ps: seq<Patient>, i: nat, j: nat)
    requires i < |ps| && j + 1 == |ps[i].appointments| && WellFormed(ps[i].appointments[j])
    requires forall k :: 0 <= k < j ==> !AppointmentEquals(ps[i].appointments[k], Like(ps[i].appointments[j]))
    requires forall k :: 0 <= k < i ==> ps[k].mrn != ps[i].mrn
    ensures ModifiedAppointment(l, ps, PatientToDict(ps[i]) + ToDict(l, ps[i].appointments[j])) == Ok((ps, true))
  {
    var a := ps[i].appointments[j];
    var rec := PatientToDict(ps[i]) + ToDict(l, a);
    AppointmentRoundTrip(l, PatientToDict(ps[i]), a);
    assert AppointmentFromRecord(l, rec) == Ok(a);
    ToDictShape(l, a);
    assert "mrn" in rec && rec["mrn"] == ps[i].mrn;
    assert FirstMatch(ps[i].appointments, Like(a)) == Some(j);
    TargetAt(ps, rec["mrn"], Like(a), i);
    assert RemoveAt(ps[i].appointments, j) + [a] == ps[i].appointments;
    assert ps[i := ps[i].(appointments := ps[i].appointments)] == ps;
  }

  /** A patient with the mrn that is the first to hold a matching appointment is the target. */
  lemma TargetAt(ps: seq<Patient>, m: Value, key: AppointmentKey, i: nat)
    requires i < |ps| && ps[i].mrn == m && FirstMatch(ps[i].appointments, key).Some?
    requires forall k :: 0 <= k < i ==> ps[k].mrn != m || FirstMatch(ps[k].appointments, key).None?
    ensures Target(ps, m, key) == Some((i, FirstMatch(ps[i].appointments, key).value))
  {
    var r := Target(ps, m, key);
    assert r.Some?;
    assert r.value.0 == i;
  }

  // ---------------------------------------------------------------- delete_apt

  /** `delete_apt(apt)`: among the patients whose mrn equals `apt['mrn']` (a missing key raises KeyError as soon as
      one patient is compared), the date is parsed at the first of them, and the first appointment on that date
      (of any class) of the first of them that has one is removed. */
  function DeletedAppointment(ps: seq<Patient>, rec: Record): Result<(seq<Patient>, bool)>
  {
    if ps == [] then Ok((ps, false))
    else if "mrn" !in rec then Err(KeyError("mrn"))
    else match IndexOfMrn(ps, rec["mrn"])
      case None => Ok((ps, false))
      case Some(_) =>
        var d :- DateField(rec, "date");
        match Target(ps, rec["mrn"], OnDate(d))
        case None => Ok((ps, false))
        case Some((i, j)) => Ok((ps[i := ps[i].(appointments := RemoveAt(ps[i].appointments, j))], true))
  }

  /** A deletion removes exactly one appointment, on the given date, of the first patient with the given mrn that
      has one, and keeps every other patient. */
  lemma DeletedAppointmentMeaning(ps: seq<Patient>, rec: Record) returns (i: nat, j: nat)
    requires DeletedAppointment(ps, rec).Ok? && DeletedAppointment(ps, rec).value.1
    ensures var ps' := DeletedAppointment(ps, rec).value.0;
      i < |ps| && j < |ps[i].appointments| && "mrn" in rec && ps[i].mrn == rec["mrn"]
      && DateField(rec, "date") == Ok(ps[i].appointments[j].date)
      && (forall k :: 0 <= k < j ==> ps[i].appointments[k].date != ps[i].appointments[j].date)
      && (forall p, k :: 0 <= p < i && ps[p].mrn == rec["mrn"] && 0 <= k < |ps[p].appointments| ==>
            ps[p].appointments[k].date != ps[i].appointments[j].date)
      && ps' == ps[i := ps[i].(appointments := RemoveAt(ps[i].appointments, j))]
      && Total(ps') + 1 == Total(ps)
  {
    var d := DateField(rec, "date").value;
    i, j := Target(ps, rec["mrn"], OnDate(d)).value.0, Target(ps, rec["mrn"], OnDate(d)).value.1;
    TotalUpdate(ps, i, ps[i].(appointments := RemoveAt(ps[i].appointments, j)));
  }

  /** When no patient with the given mrn has an appointment on the given date, nothing changes
      ('Appointment not found.'). */
  lemma DeletedAppointmentNotFound(ps: seq<Patient>, rec: Record)
    requires DeletedAppointment(ps, rec).Ok? && !DeletedAppointment(ps, rec).value.1
    ensures DeletedAppointment(ps, rec).value.0 == ps
    ensures ps == [] || ("mrn" in rec && forall i :: 0 <= i < |ps| && ps[i].mrn == rec["mrn"] ==>
      DateField(rec, "date").Ok? && forall k :: 0 <= k < |ps[i].appointments| ==> ps[i].appointments[k].date != DateField(rec, "date").value)
  {
    if ps != [] {
      forall i | 0 <= i < |ps| && ps[i].mrn == rec["mrn"]
        ensures DateField(rec, "date").Ok? && forall k :: 0 <= k < |ps[i].appointments| ==> ps[i].appointments[k].date != DateField(rec, "date").value
      {
        assert IndexOfMrn(ps, rec["mrn"]).Some?;
        var d := DateField(rec, "date").value;
        assert FirstMatch(ps[i].appointments, OnDate(d)).None?;
      }
    }
  }

  lemma DeletedAppointmentKeeps(ps: seq<Patient>, rec: Record)
    requires DeletedAppointment(ps, rec).Ok?
    ensures var ps' := DeletedAppointment(ps, rec).value.0;
      (DistinctMrns(ps) ==> DistinctMrns(ps')) && (AllWellFormed(ps) ==> AllWellFormed(ps'))
  {
    if DeletedAppointment(ps, rec).value.1 {
      var d := DateField(rec, "date").value;
      var (i, j) := Target(ps, rec["mrn"], OnDate(d)).value;
      RemovedFrom(ps[i].appointments, j);
      ReplacedKeepsInvariants(ps, i, RemoveAt(ps[i].appointments, j));
    }
  }

  /** Adding an appointment to a known patient who has none on that date, then deleting the appointment on that date,
      gives back the patients as they were. */
  lemma AddThenDeleteAppointment(l: Layout, ps: seq<Patient>, rec: Record, i: nat)
    requires Upserted(l, ps, rec).Ok? && "mrn" in rec
    requires i < |ps| && ps[i].mrn == rec["mrn"] && forall k :: 0 <= k < i ==> ps[k].mrn != rec["mrn"]
    requires forall k :: 0 <= k < |ps[i].appointments| ==> ps[i].appointments[k].date != AppointmentFromRecord(l, rec).value.date
    ensures DeletedAppointment(Upserted(l, ps, rec).value, rec) == Ok((ps, true))
  {
    var exam := AppointmentFromRecord(l, rec).value;
    AppointmentFromRecordMeaning(l, rec);
    UpsertKnown(l, ps, rec, i);
    var apts := ps[i].appointments + [exam];
    var ps' := ps[i := ps[i].(appointments := apts)];
    assert DateField(rec, "date") == Ok(exam.date);
    IndexOfMrnAt(ps', rec["mrn"], i);
    FirstMatchLast(ps[i].appointments, exam);
    TargetAt(ps', rec["mrn"], OnDate(exam.date), i);
    assert RemoveAt(apts, |ps[i].appointments|) == ps[i].appointments;
    assert ps'[i := ps'[i].(appointments := ps[i].appointments)] == ps;
  }

  lemma FirstMatchLast(apts: seq<Appointment>, a: Appointment)
    requires forall k :: 0 <= k < |apts| ==> apts[k].date != a.date
    ensures FirstMatch(apts + [a], OnDate(a.date)) == Some(|apts|)
  {
    var s := apts + [a];
    forall k | 0 <= k < |apts| ensures !AppointmentEquals(s[k], OnDate(a.date)) {
      assert s[k] == apts[k];
    }
    assert AppointmentEquals(s[|apts|], OnDate(a.date));
  }

  // ---------------------------------------------------------------- delete_patient

  /** `delete_patient(p)` as perio.py and perio-recorder.py write it: the first patient equal to p is removed. */
  function DeletedPatient(ps: seq<Patient>, key: PatientKey): Result<(seq<Patient>, bool)>
  {
    if ps == [] then Ok((ps, false))
    else
      var m :- KeyMrn(key);
      match IndexOfMrn(ps, m)
      case None => Ok((ps, false))
      case Some(i) => Ok((RemoveAt(ps, i), true))
  }

  /** A deletion removes exactly the first patient with the key's mrn, keeping the others in order; with distinct
      MRNs none is left with it. */
  lemma DeletedPatientMeaning(ps: seq<Patient>, key: PatientKey)
    requires DeletedPatient(ps, key).Ok?
    ensures var (ps', found) := DeletedPatient(ps, key).value;
      (found <==> KeyMrn(key).Ok? && exists j :: 0 <= j < |ps| && ps[j].mrn == KeyMrn(key).value)
      && (!found ==> ps' == ps)
      && (found ==>
            exists i :: 0 <= i < |ps| && ps[i].mrn == KeyMrn(key).value && ps' == RemoveAt(ps, i)
              && forall k :: 0 <= k < i ==> ps[k].mrn != KeyMrn(key).value)
      && (found && DistinctMrns(ps) ==> DistinctMrns(ps') && forall k :: 0 <= k < |ps'| ==> ps'[k].mrn != KeyMrn(key).value)
  {
    if ps != [] {
      var m := KeyMrn(key).value;
      match IndexOfMrn(ps, m)
      case None =>
      case Some(i) =>
        var ps' := RemoveAt(ps, i);
        if DistinctMrns(ps) {
          forall a, b | 0 <= a < b < |ps'| ensures ps'[a].mrn != ps'[b].mrn {
            var a0 := if a < i then a else a + 1;
            var b0 := if b < i then b else b + 1;
            assert ps'[a] == ps[a0] && ps'[b] == ps[b0];
          }
          forall k | 0 <= k < |ps'| ensures ps'[k].mrn != m {
            var k0 := if k < i then k else k + 1;
            assert ps'[k] == ps[k0] && k0 != i;
          }
        }
    }
  }

  /** Adding an appointment for a new patient and then deleting that patient gives back the patients as they were. */
  lemma AddThenDeletePatient(l: Layout, ps: seq<Patient>, rec: Record)
    requires Upserted(l, ps, rec).Ok? && "mrn" in rec
    requires forall j :: 0 <= j < |ps| ==> ps[j].mrn != rec["mrn"]
    ensures DeletedPatient(Upserted(l, ps, rec).value, ByRecord(rec)) == Ok((ps, true))
  {
    var exam := AppointmentFromRecord(l, rec).value;
    assert ps == [] || IndexOfMrn(ps, rec["mrn"]).None?;
    var p := PatientFromRecord(rec).value;
    PatientFromRecordMeaning(rec);
    var ps' := ps + [p.(appointments := [exam])];
    assert Upserted(l, ps, rec).value == ps';
    IndexOfMrnAt(ps', rec["mrn"], |ps|);
    assert RemoveAt(ps', |ps|) == ps;
  }

  /** `delete_patient(p)` as application.py writes it, without a `return`: the loop goes on over the shrunken list,
      so the element after each removed one is skipped, and each later match removes the first patient equal to it. */
  function DeletedPatientNoReturn(ps: seq<Patient>, key: PatientKey): Result<seq<Patient>>
  {
    if ps == [] then Ok(ps)
    else
      var m :- KeyMrn(key);
      Ok(DeleteScan(ps, 0, m))
  }

  function DeleteScan(ps: seq<Patient>, k: nat, m: Value): seq<Patient>
    decreases |ps| - k
  {
    if k >= |ps| then ps
    else if ps[k].mrn == m then DeleteScan(RemoveAt(ps, IndexOfMrn(ps, ps[k].mrn).value), k + 1, m)
    else DeleteScan(ps, k + 1, m)
  }

  lemma {:induction false} DeleteScanNoMatch(ps: seq<Patient>, k: nat, m: Value)
    requires forall j :: k <= j < |ps| ==> ps[j].mrn != m
    ensures DeleteScan(ps, k, m) == ps
    decreases |ps| - k
  {
    if k < |ps| { DeleteScanNoMatch(ps, k + 1, m); }
  }

  lemma {:induction false} DeleteScanSkips(ps: seq<Patient>, k: nat, i: nat, m: Value)
    requires k <= i <= |ps| && forall j :: k <= j < i ==> ps[j].mrn != m
    ensures DeleteScan(ps, k, m) == DeleteScan(ps, i, m)
    decreases i - k
  {
    if k < i { DeleteScanSkips(ps, k + 1, i, m); }
  }

  /** With distinct MRNs (which adding, loading and modifying keep) the missing `return` changes nothing: the list
      is the one the returning version leaves. */
  lemma DeleteNoReturnAgrees(ps: seq<Patient>, key: PatientKey)
    requires DistinctMrns(ps)
    ensures DeletedPatientNoReturn(ps, key).Ok? <==> DeletedPatient(ps, key).Ok?
    ensures DeletedPatientNoReturn(ps, key).Ok? ==> DeletedPatientNoReturn(ps, key).value == DeletedPatient(ps, key).value.0
  {
    if ps != [] && KeyMrn(key).Ok? {
      var m := KeyMrn(key).value;
      match IndexOfMrn(ps, m)
      case None =>
        DeleteScanNoMatch(ps, 0, m);
      case Some(i) =>
        DeleteScanSkips(ps, 0, i, m);
        RemovePatientFindsTarget(ps, m, i);
        var ps' := RemoveAt(ps, i);
        DeletedPatientMeaning(ps, key);
        DeleteScanNoMatch(ps', i + 1, m);
    }
  }

  // ---------------------------------------------------------------- modify_patient

  /** The keys of `Patient.to_dict()` in the order `items()` lists them. */
  const PatientKeyOrder: seq<string> := ["mrn", "first", "last", "birthday", "sex"]

  /** The loop `for k, v in original.items(): if v != person[k]: before[k] = v; after[k] = person[k]` over keys. */
  function DiffOver(keys: seq<string>, orig: Record, rec: Record): Result<(Record, Record)>
    requires forall i :: 0 <= i < |keys| ==> keys[i] in orig
  {
    if keys == [] then Ok((map[], map[]))
    else
      var n := |keys| - 1;
      var rest :- DiffOver(keys[..n], orig, rec);
      var k := keys[n];
      if k !in rec then Err(KeyError(k))
      else if orig[k] != rec[k] then Ok((rest.0[k := orig[k]], rest.1[k := rec[k]]))
      else Ok(rest)
  }

  /** The diff succeeds exactly when the record has every key, and then holds, for exactly the keys whose value
      differs, the old value before and the new one after; otherwise it raises KeyError for the first missing key. */
  lemma DiffMeaning(keys: seq<string>, orig: Record, rec: Record)
    requires forall i :: 0 <= i < |keys| ==> keys[i] in orig
    ensures var r := DiffOver(keys, orig, rec);
      (r.Ok? <==> forall i :: 0 <= i < |keys| ==> keys[i] in rec)
      && (r.Ok? ==>
            r.value.0.Keys == r.value.1.Keys
            && (forall k :: k in r.value.0 <==> k in keys && k in rec && orig[k] != rec[k])
            && (forall k :: k in r.value.0 ==> r.value.0[k] == orig[k] && r.value.1[k] == rec[k]))
      && (r.Err? ==>
            exists n :: 0 <= n < |keys| && keys[n] !in rec && r.error == KeyError(keys[n])
              && forall i :: 0 <= i < n ==> keys[i] in rec)
  {
    DiffSucceeds(keys, orig, rec);
    if DiffOver(keys, orig, rec).Ok? {
      DiffContent(keys, orig, rec);
    } else {
      DiffFirstMissing(keys, orig, rec);
    }
  }

  lemma {:induction false} DiffSucceeds(keys: seq<string>, orig: Record, rec: Record)
    requires forall i :: 0 <= i < |keys| ==> keys[i] in orig
    ensures DiffOver(keys, orig, rec).Ok? <==> forall i :: 0 <= i < |keys| ==> keys[i] in rec
  {
    if keys != [] {
      var n := |keys| - 1;
      DiffSucceeds(keys[..n], orig, rec);
      assert forall i :: 0 <= i < n ==> keys[..n][i] == keys[i];
    }
  }

  lemma {:induction false} DiffContent(keys: seq<string>, orig: Record, rec: Record)
    requires forall i :: 0 <= i < |keys| ==> keys[i] in orig
    requires DiffOver(keys, orig, rec).Ok?
    ensures var d := DiffOver(keys, orig, rec).value;
      d.0.Keys == d.1.Keys
      && (forall k :: k in d.0 <==> k in keys && k in rec && orig[k] != rec[k])
      && (forall k :: k in d.0 ==> d.0[k] == orig[k] && d.1[k] == rec[k])
  {
    if keys != [] {
      var n := |keys| - 1;
      var init := keys[..n];
      DiffContent(init, orig, rec);
      forall k ensures k in keys <==> k in init || k == keys[n] {
        assert keys == init + [keys[n]];
      }
    }
  }

  lemma {:induction false} DiffFirstMissing(keys: seq<string>, orig: Record, rec: Record)
    requires forall i :: 0 <= i < |keys| ==> keys[i] in orig
    requires DiffOver(keys, orig, rec).Err?
    ensures exists n ::
      0 <= n < |keys| && keys[n] !in rec && DiffOver(keys, orig, rec).error == KeyError(keys[n])
      && forall i :: 0 <= i < n ==> keys[i] in rec
  {
    var n := |keys| - 1;
    var init := keys[..n];
    var r := DiffOver(init, orig, rec);
    if r.Err? {
      DiffFirstMissing(init, orig, rec);
      var e :| 0 <= e < |init| && init[e] !in rec && r.error == KeyError(init[e])
        && forall i :: 0 <= i < e ==> init[i] in rec;
      assert keys[e] == init[e] && forall i :: 0 <= i < e ==> keys[i] == init[i];
    } else {
      DiffSucceeds(init, orig, rec);
      assert forall i :: 0 <= i < n ==> init[i] == keys[i];
    }
  }

  /** Once a prefix of the keys raises, so does the whole loop, with the same exception. */
  lemma {:induction false} DiffStopsAt(keys: seq<string>, orig: Record, rec: Record, i: nat)
    requires forall k :: 0 <= k < |keys| ==> keys[k] in orig
    requires i <= |keys| && DiffOver(keys[..i], orig, rec).Err?
    ensures DiffOver(keys, orig, rec) == DiffOver(keys[..i], orig, rec)
    decreases |keys|
  {
    if i < |keys| {
      var init := keys[..|keys| - 1];
      assert init[..i] == keys[..i];
      DiffStopsAt(init, orig, rec, i);
    } else {
      assert keys[..i] == keys;
    }
  }

  /** `modify_patient(person)` as perio.py and perio-recorder.py write it: a non-dict argument raises ValueError; the
      first patient with the record's mrn is compared key by key, rebuilt from the record, given its old
      appointments and moved to the end of the list; the result carries the changed values before and after. */
  function ModifiedPatient(ps: seq<Patient>, person: PatientKey): Result<(seq<Patient>, Option<(Record, Record)>)>
  {
    if !person.ByRecord? then Err(ValueError)
    else
      var rec := person.record;
      if ps == [] then Ok((ps, None))
      else if "mrn" !in rec then Err(KeyError("mrn"))
      else match IndexOfMrn(ps, rec["mrn"])
        case None => Ok((ps, None))
        case Some(i) =>
          var diff :- DiffOver(PatientKeyOrder, PatientToDict(ps[i]), rec);
          var p :- PatientFromRecord(rec);
          Ok((RemoveAt(ps, i) + [p.(appointments := ps[i].appointments)], Some(diff)))
  }

  /** A modification replaces the first patient with the record's mrn by the patient the record describes, holding
      the same appointments, at the end of the list; the MRNs, the count of patients and of appointments, and the
      invariants are kept. */
  lemma ModifiedPatientMeaning(ps: seq<Patient>, rec: Record)
    requires ModifiedPatient(ps, ByRecord(rec)).Ok? && ModifiedPatient(ps, ByRecord(rec)).value.1.Some?
    ensures var ps' := ModifiedPatient(ps, ByRecord(rec)).value.0;
      exists i :: 0 <= i < |ps| && IndexOfMrn(ps, rec["mrn"]) == Some(i)
        && RemoveAt(ps, i) == ps'[..|ps| - 1]
        && Ok(ps'[|ps| - 1].(appointments := [])) == PatientFromRecord(rec)
        && ps'[|ps| - 1].appointments == ps[i].appointments
    ensures var ps' := ModifiedPatient(ps, ByRecord(rec)).value.0;
      |ps'| == |ps| && Total(ps') == Total(ps)
      && (DistinctMrns(ps) ==> DistinctMrns(ps')) && (AllWellFormed(ps) ==> AllWellFormed(ps'))
  {
    var i := IndexOfMrn(ps, rec["mrn"]).value;
    var p := PatientFromRecord(rec).value;
    PatientFromRecordMeaning(rec);
    var q := p.(appointments := ps[i].appointments);
    var rest := RemoveAt(ps, i);
    var ps' := rest + [q];
    assert ps'[..|ps| - 1] == rest;
    MovedKeepsInvariants(ps, i, q);
  }

  /** Moving patient i, with the same mrn and appointments, to the end keeps the counts and the invariants. */
  lemma MovedKeepsInvariants(ps: seq<Patient>, i: nat, q: Patient)
    requires i < |ps| && q.mrn == ps[i].mrn && q.appointments == ps[i].appointments
    ensures var ps' := RemoveAt(ps, i) + [q];
      Total(ps') == Total(ps)
      && (DistinctMrns(ps) ==> DistinctMrns(ps')) && (AllWellFormed(ps) ==> AllWellFormed(ps'))
  {
    TotalRemove(ps, i);
    TotalSnoc(RemoveAt(ps, i), q);
    if DistinctMrns(ps) { MovedDistinct(ps, i, q); }
    if AllWellFormed(ps) { MovedWellFormed(ps, i, q); }
  }

  /** Where patient k of the moved list came from. */
  function MovedFrom(n: nat, i: nat, k: nat): nat
  {
    if k == n - 1 then i else if k < i then k else k + 1
  }

  lemma MovedAt(ps: seq<Patient>, i: nat, q: Patient, k: nat)
    requires i < |ps| && k < |ps|
    ensures MovedFrom(|ps|, i, k) < |ps|
    ensures k < |ps| - 1 ==> (RemoveAt(ps, i) + [q])[k] == ps[MovedFrom(|ps|, i, k)]
    ensures k == |ps| - 1 ==> (RemoveAt(ps, i) + [q])[k] == q && MovedFrom(|ps|, i, k) == i
  {
  }

  lemma MovedDistinct(ps: seq<Patient>, i: nat, q: Patient)
    requires i < |ps| && q.mrn == ps[i].mrn && DistinctMrns(ps)
    ensures DistinctMrns(RemoveAt(ps, i) + [q])
  {
    var ps' := RemoveAt(ps, i) + [q];
    forall a, b | 0 <= a < b < |ps'| ensures ps'[a].mrn != ps'[b].mrn {
      MovedAt(ps, i, q, a);
      MovedAt(ps, i, q, b);
      assert ps'[a].mrn == ps[MovedFrom(|ps|, i, a)].mrn && ps'[b].mrn == ps[MovedFrom(|ps|, i, b)].mrn;
    }
  }

  lemma MovedWellFormed(ps: seq<Patient>, i: nat, q: Patient)
    requires i < |ps| && q.appointments == ps[i].appointments && AllWellFormed(ps)
    ensures AllWellFormed(RemoveAt(ps, i) + [q])
  {
    var ps' := RemoveAt(ps, i) + [q];
    forall a, j | 0 <= a < |ps'| && 0 <= j < |ps'[a].appointments| ensures WellFormed(ps'[a].appointments[j]) {
      MovedAt(ps, i, q, a);
      assert ps'[a].appointments == ps[MovedFrom(|ps|, i, a)].appointments;
    }
  }

  lemma {:induction false} TotalRemove(ps: seq<Patient>, i: nat)
    requires i < |ps|
    ensures Total(RemoveAt(ps, i)) + |ps[i].appointments| == Total(ps)
  {
    TotalUpdate(ps, i, ps[i].(appointments := []));
    TotalOfEmptyAt(ps[i := ps[i].(appointments := [])], i);
  }

  /** Dropping a patient with no appointments does not change the total. */
  lemma {:induction false} TotalOfEmptyAt(ps: seq<Patient>, i: nat)
    requires i < |ps| && ps[i].appointments == []
    ensures Total(RemoveAt(ps, i)) == Total(ps)
    decreases |ps|
  {
    var n := |ps|;
    var last := ps[n - 1];
    if i == n - 1 {
      assert RemoveAt(ps, i) == ps[..n - 1];
    } else {
      var init := ps[..n - 1];
      TotalOfEmptyAt(init, i);
      assert RemoveAt(ps, i) == RemoveAt(init, i) + [last];
      TotalSnoc(RemoveAt(init, i), last);
      assert ps == init + [last];
      TotalSnoc(init, last);
    }
  }

  /** Modifying a patient with its own dict changes nothing but moves it to the end: the diff is empty. */
  lemma ModifyWithOwnDict(ps: seq<Patient>, i: nat)
    requires i < |ps| && forall k :: 0 <= k < i ==> ps[k].mrn != ps[i].mrn
    ensures ModifiedPatient(ps, ByRecord(PatientToDict(ps[i]))) == Ok((RemoveAt(ps, i) + [ps[i]], Some((map[], map[]))))
  {
    var rec := PatientToDict(ps[i]);
    assert IndexOfMrn(ps, rec["mrn"]) == Some(i);
    DiffMeaning(PatientKeyOrder, rec, rec);
    var diff := DiffOver(PatientKeyOrder, rec, rec).value;
    assert diff.0 == map[] && diff.1 == map[];
    PatientFromRecordMeaning(rec);
    ParseFormat(ps[i].birthday);
    assert PatientFromRecord(rec) == Ok(ps[i].(appointments := []));
  }

  /** `modify_patient(person)` as application.py writes it, for a dict argument, without a `return`: the loop goes
      on over the mutated list from the next index, and `person` now names the new Patient object, so the next
      patient with that mrn it meets makes `person[k]` raise TypeError, after the list has been changed. The list
      and the exception it ends with. */
  function ModifiedPatientNoReturn(ps: seq<Patient>, rec: Record): (seq<Patient>, Option<Failure>)
  {
    if ps == [] then (ps, None)
    else if "mrn" !in rec then (ps, Some(KeyError("mrn")))
    else match IndexOfMrn(ps, rec["mrn"])
      case None => (ps, None)
      case Some(i) =>
        match DiffOver(PatientKeyOrder, PatientToDict(ps[i]), rec)
        case Err(e) => (ps, Some(e))
        case Ok(_) =>
          match PatientFromRecord(rec)
          case Err(e) => (ps, Some(e))
          case Ok(p) =>
            var ps' := RemoveAt(ps, i) + [p.(appointments := ps[i].appointments)];
            (ps', ResumeScan(ps', i + 1, p.mrn))
  }

  /** The rest of the loop after the move: the first patient from index k on whose mrn equals the new patient's
      makes `person[k]` raise TypeError. */
  function ResumeScan(ps: seq<Patient>, k: nat, m: Value): Option<Failure>
    decreases |ps| - k
  {
    if k >= |ps| then None else if ps[k].mrn == m then Some(TypeError) else ResumeScan(ps, k + 1, m)
  }

  lemma {:induction false} ResumeScanReachesLast(ps: seq<Patient>, k: nat, m: Value)
    requires k < |ps| && ps[|ps| - 1].mrn == m
    ensures ResumeScan(ps, k, m) == Some(TypeError)
    decreases |ps| - k
  {
    if ps[k].mrn != m { ResumeScanReachesLast(ps, k + 1, m); }
  }

  /** Where the modification succeeds, the version without `return` leaves the same list, then resumes the scan. */
  lemma NoReturnUnfolds(ps: seq<Patient>, rec: Record) returns (ps': seq<Patient>, i: nat)
    requires ModifiedPatient(ps, ByRecord(rec)).Ok? && ModifiedPatient(ps, ByRecord(rec)).value.1.Some?
    ensures "mrn" in rec && IndexOfMrn(ps, rec["mrn"]) == Some(i)
    ensures ModifiedPatient(ps, ByRecord(rec)).value.0 == ps'
    ensures ModifiedPatientNoReturn(ps, rec) == (ps', ResumeScan(ps', i + 1, rec["mrn"]))
    ensures i < |ps'| && |ps'| == |ps| && ps'[|ps'| - 1].mrn == rec["mrn"]
  {
    PatientFromRecordMeaning(rec);
    i := IndexOfMrn(ps, rec["mrn"]).value;
    ps' := ModifiedPatient(ps, ByRecord(rec)).value.0;
  }

  /** The defect: the list always ends as the returning version leaves it, but unless the modified patient was the
      last one, a TypeError escapes after the change; the intended version returns normally. */
  lemma ModifyNoReturnRaises(ps: seq<Patient>, rec: Record)
    requires ModifiedPatient(ps, ByRecord(rec)).Ok? && ModifiedPatient(ps, ByRecord(rec)).value.1.Some?
    ensures ModifiedPatientNoReturn(ps, rec).0 == ModifiedPatient(ps, ByRecord(rec)).value.0
    ensures ModifiedPatientNoReturn(ps, rec).1 == Some(TypeError) <==> IndexOfMrn(ps, rec["mrn"]).value < |ps| - 1
    ensures ModifiedPatientNoReturn(ps, rec).1.None? <==> IndexOfMrn(ps, rec["mrn"]).value == |ps| - 1
  {
    var ps', i := NoReturnUnfolds(ps, rec);
    ResumeAfter(ps', i, rec["mrn"]);
  }

  /** Resuming after index i of a list whose last patient has mrn m raises exactly when i is not the last index. */
  lemma ResumeAfter(ps: seq<Patient>, i: nat, m: Value)
    requires i < |ps| && ps[|ps| - 1].mrn == m
    ensures ResumeScan(ps, i + 1, m) == Some(TypeError) <==> i < |ps| - 1
    ensures ResumeScan(ps, i + 1, m).None? <==> i == |ps| - 1
  {
    if i < |ps| - 1 {
      ResumeScanReachesLast(ps, i + 1, m);
    }
  }

  /** Every error the returning version raises, the version without `return` raises too, leaving the list as it
      was; and when no patient matches both leave it unchanged. */
  lemma ModifyNoReturnOtherwiseAgrees(ps: seq<Patient>, rec: Record)
    requires ModifiedPatient(ps, ByRecord(rec)).Err? || ModifiedPatient(ps, ByRecord(rec)).value.1.None?
    ensures ModifiedPatientNoReturn(ps, rec).0 == ps
    ensures ModifiedPatient(ps, ByRecord(rec)).Err? ==> ModifiedPatientNoReturn(ps, rec).1 == Some(ModifiedPatient(ps, ByRecord(rec)).error)
    ensures ModifiedPatient(ps, ByRecord(rec)).Ok? ==> ModifiedPatientNoReturn(ps, rec).1.None?
  {
  }
}
