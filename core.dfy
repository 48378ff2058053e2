/** The record model: patients, the four appointment classes, their identity rules and their flat records
    (core.py, and the record classes of perio-recorder.py). */
module Core {
  import opened Values
  import opened Dates

  /** The four appointment classes. */
  datatype Variant = PeriodicExam | LimitedExam | ComprehensiveExam | Surgery

  /** `self.__class__.__name__`. */
  function Name(v: Variant): string
  {
    match v
    case PeriodicExam => "PeriodicExam"
    case LimitedExam => "LimitedExam"
    case ComprehensiveExam => "ComprehensiveExam"
    case Surgery => "Surgery"
  }

  /** The `if apt['_type'] == 'PeriodicExam': ... elif ...` dispatch: only the four class names name a variant. */
  function VariantNamed(s: string): (r: Option<Variant>)
    ensures r.Some? ==> Name(r.value) == s
    ensures r.None? ==> forall v :: Name(v) != s
  {
    if s == "PeriodicExam" then Some(PeriodicExam)
    else if s == "LimitedExam" then Some(LimitedExam)
    else if s == "ComprehensiveExam" then Some(ComprehensiveExam)
    else if s == "Surgery" then Some(Surgery)
    else None
  }

  /** The procedure attributes each class's `__init__` copies from its record. */
  function FieldNames(v: Variant): set<string>
  {
    match v
    case PeriodicExam => {}
    case LimitedExam =>
      {"abscess", "crown_lengthening", "cv_exam", "extraction", "frenectomy", "fracture", "implant", "oral_path",
       "periodontitis", "peri_implantitis", "postop", "return_", "recession", "re_evaluation", "miscellaneous"}
    case ComprehensiveExam =>
      {"periodontitis", "executive_health", "recession", "hygiene", "return_", "oncology", "implant", "oral_path"}
    case Surgery =>
      {"biopsy", "extractions", "uncovery", "implant", "crown_lengthening", "soft_tissue", "perio", "miscellaneous",
       "sinus", "peri_implantitis"}
  }

  /** Which discriminator key a snapshot's flat records carry: `_type` in core.py, storage.py, application.py and
      perio.py, `type` in perio-recorder.py. */
  datatype Layout = UnderscoreType | PlainType

  function TypeKey(l: Layout): string
  {
    match l
    case UnderscoreType => "_type"
    case PlainType => "type"
  }

  /** An appointment: its class, its date, asa, note and the procedure attributes of its class. */
  datatype Appointment = Appointment(variant: Variant, date: ValidDate, asa: Value, note: Value, fields: map<string, Value>)

  /** The attribute set `__init__` gives: exactly the fields of the class. */
  predicate WellFormed(a: Appointment)
  {
    a.fields.Keys == FieldNames(a.variant)
  }

  /** A patient and its list of appointments. */
  datatype Patient = Patient(mrn: Value, first: Value, last: Value, birthday: ValidDate, sex: Value, appointments: seq<Appointment>)

  /** The keys of `Patient.to_dict()`. */
  const PatientKeys: set<string> := {"mrn", "first", "last", "birthday", "sex"}

  // ---------------------------------------------------------------- identity

  /** What `Patient.__eq__` accepts: another Patient, a dict (compared on its 'mrn'), a bare mrn string,
      or some other object (whose missing `.mrn` raises AttributeError). */
  datatype PatientKey = ByPatient(patient: Patient) | ByRecord(record: Record) | ByMrn(mrn: string) | ByOther

  /** The mrn `Patient.__eq__` compares with. */
  function KeyMrn(key: PatientKey): Result<Value>
  {
    match key
    case ByPatient(q) => Ok(q.mrn)
    case ByRecord(r) => if "mrn" in r then Ok(r["mrn"]) else Err(KeyError("mrn"))
    case ByMrn(s) => Ok(VStr(s))
    case ByOther => Err(AttributeError)
  }

  /** `patient == key` (core.py:46-53, perio-recorder.py:43-48). */
  function PatientEquals(p: Patient, key: PatientKey): Result<bool>
  {
    var m :- KeyMrn(key);
    Ok(p.mrn == m)
  }

  /** The position of the first patient with this MRN, the one a `for patient in patients: if patient == key`
      loop stops at. */
  function IndexOfMrn(ps: seq<Patient>, m: Value): (r: Option<nat>)
    ensures r.Some? ==> r.value < |ps| && ps[r.value].mrn == m && forall j :: 0 <= j < r.value ==> ps[j].mrn != m
    ensures r.None? ==> forall j :: 0 <= j < |ps| ==> ps[j].mrn != m
  {
    if ps == [] then None
    else if ps[0].mrn == m then Some(0)
    else match IndexOfMrn(ps[1..], m)
      case Some(i) => Some(i + 1)
      case None => None
  }

  /** The first patient with the mrn is the one the search stops at. */
  lemma IndexOfMrnAt(ps: seq<Patient>, m: Value, i: nat)
    requires i < |ps| && ps[i].mrn == m && forall k :: 0 <= k < i ==> ps[k].mrn != m
    ensures IndexOfMrn(ps, m) == Some(i)
  {
    var r := IndexOfMrn(ps, m);
    assert r.Some?;
    assert r.value == i;
  }

  /** The three accepted forms of a key agree: a patient, its flat record and its mrn text all select
      exactly the patients with that mrn. */
  lemma PatientKeyFormsAgree(p: Patient, q: Patient, s: string)
    requires q.mrn == VStr(s)
    ensures PatientEquals(p, ByPatient(q)) == Ok(p.mrn == q.mrn)
    ensures PatientEquals(p, ByRecord(PatientToDict(q))) == Ok(p.mrn == q.mrn)
    ensures PatientEquals(p, ByMrn(s)) == Ok(p.mrn == q.mrn)
  {
  }

  /** What an appointment's `__eq__` accepts: a bare date or another appointment. */
  datatype AppointmentKey = OnDate(date: Date) | Like(other: Appointment)

  /** `appointment == key` (core.py:146-151 and its three copies). */
  predicate AppointmentEquals(a: Appointment, key: AppointmentKey)
  {
    match key
    case OnDate(d) => a.date == d
    case Like(b) => a.date == b.date && Name(a.variant) == Name(b.variant)
  }

  /** Against an appointment, equality means the same date and the same class; against a date, the class is
      ignored, so a same-date appointment of another class matches the date but not the appointment. */
  lemma AppointmentEqualsMeaning(a: Appointment, b: Appointment)
    ensures AppointmentEquals(a, Like(b)) <==> a.date == b.date && a.variant == b.variant
    ensures AppointmentEquals(a, Like(b)) ==> AppointmentEquals(a, OnDate(b.date))
    ensures a.date == b.date && a.variant != b.variant ==> AppointmentEquals(a, OnDate(b.date)) && !AppointmentEquals(a, Like(b))
  {
    if Name(a.variant) == Name(b.variant) {
      assert VariantNamed(Name(a.variant)) == Some(a.variant);
      assert VariantNamed(Name(b.variant)) == Some(b.variant);
    }
  }

  // ---------------------------------------------------------------- construction

  /** `datetime.strptime(r[k], DATE_FORMAT).date()`. */
  function DateField(r: Record, k: string): Result<ValidDate>
  {
    if k !in r then Err(KeyError(k))
    else match r[k]
      case VStr(s) => (match Parse(s) case Some(d) => Ok(d) case None => Err(ValueError))
      case _ => Err(TypeError)
  }

  /** `Patient(record)` (core.py:25-30): reads mrn, first, last, birthday and sex in that order and starts
      with no appointments. */
  function PatientFromRecord(r: Record): Result<Patient>
  {
    if "mrn" !in r then Err(KeyError("mrn"))
    else if "first" !in r then Err(KeyError("first"))
    else if "last" !in r then Err(KeyError("last"))
    else
      var b :- DateField(r, "birthday");
      if "sex" !in r then Err(KeyError("sex"))
      else Ok(Patient(r["mrn"], r["first"], r["last"], b, r["sex"], []))
  }

  /** A patient is built exactly when the record has the five patient keys and a parsable birthday; it holds
      those values unchanged and no appointments. */
  lemma PatientFromRecordMeaning(r: Record)
    ensures var res := PatientFromRecord(r);
      (res.Ok? <==> PatientKeys <= r.Keys && DateField(r, "birthday").Ok?)
      && (res.Ok? ==> res.value.appointments == [] && res.value.birthday == DateField(r, "birthday").value)
      && (res.Ok? ==> res.value.mrn == r["mrn"] && res.value.first == r["first"] && res.value.last == r["last"] && res.value.sex == r["sex"])
  {
  }

  /** The discriminator value, if it names one of the four classes; ValueError otherwise (perio.py:49). */
  function VariantOf(v: Value): Result<Variant>
  {
    match v
    case VStr(s) => (match VariantNamed(s) case Some(x) => Ok(x) case None => Err(ValueError))
    case _ => Err(ValueError)
  }

  /** The discriminator dispatch followed by the class's `__init__`. */
  function AppointmentFromRecord(l: Layout, r: Record): Result<Appointment>
  {
    var key := TypeKey(l);
    if key !in r then Err(KeyError(key))
    else
      var v :- VariantOf(r[key]);
      var d :- DateField(r, "date");
      Ok(Appointment(v, d, Get(r, "asa"), Get(r, "note"), map k | k in FieldNames(v) :: Get(r, k)))
  }

  /** An appointment is built exactly when the discriminator names a class and `date` parses; it has exactly its
      class's fields, and asa, note and every field are copied with `.get`, so an absent key becomes None rather
      than the `'No ASA number.'` default of `_Appointment.__init__`. A missing discriminator raises KeyError, an
      unknown one ValueError. */
  lemma AppointmentFromRecordMeaning(l: Layout, r: Record)
    ensures var res := AppointmentFromRecord(l, r);
      (res.Ok? <==> TypeKey(l) in r && VariantOf(r[TypeKey(l)]).Ok? && DateField(r, "date").Ok?)
      && (TypeKey(l) !in r ==> res == Err(KeyError(TypeKey(l))))
      && (TypeKey(l) in r && VariantOf(r[TypeKey(l)]).Err? ==> res == Err(ValueError))
      && (res.Ok? ==> WellFormed(res.value) && r[TypeKey(l)] == VStr(Name(res.value.variant)))
      && (res.Ok? ==> res.value.date == DateField(r, "date").value)
      && (res.Ok? ==> res.value.asa == Get(r, "asa") && res.value.note == Get(r, "note"))
      && (res.Ok? ==> forall k :: k in res.value.fields ==> res.value.fields[k] == Get(r, k))
  {
    var res := AppointmentFromRecord(l, r);
    if res.Ok? {
      assert VariantNamed(Name(res.value.variant)) == Some(res.value.variant);
    }
  }

  // ---------------------------------------------------------------- flat records

  /** `Patient.to_dict()`: mrn, first, last and sex unchanged, birthday as `YYYYMMDD`, no appointments. */
  function PatientToDict(p: Patient): Record
  {
    map["mrn" := p.mrn, "first" := p.first, "last" := p.last, "birthday" := VStr(Format(p.birthday)), "sex" := p.sex]
  }

  /** An appointment's `to_dict()`: the discriminator holding the class name, the date as `YYYYMMDD`, asa, note
      and the class's fields; perio-recorder.py builds the same dict explicitly, keyed `type`. */
  function ToDict(l: Layout, a: Appointment): Record
  {
    a.fields[TypeKey(l) := VStr(Name(a.variant))]["date" := VStr(Format(a.date))]["asa" := a.asa]["note" := a.note]
  }

  /** `to_stats_dict()`, built field by field as perio-recorder.py does: the discriminator, the date and the fields. */
  function ToStatsDict(l: Layout, a: Appointment): Record
  {
    a.fields[TypeKey(l) := VStr(Name(a.variant))]["date" := VStr(Format(a.date))]
  }

  /** The keys the flat records use besides the procedure fields. */
  const ReservedKeys: set<string> := PatientKeys + {"date", "asa", "note", "_type", "type"}

  /** No class has a procedure field named like a patient key, `date`, `asa`, `note` or a discriminator, so
      merging records never lets a field overwrite one of those. */
  lemma FieldNamesReserved(v: Variant)
    ensures FieldNames(v) !! ReservedKeys
  {
    match v
    case PeriodicExam =>
    case LimitedExam => LimitedFieldsUnreserved();
    case ComprehensiveExam => ComprehensiveFieldsUnreserved();
    case Surgery => SurgeryFieldsUnreserved();
  }

  lemma LimitedFieldsUnreserved()
    ensures FieldNames(LimitedExam) !! ReservedKeys
  {
  }

  lemma ComprehensiveFieldsUnreserved()
    ensures FieldNames(ComprehensiveExam) !! ReservedKeys
  {
  }

  lemma SurgeryFieldsUnreserved()
    ensures FieldNames(Surgery) !! ReservedKeys
  {
  }

  lemma ToDictOfUnreserved(l: Layout, a: Appointment)
    requires a.fields.Keys !! ReservedKeys
    ensures ToDict(l, a).Keys == {TypeKey(l), "date", "asa", "note"} + a.fields.Keys
    ensures ToDict(l, a)[TypeKey(l)] == VStr(Name(a.variant)) && ToDict(l, a)["date"] == VStr(Format(a.date))
    ensures ToDict(l, a)["asa"] == a.asa && ToDict(l, a)["note"] == a.note
    ensures forall k :: k in a.fields ==> ToDict(l, a)[k] == a.fields[k]
    ensures forall k :: k in PatientKeys ==> k !in ToDict(l, a)
  {
    assert TypeKey(l) in ReservedKeys;
  }

  /** `to_dict` has exactly the discriminator (the class name), `date` (as `YYYYMMDD`), `asa`, `note` and the
      class's fields, and no patient key. */
  lemma ToDictShape(l: Layout, a: Appointment)
    requires WellFormed(a)
    ensures ToDict(l, a).Keys == {TypeKey(l), "date", "asa", "note"} + FieldNames(a.variant)
    ensures ToDict(l, a)[TypeKey(l)] == VStr(Name(a.variant)) && ToDict(l, a)["date"] == VStr(Format(a.date))
    ensures ToDict(l, a)["asa"] == a.asa && ToDict(l, a)["note"] == a.note
    ensures forall k :: k in FieldNames(a.variant) ==> ToDict(l, a)[k] == a.fields[k]
    ensures forall k :: k in PatientKeys ==> k !in ToDict(l, a)
  {
    FieldNamesReserved(a.variant);
    ToDictOfUnreserved(l, a);
  }

  /** `to_stats_dict` is `to_dict` with exactly `note` and `asa` popped (core.py:178-184 and its copies). */
  lemma StatsDictIsDictWithoutAsaNote(l: Layout, a: Appointment)
    requires WellFormed(a)
    ensures ToStatsDict(l, a) == ToDict(l, a) - {"asa", "note"}
  {
    FieldNamesReserved(a.variant);
    StatsDictOfUnreserved(l, a);
  }

  lemma StatsDictOfUnreserved(l: Layout, a: Appointment)
    requires a.fields.Keys !! ReservedKeys
    ensures ToStatsDict(l, a) == ToDict(l, a) - {"asa", "note"}
  {
    assert TypeKey(l) in ReservedKeys;
    var s, t := ToStatsDict(l, a), ToDict(l, a) - {"asa", "note"};
    assert s.Keys == t.Keys;
    forall k | k in s ensures s[k] == t[k] { }
  }

  /** Rebuilding an appointment from its flat record, merged over any other record (as in a saved row), gives
      back the appointment. */
  lemma AppointmentRoundTrip(l: Layout, base: Record, a: Appointment)
    requires WellFormed(a)
    ensures AppointmentFromRecord(l, base + ToDict(l, a)) == Ok(a)
  {
    FieldNamesReserved(a.variant);
    var r := base + ToDict(l, a);
    MergedParts(l, base, a);
    MergedFields(r, a.fields, FieldNames(a.variant));
  }

  lemma MergedParts(l: Layout, base: Record, a: Appointment)
    requires a.fields.Keys !! ReservedKeys
    ensures var r := base + ToDict(l, a);
      TypeKey(l) in r && VariantOf(r[TypeKey(l)]) == Ok(a.variant) && DateField(r, "date") == Ok(a.date)
      && Get(r, "asa") == a.asa && Get(r, "note") == a.note
      && forall k :: k in a.fields ==> k in r && r[k] == a.fields[k]
  {
    ToDictOfUnreserved(l, a);
    assert VariantNamed(Name(a.variant)) == Some(a.variant);
    ParseFormat(a.date);
  }

  /** Reading the keys of `fields` back out of a record that agrees with it on them gives `fields`. */
  lemma MergedFields(r: Record, fields: map<string, Value>, names: set<string>)
    requires fields.Keys == names
    requires forall k :: k in fields ==> k in r && r[k] == fields[k]
    ensures (map k | k in names :: Get(r, k)) == fields
  {
  }

  /** Rebuilding a patient from its flat record merged with an appointment's gives back the patient, without
      its appointments. */
  lemma PatientRoundTrip(l: Layout, p: Patient, a: Appointment)
    requires WellFormed(a)
    ensures PatientFromRecord(PatientToDict(p) + ToDict(l, a)) == Ok(p.(appointments := []))
  {
    FieldNamesReserved(a.variant);
    ToDictOfUnreserved(l, a);
    PatientOver(PatientToDict(p) + ToDict(l, a), p, ToDict(l, a));
  }

  /** `Patient.to_dict` has exactly the five patient keys, and the patient built from it is the patient without
      its appointments, whose list `to_dict` leaves out. */
  lemma PatientToDictMeaning(p: Patient)
    ensures PatientToDict(p).Keys == PatientKeys && "appointments" !in PatientToDict(p)
    ensures PatientToDict(p)["birthday"] == VStr(Format(p.birthday))
    ensures PatientFromRecord(PatientToDict(p)) == Ok(p.(appointments := []))
  {
    assert PatientToDict(p) + map[] == PatientToDict(p);
    PatientOver(PatientToDict(p), p, map[]);
  }

  lemma PatientOver(r: Record, p: Patient, t: Record)
    requires r == PatientToDict(p) + t
    requires forall k :: k in PatientKeys ==> k !in t
    ensures PatientFromRecord(r) == Ok(p.(appointments := []))
  {
    ParseFormat(p.birthday);
    assert r["birthday"] == VStr(Format(p.birthday));
    assert DateField(r, "birthday") == Ok(p.birthday);
  }

  // ---------------------------------------------------------------- as written: to_dict aliases __dict__

  /** A value in an appointment object's `__dict__`: a date object, or a plain scalar. */
  datatype Attr = DateAttr(date: ValidDate) | PlainAttr(value: Value)

  /** The `__dict__` an appointment object has after `__init__`. */
  function InitialAttrs(a: Appointment): map<string, Attr>
  {
    (map k | k in a.fields :: PlainAttr(a.fields[k]))["date" := DateAttr(a.date)]["asa" := PlainAttr(a.asa)]["note" := PlainAttr(a.note)]
  }

  /** What `_Appointment.to_dict` (core.py:113-115) leaves in `self.__dict__`: `date` overwritten by its text and
      `_type` added; when `date` is no longer a date object, `strftime` raises AttributeError. */
  function AliasedToDict(attrs: map<string, Attr>, v: Variant): Result<map<string, Attr>>
  {
    if "date" in attrs && attrs["date"].DateAttr? then
      Ok(attrs["date" := PlainAttr(VStr(Format(attrs["date"].date)))]["_type" := PlainAttr(VStr(Name(v)))])
    else Err(AttributeError)
  }

  /** What `__init__` leaves and `to_dict` keeps: every attribute other than `date` is a plain scalar. */
  predicate ScalarsBesideDate(attrs: map<string, Attr>)
  {
    forall k :: k in attrs && k != "date" ==> attrs[k].PlainAttr?
  }

  /** `copy.copy` of a `__dict__` all of whose values are plain scalars. */
  function Copied(attrs: map<string, Attr>): Record
    requires forall k :: k in attrs ==> attrs[k].PlainAttr?
  {
    map k | k in attrs :: attrs[k].value
  }

  /** An appointment object of core.py, whose `to_dict` writes into its own attributes. */
  class AppointmentObject {
    const variant: Variant
    var attrs: map<string, Attr>

    constructor (a: Appointment)
      ensures variant == a.variant && attrs == InitialAttrs(a) && ScalarsBesideDate(attrs)
    {
      variant := a.variant;
      attrs := InitialAttrs(a);
    }

    /** `self == date`: compares the `date` attribute, which must still be a date object to match. */
    predicate EqualsDate(d: Date)
      reads this
    {
      "date" in attrs && attrs["date"].DateAttr? && attrs["date"].date == d
    }

    /** A subclass's `to_dict()` as written: `record = self.__dict__` is mutated, then a copy of it returned. */
    method ToDict() returns (r: Result<Record>)
      requires ScalarsBesideDate(attrs)
      modifies this
      ensures ScalarsBesideDate(attrs)
      ensures AliasedToDict(old(attrs), variant).Err? ==> attrs == old(attrs) && r == Err(AttributeError)
      ensures AliasedToDict(old(attrs), variant).Ok? ==> attrs == AliasedToDict(old(attrs), variant).value
      ensures AliasedToDict(old(attrs), variant).Ok? ==>
        (forall k :: k in attrs ==> attrs[k].PlainAttr?) && r == Ok(Copied(attrs))
    {
      if "date" in attrs && attrs["date"].DateAttr? {
        attrs := attrs["date" := PlainAttr(VStr(Format(attrs["date"].date)))];
        attrs := attrs["_type" := PlainAttr(VStr(Name(variant)))];
        r := Ok(Copied(attrs));
      } else {
        r := Err(AttributeError);
      }
    }
  }

  /** The defect, on one object: the first `to_dict` returns the intended record, but afterwards the object no
      longer equals its own date (so `delete_apt` and `tally_stats` stop seeing it) and a second `to_dict` raises. */
  method AliasedToDictTwice(a: Appointment) returns (first: Result<Record>, matchesAfter: bool, second: Result<Record>)
    requires WellFormed(a)
    ensures first == Ok(ToDict(UnderscoreType, a))
    ensures !matchesAfter
    ensures second == Err(AttributeError)
  {
    var o := new AppointmentObject(a);
    AliasedFirstCallRecord(a);
    first := o.ToDict();
    matchesAfter := o.EqualsDate(a.date);
    second := o.ToDict();
  }

  /** The record the first aliased call returns is the intended one: `ToDict` with key `_type`. */
  lemma AliasedFirstCallRecord(a: Appointment)
    requires WellFormed(a)
    ensures AliasedToDict(InitialAttrs(a), a.variant).Ok?
    ensures var after := AliasedToDict(InitialAttrs(a), a.variant).value;
      (forall k :: k in after ==> after[k].PlainAttr?) && Copied(after) == ToDict(UnderscoreType, a)
  {
    FieldNamesReserved(a.variant);
    AliasedOfUnreserved(a);
  }

  lemma AliasedOfUnreserved(a: Appointment)
    requires a.fields.Keys !! ReservedKeys
    ensures AliasedToDict(InitialAttrs(a), a.variant).Ok?
    ensures var after := AliasedToDict(InitialAttrs(a), a.variant).value;
      (forall k :: k in after ==> after[k].PlainAttr?) && Copied(after) == ToDict(UnderscoreType, a)
  {
    var after := AliasedToDict(InitialAttrs(a), a.variant).value;
    AliasedAttrs(a);
    var c, t := Copied(after), ToDict(UnderscoreType, a);
    ToDictOfUnreserved(UnderscoreType, a);
    assert c.Keys == t.Keys;
    forall k | k in c ensures c[k] == t[k] {
      if k in a.fields { assert after[k] == PlainAttr(a.fields[k]); }
    }
  }

  lemma AliasedAttrs(a: Appointment)
    requires a.fields.Keys !! ReservedKeys
    ensures AliasedToDict(InitialAttrs(a), a.variant).Ok?
    ensures var after := AliasedToDict(InitialAttrs(a), a.variant).value;
      after.Keys == a.fields.Keys + {"date", "asa", "note", "_type"}
      && after["date"] == PlainAttr(VStr(Format(a.date))) && after["_type"] == PlainAttr(VStr(Name(a.variant)))
      && after["asa"] == PlainAttr(a.asa) && after["note"] == PlainAttr(a.note)
      && forall k :: k in a.fields ==> after[k] == PlainAttr(a.fields[k])
  {
    var init := InitialAttrs(a);
    assert init["date"] == DateAttr(a.date);
  }

  // ---------------------------------------------------------------- as written: perio-recorder.py LimitedExam stats

  /** perio-recorder.py's `to_stats_dict` as written: `LimitedExam`'s omits `miscellaneous` (perio-recorder.py:232-249). */
  function RecorderStatsAsWritten(a: Appointment): Record
  {
    if a.variant == LimitedExam then ToStatsDict(PlainType, a) - {"miscellaneous"} else ToStatsDict(PlainType, a)
  }

  /** For a LimitedExam the as-written stats record is not `to_dict` minus `asa` and `note`: a recorded
      `miscellaneous` is lost, although `to_dict` carries it. */
  lemma RecorderLimitedStatsDropsMiscellaneous(a: Appointment)
    requires WellFormed(a) && a.variant == LimitedExam
    ensures "miscellaneous" in ToDict(PlainType, a) - {"asa", "note"}
    ensures "miscellaneous" !in RecorderStatsAsWritten(a)
    ensures RecorderStatsAsWritten(a) != ToDict(PlainType, a) - {"asa", "note"}
  {
    FieldNamesReserved(a.variant);
    assert "miscellaneous" !in ReservedKeys;
  }
}
