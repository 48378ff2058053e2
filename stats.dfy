/** `tally_stats` (application.py, perio.py, perio-recorder.py): the appointments inside a date window, folded
    into four per-class counters. */
module Stats {
  import opened Values
  import opened Text
  import opened Dates
  import opened Core
  import opened Lists

  // ---------------------------------------------------------------- the date window

  /** A `date_1` / `date_2` argument: absent (None), an int, a str or a date object. */
  datatype Bound = Missing | IntBound(i: int) | TextBound(s: string) | DateBound(d: ValidDate)

  /** Python truthiness of a bound: None, 0 and '' are false. */
  predicate Truthy(b: Bound)
  {
    match b
    case Missing => false
    case IntBound(i) => i != 0
    case TextBound(s) => s != []
    case DateBound(_) => true
  }

  /** An int becomes its decimal text, a text is parsed as `YYYYMMDD` (ValueError otherwise), a date is kept. */
  function BoundDate(b: Bound): Result<ValidDate>
    requires Truthy(b)
  {
    match b
    case IntBound(i) => (match Parse(IntToString(i)) case Some(d) => Ok(d) case None => Err(ValueError))
    case TextBound(s) => (match Parse(s) case Some(d) => Ok(d) case None => Err(ValueError))
    case DateBound(d) => Ok(d)
  }

  /** Which appointments `tally_stats` keeps. */
  datatype Window = All | Between(lo: ValidDate, hi: ValidDate)

  /** Both bounds given: a window strict on both ends; otherwise every appointment. */
  function WindowOf(b1: Bound, b2: Bound): (r: Result<Window>)
    ensures !(Truthy(b1) && Truthy(b2)) ==> r == Ok(All)
    ensures Truthy(b1) && Truthy(b2) && BoundDate(b1).Ok? && BoundDate(b2).Ok? ==>
      r == Ok(Between(BoundDate(b1).value, BoundDate(b2).value))
    ensures Truthy(b1) && Truthy(b2) && (BoundDate(b1).Err? || BoundDate(b2).Err?) ==> r == Err(ValueError)
  {
    if Truthy(b1) && Truthy(b2) then
      var lo :- BoundDate(b1);
      var hi :- BoundDate(b2);
      Ok(Between(lo, hi))
    else Ok(All)
  }

  /** A bound may be given as a date, as its `YYYYMMDD` text or as the int with that text: all three give the same
      window. */
  lemma WindowForms(d1: ValidDate, d2: ValidDate, i1: int, i2: int)
    requires IntToString(i1) == Format(d1) && IntToString(i2) == Format(d2)
    ensures WindowOf(TextBound(Format(d1)), TextBound(Format(d2))) == Ok(Between(d1, d2))
    ensures WindowOf(IntBound(i1), IntBound(i2)) == Ok(Between(d1, d2))
    ensures WindowOf(DateBound(d1), DateBound(d2)) == Ok(Between(d1, d2))
  {
    ParseFormat(d1);
    ParseFormat(d2);
  }

  /** `date_1 < appointment.date < date_2`. */
  predicate InWindow(w: Window, d: ValidDate)
  {
    match w
    case All => true
    case Between(lo, hi) => Before(lo, d) && Before(d, hi)
  }

  /** The kept appointments of one patient, in order. */
  function KeptOf(apts: seq<Appointment>, w: Window): seq<Appointment>
  {
    if apts == [] then []
    else KeptOf(apts[..|apts| - 1], w) + (if InWindow(w, apts[|apts| - 1].date) then [apts[|apts| - 1]] else [])
  }

  /** The kept appointments of all patients, patient by patient. */
  function Kept(ps: seq<Patient>, w: Window): seq<Appointment>
  {
    if ps == [] then [] else Kept(ps[..|ps| - 1], w) + KeptOf(ps[|ps| - 1].appointments, w)
  }

  /** Exactly the appointments strictly inside the window are kept, and with no window all of them. */
  lemma {:induction false} KeptOfMeaning(apts: seq<Appointment>, w: Window)
    ensures forall a :: a in KeptOf(apts, w) <==> a in apts && InWindow(w, a.date)
    ensures w == All ==> KeptOf(apts, w) == apts
  {
    if apts != [] {
      var init := apts[..|apts| - 1];
      KeptOfMeaning(init, w);
      assert apts == init + [apts[|apts| - 1]];
    }
  }

  /** The stats records `tally_stats` collects. */
  function StatsRows(l: Layout, apts: seq<Appointment>): (rows: seq<Record>)
    ensures |rows| == |apts|
  {
    if apts == [] then [] else StatsRows(l, apts[..|apts| - 1]) + [ToStatsDict(l, apts[|apts| - 1])]
  }

  // ---------------------------------------------------------------- the counters

  /** One counter dict of `tally_stats`. */
  type Counter = map<string, nat>

  function Count(b: Counter, k: string): nat
  {
    if k in b then b[k] else 0
  }

  /** The bucket of each class in the returned list `[periodic, limited, comprehensive, surgery]`. */
  function Index(v: Variant): nat
  {
    match v
    case PeriodicExam => 0
    case LimitedExam => 1
    case ComprehensiveExam => 2
    case Surgery => 3
  }

  /** The four counters before any appointment: each holds its class name at 0. */
  function Initial(): seq<Counter>
  {
    [map["PeriodicExam" := 0], map["LimitedExam" := 0], map["ComprehensiveExam" := 0], map["Surgery" := 0]]
  }

  /** The keys of a stats record that the inner loop bumps in bucket b: those whose value is not None, except
      the discriminator when it is not already a key of b (`if k in bucket: ... elif k != '_type': ...`). */
  function Touched(b: Counter, row: Record, tk: string, done: set<string>): set<string>
  {
    set k | k in done && k in row && row[k] != VNull && (k in b || k != tk)
  }

  /** The bucket after the inner loop has visited the keys in `done`. */
  function AbsorbedKeys(b: Counter, row: Record, tk: string, done: set<string>): Counter
  {
    var t := Touched(b, row, tk, done);
    map k | k in b.Keys + t :: Count(b, k) + (if k in t then 1 else 0)
  }

  /** The bucket after the inner loop over all the record's keys. */
  function Absorbed(b: Counter, row: Record, tk: string): Counter
  {
    AbsorbedKeys(b, row, tk, row.Keys)
  }

  /** One stats record folded into the four counters: its class's counter counts one more appointment and one more
      for each key it bumps; a record whose discriminator names no class changes nothing. */
  function TallyRow(t: seq<Counter>, row: Record, tk: string): (r: Result<seq<Counter>>)
    requires |t| == 4
    ensures r.Ok? ==> |r.value| == 4
  {
    if tk !in row then Err(KeyError(tk))
    else match VariantOf(row[tk])
      case Err(_) => Ok(t)
      case Ok(v) =>
        Ok(t[Index(v) := Absorbed(Bumped(t, v), row, tk)])
  }

  /** The fold of `for apt in apts:` over the collected stats records. */
  function Tally(rows: seq<Record>, tk: string): (r: Result<seq<Counter>>)
    ensures r.Ok? ==> |r.value| == 4
  {
    if rows == [] then Ok(Initial())
    else
      var t :- Tally(rows[..|rows| - 1], tk);
      TallyRow(t, rows[|rows| - 1], tk)
  }

  /** `tally_stats(date_1, date_2)`: collect the stats records inside the window, then tally them. */
  function TallyStats(l: Layout, ps: seq<Patient>, b1: Bound, b2: Bound): Result<seq<Counter>>
  {
    var w :- WindowOf(b1, b2);
    Tally(StatsRows(l, Kept(ps, w)), TypeKey(l))
  }

  // ---------------------------------------------------------------- what the counters mean

  /** The keys of a stats record that count: those whose value is not None, the discriminator aside. */
  function Counted(row: Record, tk: string): set<string>
  {
    set k | k in row && row[k] != VNull && k != tk
  }

  /** What an appointment recorded: its date and every procedure whose value is not None. */
  function Recorded(a: Appointment): set<string>
  {
    {"date"} + set k | k in a.fields && a.fields[k] != VNull
  }

  /** The keys a stats record counts are what its appointment recorded. */
  lemma CountedIsRecorded(l: Layout, a: Appointment)
    requires WellFormed(a)
    ensures Counted(ToStatsDict(l, a), TypeKey(l)) == Recorded(a)
  {
    FieldNamesReserved(a.variant);
    assert TypeKey(l) in ReservedKeys && "date" in ReservedKeys;
    var row := ToStatsDict(l, a);
    forall k ensures k in Counted(row, TypeKey(l)) <==> k in Recorded(a) {
      if k == "date" {
      } else if k == TypeKey(l) {
        assert k !in a.fields;
      }
    }
  }

  /** How many of the appointments are of class v. */
  function CountVariant(apts: seq<Appointment>, v: Variant): nat
  {
    if apts == [] then 0
    else CountVariant(apts[..|apts| - 1], v) + (if apts[|apts| - 1].variant == v then 1 else 0)
  }

  /** How many of the appointments are of class v and recorded k. */
  function CountKey(apts: seq<Appointment>, v: Variant, k: string): nat
  {
    if apts == [] then 0
    else CountKey(apts[..|apts| - 1], v, k) + (if apts[|apts| - 1].variant == v && k in Recorded(apts[|apts| - 1]) then 1 else 0)
  }

  /** The counter of class v holds the number of its appointments under the class name and, under every other
      key, the number of its appointments that recorded that key; it has no other keys. */
  ghost predicate BucketMeans(b: Counter, apts: seq<Appointment>, v: Variant)
  {
    Name(v) in b && b[Name(v)] == CountVariant(apts, v)
    && forall k :: k != Name(v) ==> (k in b <==> CountKey(apts, v, k) > 0) && Count(b, k) == CountKey(apts, v, k)
  }

  /** No appointment records a key that is a class name or a discriminator. */
  lemma RecordedUnreserved(a: Appointment, v: Variant)
    requires WellFormed(a)
    ensures Name(v) !in Recorded(a) && "_type" !in Recorded(a) && "type" !in Recorded(a)
  {
    FieldNamesReserved(a.variant);
    assert "_type" in ReservedKeys && "type" in ReservedKeys;
    NamesNotFields(a.variant, v);
  }

  lemma NamesNotFields(w: Variant, v: Variant)
    ensures Name(v) !in FieldNames(w)
  {
    match w
    case PeriodicExam =>
    case LimitedExam => LimitedFieldsNotNames(v);
    case ComprehensiveExam => ComprehensiveFieldsNotNames(v);
    case Surgery => SurgeryFieldsNotNames(v);
  }

  lemma LimitedFieldsNotNames(v: Variant)
    ensures Name(v) !in FieldNames(LimitedExam)
  {
  }

  lemma ComprehensiveFieldsNotNames(v: Variant)
    ensures Name(v) !in FieldNames(ComprehensiveExam)
  {
  }

  lemma SurgeryFieldsNotNames(v: Variant)
    ensures Name(v) !in FieldNames(Surgery)
  {
  }

  /** For the counter of the record's own class, the keys bumped are exactly the counted ones, each once. */
  lemma AbsorbedCounts(b: Counter, row: Record, tk: string)
    requires tk !in b
    ensures forall k :: Count(Absorbed(b, row, tk), k) == Count(b, k) + (if k in Counted(row, tk) then 1 else 0)
    ensures Absorbed(b, row, tk).Keys == b.Keys + Counted(row, tk)
  {
    assert Touched(b, row, tk, row.Keys) == Counted(row, tk);
  }

  lemma CountsSnoc(init: seq<Appointment>, a: Appointment, v: Variant)
    ensures CountVariant(init + [a], v) == CountVariant(init, v) + (if a.variant == v then 1 else 0)
    ensures forall k :: CountKey(init + [a], v, k) == CountKey(init, v, k) + (if a.variant == v && k in Recorded(a) then 1 else 0)
  {
    assert (init + [a])[..|init|] == init;
  }

  /** The counter of the record's own class after the record: one more appointment, and one more under each
      recorded key. */
  lemma OwnBucketStep(init: seq<Appointment>, a: Appointment, b: Counter, b': Counter, c: set<string>)
    requires c == Recorded(a) && Name(a.variant) !in c
    requires BucketMeans(b, init, a.variant)
    requires forall k :: Count(b', k) == Count(b, k) + (if k == Name(a.variant) then 1 else 0) + (if k in c then 1 else 0)
    requires b'.Keys == b.Keys + {Name(a.variant)} + c
    ensures BucketMeans(b', init + [a], a.variant)
  {
    CountsSnoc(init, a, a.variant);
  }

  /** The counters of the other classes do not change. */
  lemma OtherBucketStep(init: seq<Appointment>, a: Appointment, b: Counter, w: Variant)
    requires w != a.variant && BucketMeans(b, init, w)
    ensures BucketMeans(b, init + [a], w)
  {
    CountsSnoc(init, a, w);
  }

  /** The counters after the tally mean what the source intends: for each class, the number of kept
      appointments and, per key, the number of kept appointments that recorded it (`date` included, since it is
      never None). */
  lemma {:induction false} TallyMeaning(l: Layout, apts: seq<Appointment>)
    requires forall i :: 0 <= i < |apts| ==> WellFormed(apts[i])
    ensures Tally(StatsRows(l, apts), TypeKey(l)).Ok?
    ensures forall v :: BucketMeans(Tally(StatsRows(l, apts), TypeKey(l)).value[Index(v)], apts, v)
  {
    if apts == [] {
      forall v ensures BucketMeans(Initial()[Index(v)], apts, v) {
        match v
        case PeriodicExam =>
        case LimitedExam =>
        case ComprehensiveExam =>
        case Surgery =>
      }
    } else {
      var init, a := apts[..|apts| - 1], apts[|apts| - 1];
      TallyMeaning(l, init);
      TallySnoc(l, apts, TypeKey(l));
      TallyStep(l, init, a, Tally(StatsRows(l, init), TypeKey(l)).value);
      SnocLast(apts);
    }
  }

  /** The tally of a list is the tally of all but its last appointment, followed by the last one's record. */
  lemma TallySnoc(l: Layout, apts: seq<Appointment>, tk: string)
    requires apts != []
    ensures var r := Tally(StatsRows(l, apts[..|apts| - 1]), tk);
      Tally(StatsRows(l, apts), tk) == if r.Err? then r else TallyRow(r.value, ToStatsDict(l, apts[|apts| - 1]), tk)
  {
    var rows := StatsRows(l, apts);
    assert rows[..|rows| - 1] == StatsRows(l, apts[..|apts| - 1]);
  }

  lemma TallyStep(l: Layout, init: seq<Appointment>, a: Appointment, t: seq<Counter>)
    requires forall i :: 0 <= i < |init| ==> WellFormed(init[i])
    requires WellFormed(a) && |t| == 4
    requires forall v :: BucketMeans(t[Index(v)], init, v)
    ensures TallyRow(t, ToStatsDict(l, a), TypeKey(l)).Ok?
    ensures forall v :: BucketMeans(TallyRow(t, ToStatsDict(l, a), TypeKey(l)).value[Index(v)], init + [a], v)
  {
    var row := ToStatsDict(l, a);
    assert TypeKey(l) in row && row[TypeKey(l)] == VStr(Name(a.variant));
    CountedIsRecorded(l, a);
    RecordedUnreserved(a, a.variant);
    forall w ensures CountKey(init, w, TypeKey(l)) == 0 { TypeNeverRecorded(init, w, TypeKey(l)); }
    RowStep(init, a, t, row, TypeKey(l));
  }

  /** One record of class `a.variant` that counts exactly what `a` recorded. */
  lemma RowStep(init: seq<Appointment>, a: Appointment, t: seq<Counter>, row: Record, tk: string)
    requires |t| == 4 && (tk == "_type" || tk == "type")
    requires forall w :: CountKey(init, w, tk) == 0
    requires tk in row && row[tk] == VStr(Name(a.variant)) && Counted(row, tk) == Recorded(a)
    requires Name(a.variant) !in Recorded(a)
    requires forall v :: BucketMeans(t[Index(v)], init, v)
    ensures TallyRow(t, row, tk).Ok?
    ensures forall v :: BucketMeans(TallyRow(t, row, tk).value[Index(v)], init + [a], v)
  {
    var b' := OwnRowStep(init, a, t, row, tk);
    OtherBucketsStep(init, a, t, b');
  }

  /** The record goes into the counter of its own class, which then means the counts with `a` added. */
  lemma OwnRowStep(init: seq<Appointment>, a: Appointment, t: seq<Counter>, row: Record, tk: string) returns (b': Counter)
    requires |t| == 4 && (tk == "_type" || tk == "type")
    requires forall w :: CountKey(init, w, tk) == 0
    requires tk in row && row[tk] == VStr(Name(a.variant)) && Counted(row, tk) == Recorded(a)
    requires Name(a.variant) !in Recorded(a)
    requires BucketMeans(t[Index(a.variant)], init, a.variant)
    ensures TallyRow(t, row, tk) == Ok(t[Index(a.variant) := b'])
    ensures BucketMeans(b', init + [a], a.variant)
  {
    var v := a.variant;
    var b := t[Index(v)];
    assert tk !in b && tk != Name(v) by {
      assert CountKey(init, v, tk) == 0;
    }
    BumpThenAbsorb(b, Name(v), row, tk);
    b' := Absorbed(Bumped(t, v), row, tk);
    TallyRowOfClass(t, row, tk, v);
    OwnBucketStep(init, a, b, b', Recorded(a));
  }

  /** Counting the class name, then the record's counted keys, adds one to each. */
  lemma BumpThenAbsorb(b: Counter, n: string, row: Record, tk: string)
    requires tk !in b && tk != n
    ensures var b' := Absorbed(b[n := Count(b, n) + 1], row, tk);
      (forall k :: Count(b', k) == Count(b, k) + (if k == n then 1 else 0) + (if k in Counted(row, tk) then 1 else 0))
      && b'.Keys == b.Keys + {n} + Counted(row, tk)
  {
    AbsorbedCounts(b[n := Count(b, n) + 1], row, tk);
  }

  /** A record whose discriminator names class v is folded into v's counter. */
  lemma TallyRowOfClass(t: seq<Counter>, row: Record, tk: string, v: Variant)
    requires |t| == 4 && tk in row && row[tk] == VStr(Name(v))
    ensures TallyRow(t, row, tk) == Ok(t[Index(v) := Absorbed(Bumped(t, v), row, tk)])
  {
    assert VariantNamed(Name(v)) == Some(v);
  }

  lemma OtherBucketsStep(init: seq<Appointment>, a: Appointment, t: seq<Counter>, b': Counter)
    requires |t| == 4 && BucketMeans(b', init + [a], a.variant)
    requires forall v :: BucketMeans(t[Index(v)], init, v)
    ensures forall v :: BucketMeans(t[Index(a.variant) := b'][Index(v)], init + [a], v)
  {
    forall w | w != a.variant ensures BucketMeans(t[Index(a.variant) := b'][Index(w)], init + [a], w) {
      assert Index(w) != Index(a.variant);
      OtherBucketStep(init, a, t[Index(w)], w);
    }
  }

  /** The discriminator itself is never counted. */
  lemma {:induction false} TypeNeverRecorded(apts: seq<Appointment>, v: Variant, tk: string)
    requires forall i :: 0 <= i < |apts| ==> WellFormed(apts[i])
    requires tk == "_type" || tk == "type"
    ensures CountKey(apts, v, tk) == 0
  {
    if apts != [] {
      RecordedUnreserved(apts[|apts| - 1], v);
      TypeNeverRecorded(apts[..|apts| - 1], v, tk);
    }
  }

  // ---------------------------------------------------------------- the loops

  lemma {:induction false} StatsRowsAppend(l: Layout, xs: seq<Appointment>, ys: seq<Appointment>)
    ensures StatsRows(l, xs + ys) == StatsRows(l, xs) + StatsRows(l, ys)
    decreases |ys|
  {
    if ys == [] {
      assert xs + ys == xs;
    } else {
      var init := ys[..|ys| - 1];
      AppendInit(xs, ys);
      StatsRowsAppend(l, xs, init);
      SnocAssoc(StatsRows(l, xs), StatsRows(l, init), ToStatsDict(l, ys[|ys| - 1]));
    }
  }

  /** The collecting loops of `tally_stats`: every appointment of every patient, in order, that lies in the window,
      as its stats record. */
  method CollectStats(l: Layout, ps: seq<Patient>, w: Window) returns (rows: seq<Record>)
    ensures rows == StatsRows(l, Kept(ps, w))
  {
    rows := [];
    var i := 0;
    while i < |ps|
      invariant 0 <= i <= |ps|
      invariant rows == StatsRows(l, Kept(ps[..i], w))
    {
      var more := CollectOf(l, ps[i].appointments, w);
      StatsRowsAppend(l, Kept(ps[..i], w), KeptOf(ps[i].appointments, w));
      rows := rows + more;
      assert ps[..i + 1][..i] == ps[..i];
      i := i + 1;
    }
    assert ps[..i] == ps;
  }

  /** The inner collecting loop, over one patient's appointments. */
  method CollectOf(l: Layout, apts: seq<Appointment>, w: Window) returns (rows: seq<Record>)
    ensures rows == StatsRows(l, KeptOf(apts, w))
  {
    rows := [];
    var j := 0;
    while j < |apts|
      invariant 0 <= j <= |apts|
      invariant rows == StatsRows(l, KeptOf(apts[..j], w))
    {
      KeptOfSnoc(apts, j, w);
      if InWindow(w, apts[j].date) {
        StatsRowsSnoc(l, KeptOf(apts[..j], w), apts[j]);
        rows := rows + [ToStatsDict(l, apts[j])];
      }
      j := j + 1;
    }
    assert apts[..j] == apts;
  }

  /** One more appointment is kept exactly when it lies in the window. */
  lemma KeptOfSnoc(apts: seq<Appointment>, j: nat, w: Window)
    requires j < |apts|
    ensures InWindow(w, apts[j].date) ==> KeptOf(apts[..j + 1], w) == KeptOf(apts[..j], w) + [apts[j]]
    ensures !InWindow(w, apts[j].date) ==> KeptOf(apts[..j + 1], w) == KeptOf(apts[..j], w)
  {
    TakeSnoc(apts, j + 1);
    var kept := KeptOf(apts[..j], w);
    assert kept + [] == kept;
  }

  /** One more kept appointment adds its stats record at the end. */
  lemma StatsRowsSnoc(l: Layout, kept: seq<Appointment>, a: Appointment)
    ensures StatsRows(l, kept + [a]) == StatsRows(l, kept) + [ToStatsDict(l, a)]
  {
    var s := kept + [a];
    assert s[..|s| - 1] == kept;
  }

  /** One item of the inner loop `for k, v in apt.items()`, for the record's own class. */
  function Bump(b: Counter, k: string, v: Value, tk: string): Counter
  {
    if v == VNull then b
    else if k in b then b[k := b[k] + 1]
    else if k != tk then b[k := 1]
    else b
  }

  /** The inner loop `for k, v in apt.items()` over one stats record, for the record's own class; the keys of a
      record are distinct, so the order it visits them in does not matter. */
  method AbsorbRow(b: Counter, row: Record, tk: string) returns (b': Counter)
    ensures b' == Absorbed(b, row, tk)
  {
    b' := b;
    var todo := row.Keys;
    ghost var done: set<string> := {};
    while todo != {}
      invariant todo !! done && todo + done == row.Keys
      invariant b' == AbsorbedKeys(b, row, tk, done)
      decreases |todo|
    {
      var k :| k in todo;
      AbsorbOneKey(b, row, tk, done, k);
      b' := Bump(b', k, row[k], tk);
      todo := todo - {k};
      done := done + {k};
    }
    assert done == row.Keys;
  }

  lemma AbsorbOneKey(b: Counter, row: Record, tk: string, done: set<string>, k: string)
    requires k in row && k !in done
    ensures AbsorbedKeys(b, row, tk, done + {k}) == Bump(AbsorbedKeys(b, row, tk, done), k, row[k], tk)
  {
    var c := AbsorbedKeys(b, row, tk, done);
    var t, t' := Touched(b, row, tk, done), Touched(b, row, tk, done + {k});
    assert k in c <==> k in b;
    if row[k] != VNull && (k in b || k != tk) {
      assert t' == t + {k};
    } else {
      assert t' == t;
    }
  }

  /** The outer loop `for apt in apts:` of `tally_stats`. */
  method CountBuckets(rows: seq<Record>, tk: string) returns (r: Result<seq<Counter>>)
    ensures r == Tally(rows, tk)
  {
    var t := Initial();
    var i := 0;
    while i < |rows|
      invariant 0 <= i <= |rows|
      invariant Tally(rows[..i], tk) == Ok(t)
    {
      var row := rows[i];
      assert rows[..i + 1][..i] == rows[..i] && rows[..i + 1][i] == row;
      if tk !in row {
        TallyStopsAt(rows, i, tk, KeyError(tk));
        return Err(KeyError(tk));
      }
      var v := VariantOf(row[tk]);
      if v.Ok? {
        var b := t[Index(v.value)];
        b := b[Name(v.value) := Count(b, Name(v.value)) + 1];
        b := AbsorbRow(b, row, tk);
        t := t[Index(v.value) := b];
      }
      i := i + 1;
    }
    assert rows[..i] == rows;
    return Ok(t);
  }

  /** A failing record ends the tally with its exception. */
  lemma {:induction false} TallyStopsAt(rows: seq<Record>, i: nat, tk: string, e: Failure)
    requires i < |rows| && Tally(rows[..i + 1], tk) == Err(e)
    ensures Tally(rows, tk) == Err(e)
    decreases |rows|
  {
    if |rows| > i + 1 {
      assert rows[..|rows| - 1][..i + 1] == rows[..i + 1];
      TallyStopsAt(rows[..|rows| - 1], i, tk, e);
    } else {
      assert rows[..i + 1] == rows;
    }
  }

  // ---------------------------------------------------------------- as written: `k in limited`

  /** The procedure attributes of each class in the order `__init__` assigns them, which is the order
      `apt.items()` lists them. */
  function FieldOrder(v: Variant): seq<string>
  {
    match v
    case PeriodicExam => []
    case LimitedExam =>
      ["abscess", "crown_lengthening", "cv_exam", "extraction", "frenectomy", "fracture", "implant", "oral_path",
       "periodontitis", "peri_implantitis", "postop", "return_", "recession", "re_evaluation", "miscellaneous"]
    case ComprehensiveExam =>
      ["periodontitis", "executive_health", "recession", "hygiene", "return_", "oncology", "implant", "oral_path"]
    case Surgery =>
      ["biopsy", "extractions", "uncovery", "implant", "crown_lengthening", "soft_tissue", "perio", "miscellaneous",
       "sinus", "peri_implantitis"]
  }

  /** A stats record as an ordered list of items: in core.py `date`, the fields, then `_type` (appended by
      `to_dict`); in perio-recorder.py `type`, `date`, then the fields. */
  function StatsItems(l: Layout, a: Appointment): seq<(string, Value)>
  {
    var fields := seq(|FieldOrder(a.variant)|, i requires 0 <= i < |FieldOrder(a.variant)| =>
      (FieldOrder(a.variant)[i], Get(a.fields, FieldOrder(a.variant)[i])));
    var date := ("date", VStr(Format(a.date)));
    var tag := (TypeKey(l), VStr(Name(a.variant)));
    match l
    case UnderscoreType => [date] + fields + [tag]
    case PlainType => [tag, date] + fields
  }

  /** One item as written: bucket b is tested with `k in test`, which is b itself for PeriodicExam and
      LimitedExam but the `limited` counter for ComprehensiveExam and Surgery; incrementing a key b lacks raises
      KeyError, and a key `test` lacks is (re)set to 1. */
  function BumpAsWritten(b: Counter, test: Counter, item: (string, Value), tk: string): Result<Counter>
  {
    var (k, v) := item;
    if v == VNull then Ok(b)
    else if k in test then (if k in b then Ok(b[k := b[k] + 1]) else Err(KeyError(k)))
    else if k != tk then Ok(b[k := 1])
    else Ok(b)
  }

  function ItemsAsWritten(b: Counter, isOwn: bool, test: Counter, items: seq<(string, Value)>, tk: string): Result<Counter>
    decreases |items|
  {
    if items == [] then Ok(b)
    else
      var b' :- BumpAsWritten(b, if isOwn then b else test, items[0], tk);
      ItemsAsWritten(b', isOwn, test, items[1..], tk)
  }

  /** The value under key k of an ordered item list. */
  function Lookup(items: seq<(string, Value)>, k: string): Option<Value>
  {
    if items == [] then None else if items[0].0 == k then Some(items[0].1) else Lookup(items[1..], k)
  }

  /** One stats record folded as application.py:293-336 (and perio.py:271-316, perio-recorder.py:694-737)
      write it. */
  function TallyRowAsWritten(t: seq<Counter>, items: seq<(string, Value)>, tk: string): (r: Result<seq<Counter>>)
    requires |t| == 4
    ensures r.Ok? ==> |r.value| == 4
  {
    match Lookup(items, tk)
    case None => Err(KeyError(tk))
    case Some(tag) =>
      match VariantOf(tag)
      case Err(_) => Ok(t)
      case Ok(v) =>
        var own := v == PeriodicExam || v == LimitedExam;
        var b' :- ItemsAsWritten(Bumped(t, v), own, t[1], items, tk);
        Ok(t[Index(v) := b'])
  }

  /** Bucket v after `stats[name] += 1` for its class name. */
  function Bumped(t: seq<Counter>, v: Variant): Counter
    requires |t| == 4
  {
    t[Index(v)][Name(v) := Count(t[Index(v)], Name(v)) + 1]
  }

  function TallyAsWritten(rows: seq<seq<(string, Value)>>, tk: string): (r: Result<seq<Counter>>)
    ensures r.Ok? ==> |r.value| == 4
  {
    if rows == [] then Ok(Initial())
    else
      var t :- TallyAsWritten(rows[..|rows| - 1], tk);
      TallyRowAsWritten(t, rows[|rows| - 1], tk)
  }

  /** An appointment of class v on 2021-01-01 with no procedure recorded. */
  function Sample(v: Variant): (a: Appointment)
    ensures WellFormed(a)
  {
    Appointment(v, Date(2021, 1, 1), VNull, VNull, map k | k in FieldNames(v) :: VNull)
  }

  lemma {:induction false} ItemsSkipNone(b: Counter, isOwn: bool, test: Counter, items: seq<(string, Value)>, tk: string)
    requires forall i :: 0 <= i < |items| ==> items[i].1 == VNull
    ensures ItemsAsWritten(b, isOwn, test, items, tk) == Ok(b)
    decreases |items|
  {
    if items != [] { ItemsSkipNone(b, isOwn, test, items[1..], tk); }
  }

  lemma {:induction false} LookupLast(xs: seq<(string, Value)>, k: string, v: Value)
    requires forall i :: 0 <= i < |xs| ==> xs[i].0 != k
    ensures Lookup(xs + [(k, v)], k) == Some(v)
    decreases |xs|
  {
    if xs == [] {
    } else {
      assert (xs + [(k, v)])[1..] == xs[1..] + [(k, v)];
      LookupLast(xs[1..], k, v);
    }
  }

  /** The items of a sample's stats record in core.py order: the date, the None procedures, then `_type`. */
  lemma SampleItems(v: Variant)
    ensures var items := StatsItems(UnderscoreType, Sample(v));
      |items| >= 2 && items[0].0 == "date" && items[0].1 != VNull
      && items[|items| - 1] == ("_type", VStr(Name(v)))
      && (forall i :: 1 <= i < |items| - 1 ==> items[i].1 == VNull && items[i].0 != "_type")
      && Lookup(items, "_type") == Some(VStr(Name(v)))
  {
    var items := StatsItems(UnderscoreType, Sample(v));
    var f := FieldOrder(v);
    FieldOrderNames(v);
    FieldNamesReserved(v);
    assert "_type" in ReservedKeys;
    var n := |items|;
    assert items[..n - 1] + [items[n - 1]] == items;
    LookupLast(items[..n - 1], "_type", VStr(Name(v)));
  }

  /** The item order lists exactly the procedure attributes. */
  lemma FieldOrderNames(v: Variant)
    ensures forall i :: 0 <= i < |FieldOrder(v)| ==> FieldOrder(v)[i] in FieldNames(v)
  {
  }

  /** A sample record with no procedure, folded as written into a bucket: only `date` is touched. */
  lemma SampleItemsAsWritten(b: Counter, isOwn: bool, test: Counter, v: Variant)
    requires "date" !in (if isOwn then b else test)
    requires "_type" !in (if isOwn then b["date" := 1] else test)
    ensures ItemsAsWritten(b, isOwn, test, StatsItems(UnderscoreType, Sample(v)), "_type") == Ok(b["date" := 1])
  {
    var items := StatsItems(UnderscoreType, Sample(v));
    SampleItems(v);
    var last := [items[|items| - 1]];
    var fields := items[1..|items| - 1];
    assert items[1..] == fields + last;
    ItemsSkipNone(b["date" := 1], isOwn, test, fields, "_type");
    ItemsAppend(b["date" := 1], isOwn, test, fields, last, "_type");
    assert last[1..] == [];
  }

  /** The defect, first case: two ComprehensiveExams make `date` counted once, because a key missing from
      `limited` is reset to 1 instead of incremented; the intended count is 2. */
  lemma ComprehensiveCountResets()
    ensures var items := StatsItems(UnderscoreType, Sample(ComprehensiveExam));
      var row := ToStatsDict(UnderscoreType, Sample(ComprehensiveExam));
      var written := TallyAsWritten([items, items], "_type");
      var intended := Tally([row, row], "_type");
      written.Ok? && Count(written.value[2], "date") == 1 && intended.Ok? && Count(intended.value[2], "date") == 2
  {
    var items := StatsItems(UnderscoreType, Sample(ComprehensiveExam));
    SampleItems(ComprehensiveExam);
    var t0 := Initial();
    var b1 := Bumped(t0, ComprehensiveExam);
    var t1 := t0[2 := b1["date" := 1]];
    SampleItemsAsWritten(b1, false, t0[1], ComprehensiveExam);
    RowAsWrittenOf(t0, items, ComprehensiveExam);
    var b2 := Bumped(t1, ComprehensiveExam);
    SampleItemsAsWritten(b2, false, t1[1], ComprehensiveExam);
    RowAsWrittenOf(t1, items, ComprehensiveExam);
    assert [items, items][..1] == [items] && [items][..0] == [];
    assert TallyAsWritten([items], "_type") == Ok(t1);
    TallyTwice(UnderscoreType, Sample(ComprehensiveExam));
  }

  /** The defect, second case: a LimitedExam followed by a ComprehensiveExam raises KeyError('date'), because
      `date` is in `limited` but not yet in `comprehensive`; the intended tally succeeds. */
  lemma LimitedThenComprehensiveFails()
    ensures var lim, comp := Sample(LimitedExam), Sample(ComprehensiveExam);
      TallyAsWritten([StatsItems(UnderscoreType, lim), StatsItems(UnderscoreType, comp)], "_type") == Err(KeyError("date"))
      && Tally([ToStatsDict(UnderscoreType, lim), ToStatsDict(UnderscoreType, comp)], "_type").Ok?
  {
    var lim, comp := Sample(LimitedExam), Sample(ComprehensiveExam);
    var li, ci := StatsItems(UnderscoreType, lim), StatsItems(UnderscoreType, comp);
    var t1 := LimitedFirst();
    assert [li, ci][..1] == [li];
    SampleItems(ComprehensiveExam);
    assert ItemsAsWritten(Bumped(t1, ComprehensiveExam), false, t1[1], ci, "_type") == Err(KeyError("date"));
    RowAsWrittenOf(t1, ci, ComprehensiveExam);
    TallyPair(UnderscoreType, lim, comp);
  }

  /** After one sample LimitedExam, `limited` has counted its date. */
  lemma LimitedFirst() returns (t1: seq<Counter>)
    ensures |t1| == 4 && TallyAsWritten([StatsItems(UnderscoreType, Sample(LimitedExam))], "_type") == Ok(t1)
    ensures "date" in t1[1] && t1[2] == map["ComprehensiveExam" := 0]
  {
    var li := StatsItems(UnderscoreType, Sample(LimitedExam));
    SampleItems(LimitedExam);
    var t0 := Initial();
    var b := Bumped(t0, LimitedExam);
    t1 := t0[1 := b["date" := 1]];
    SampleItemsAsWritten(b, true, t0[1], LimitedExam);
    RowAsWrittenOf(t0, li, LimitedExam);
    assert [li][..0] == [];
  }

  /** A record of class v folded as written into bucket Index(v), once its items are folded. */
  lemma RowAsWrittenOf(t: seq<Counter>, items: seq<(string, Value)>, v: Variant)
    requires |t| == 4 && Lookup(items, "_type") == Some(VStr(Name(v)))
    ensures var r := ItemsAsWritten(Bumped(t, v), v == PeriodicExam || v == LimitedExam, t[1], items, "_type");
      TallyRowAsWritten(t, items, "_type") == if r.Ok? then Ok(t[Index(v) := r.value]) else Err(r.error)
  {
    assert VariantNamed(Name(v)) == Some(v);
  }

  /** The stats records of two appointments. */
  lemma PairRows(l: Layout, a: Appointment, b: Appointment)
    ensures StatsRows(l, [a, b]) == [ToStatsDict(l, a), ToStatsDict(l, b)]
  {
    assert [a, b][..1] == [a] && [a][..0] == [];
  }

  /** The intended tally of two well-formed appointments succeeds. */
  lemma TallyPair(l: Layout, a: Appointment, b: Appointment)
    requires WellFormed(a) && WellFormed(b)
    ensures Tally([ToStatsDict(l, a), ToStatsDict(l, b)], TypeKey(l)).Ok?
  {
    PairRows(l, a, b);
    TallyMeaning(l, [a, b]);
  }

  /** Two records of the same appointment count its date twice. */
  lemma TallyTwice(l: Layout, a: Appointment)
    requires WellFormed(a)
    ensures var r := Tally([ToStatsDict(l, a), ToStatsDict(l, a)], TypeKey(l));
      r.Ok? && Count(r.value[Index(a.variant)], "date") == 2
  {
    PairRows(l, a, a);
    TallyMeaning(l, [a, a]);
    DateCountedTwice(a);
    RecordedUnreserved(a, a.variant);
  }

  lemma DateCountedTwice(a: Appointment)
    ensures CountKey([a, a], a.variant, "date") == 2
  {
    assert "date" in Recorded(a);
    assert [a][..0] == [];
    assert CountKey([a], a.variant, "date") == 1;
    assert [a, a][..1] == [a];
  }

  lemma {:induction false} ItemsAppend(b: Counter, isOwn: bool, test: Counter, xs: seq<(string, Value)>, ys: seq<(string, Value)>, tk: string)
    ensures ItemsAsWritten(b, isOwn, test, xs + ys, tk) ==
      (var r := ItemsAsWritten(b, isOwn, test, xs, tk); if r.Err? then r else ItemsAsWritten(r.value, isOwn, test, ys, tk))
    decreases |xs|
  {
    if xs == [] {
      assert xs + ys == ys;
    } else {
      assert (xs + ys)[0] == xs[0] && (xs + ys)[1..] == xs[1..] + ys;
      var r := BumpAsWritten(b, if isOwn then b else test, xs[0], tk);
      if r.Ok? { ItemsAppend(r.value, isOwn, test, xs[1..], ys, tk); }
    }
  }
}
