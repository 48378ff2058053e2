/** Calendar dates and their 8-digit `YYYYMMDD` text form (DATE_FORMAT '%Y%m%d'). */
module Dates {
  import opened Values
  import opened Text

  datatype Date = Date(year: int, month: int, day: int)

  predicate IsLeapYear(y: int)
  {
    y % 4 == 0 && (y % 100 != 0 || y % 400 == 0)
  }

  function DaysInMonth(y: int, m: int): int
    requires 1 <= m <= 12
  {
    if m == 2 then (if IsLeapYear(y) then 29 else 28)
    else if m == 4 || m == 6 || m == 9 || m == 11 then 30
    else 31
  }

  /** A date Python's `datetime.date` can hold: years 1 to 9999 of the proleptic Gregorian calendar. */
  predicate IsValid(d: Date)
  {
    1 <= d.year <= 9999 && 1 <= d.month <= 12 && 1 <= d.day <= DaysInMonth(d.year, d.month)
  }

  type ValidDate = d: Date | IsValid(d) witness Date(1, 1, 1)

  /** `a < b` on date objects: chronological order. */
  predicate Before(a: Date, b: Date)
  {
    a.year < b.year || (a.year == b.year && (a.month < b.month || (a.month == b.month && a.day < b.day)))
  }

  function Pad2(n: nat): (s: string)
    requires n < 100
    ensures |s| == 2 && AllDigits(s)
  {
    [DigitChar(n / 10), DigitChar(n % 10)]
  }

  function Pad4(n: nat): (s: string)
    requires n < 10000
    ensures |s| == 4 && AllDigits(s)
  {
    Pad2(n / 100) + Pad2(n % 100)
  }

  /** `d.strftime('%Y%m%d')`. */
  function Format(d: ValidDate): (s: string)
    ensures |s| == 8 && AllDigits(s)
  {
    Pad4(d.year) + Pad2(d.month) + Pad2(d.day)
  }

  /** `datetime.strptime(s, '%Y%m%d').date()`: exactly eight digits that name a real calendar date, or None (ValueError). */
  function Parse(s: string): Option<ValidDate>
  {
    if |s| == 8 && AllDigits(s) then
      var d := Date(DecimalValue(s[..4]), DecimalValue(s[4..6]), DecimalValue(s[6..]));
      if IsValid(d) then Some(d) else None
    else None
  }

  lemma TwoDigitValue(s: string)
    requires |s| == 2 && AllDigits(s)
    ensures DecimalValue(s) == DigitValue(s[0]) * 10 + DigitValue(s[1])
  {
    assert s[..|s| - 1] == [s[0]];
    assert [s[0]][..0] == [];
    assert DecimalValue([s[0]]) == DigitValue(s[0]);
  }

  lemma Pad2Value(n: nat)
    requires n < 100
    ensures DecimalValue(Pad2(n)) == n
  {
    TwoDigitValue(Pad2(n));
  }

  lemma Pad4Value(n: nat)
    requires n < 10000
    ensures DecimalValue(Pad4(n)) == n
  {
    var s := Pad4(n);
    Pad2Value(n / 100);
    Pad2Value(n % 100);
    DecimalValueConcat2(Pad2(n / 100), Pad2(n % 100));
  }

  lemma DecimalValueConcat2(a: string, b: string)
    requires AllDigits(a) && AllDigits(b) && |b| == 2
    ensures AllDigits(a + b) && DecimalValue(a + b) == DecimalValue(a) * 100 + DecimalValue(b)
  {
    var s := a + b;
    var t := a + [b[0]];
    assert s[..|s| - 1] == t;
    assert t[..|t| - 1] == a;
    assert DecimalValue(s) == DecimalValue(t) * 10 + DigitValue(b[1]);
    assert DecimalValue(t) == DecimalValue(a) * 10 + DigitValue(b[0]);
    TwoDigitValue(b);
  }

  lemma Pad2OfValue(s: string)
    requires |s| == 2 && AllDigits(s)
    ensures DecimalValue(s) < 100 && Pad2(DecimalValue(s)) == s
  {
    TwoDigitValue(s);
    var n := DecimalValue(s);
    assert n / 10 == DigitValue(s[0]) && n % 10 == DigitValue(s[1]);
  }

  lemma Pad4OfValue(s: string)
    requires |s| == 4 && AllDigits(s)
    ensures DecimalValue(s) < 10000 && Pad4(DecimalValue(s)) == s
  {
    var hi, lo := s[..2], s[2..];
    assert s == hi + lo;
    Pad2OfValue(hi);
    Pad2OfValue(lo);
    DecimalValueConcat2(hi, lo);
    var n := DecimalValue(s);
    assert n / 100 == DecimalValue(hi) && n % 100 == DecimalValue(lo);
  }

  /** Parsing the text of a date gives back that date (birthday and appointment date alike). */
  lemma ParseFormat(d: ValidDate)
    ensures Parse(Format(d)) == Some(d)
  {
    var s := Format(d);
    assert s[..4] == Pad4(d.year) && s[4..6] == Pad2(d.month) && s[6..] == Pad2(d.day);
    Pad4Value(d.year);
    Pad2Value(d.month);
    Pad2Value(d.day);
  }

  /** Formatting a parsed `YYYYMMDD` text reproduces the input. */
  lemma FormatParse(s: string)
    requires Parse(s).Some?
    ensures Format(Parse(s).value) == s
  {
    var d := Parse(s).value;
    Pad4OfValue(s[..4]);
    Pad2OfValue(s[4..6]);
    Pad2OfValue(s[6..]);
    assert s == s[..4] + s[4..6] + s[6..];
  }

  lemma Pad2Injective(x: nat, y: nat)
    requires x < 100 && y < 100 && Pad2(x) == Pad2(y)
    ensures x == y
  {
    Pad2Value(x);
    Pad2Value(y);
  }

  lemma Pad2Order(x: nat, y: nat)
    requires x < 100 && y < 100
    ensures Less(Pad2(x), Pad2(y)) <==> x < y
  {
    var a, b := Pad2(x), Pad2(y);
    if x / 10 != y / 10 {
      assert a[0] != b[0];
      assert Less(a, b) <==> x / 10 < y / 10;
    } else {
      assert a[0] == b[0];
      assert Less(a, b) == Less(a[1..], b[1..]);
      var a1, b1 := a[1..], b[1..];
      assert a1[1..] == [] && b1[1..] == [];
      assert a1[0] == DigitChar(x % 10) && b1[0] == DigitChar(y % 10);
      if x % 10 == y % 10 {
        assert !Less(a1[1..], b1[1..]);
      }
    }
  }

  lemma Pad4Order(x: nat, y: nat)
    requires x < 10000 && y < 10000
    ensures Less(Pad4(x), Pad4(y)) <==> x < y
  {
    LessConcat(Pad2(x / 100), Pad2(x % 100), Pad2(y / 100), Pad2(y % 100));
    Pad2Order(x / 100, y / 100);
    Pad2Order(x % 100, y % 100);
    if Pad2(x / 100) == Pad2(y / 100) { Pad2Injective(x / 100, y / 100); }
  }

  /** Comparing `YYYYMMDD` texts as strings orders dates chronologically, so sorting on the text
      (application.py) and comparing date objects (tally_stats) agree. */
  lemma FormatOrder(a: ValidDate, b: ValidDate)
    ensures Less(Format(a), Format(b)) <==> Before(a, b)
  {
    var ya, ma, da := Pad4(a.year), Pad2(a.month), Pad2(a.day);
    var yb, mb, db := Pad4(b.year), Pad2(b.month), Pad2(b.day);
    LessConcat(ya + ma, da, yb + mb, db);
    LessConcat(ya, ma, yb, mb);
    Pad4Order(a.year, b.year);
    Pad2Order(a.month, b.month);
    Pad2Order(a.day, b.day);
    if ya == yb { Pad4Value(a.year); Pad4Value(b.year); }
    if ma == mb { Pad2Injective(a.month, b.month); }
    if ya + ma == yb + mb {
      assert ya == (ya + ma)[..4] == (yb + mb)[..4] == yb;
      assert ma == (ya + ma)[4..] == (yb + mb)[4..] == mb;
    }
  }

  /** Distinct dates have distinct texts. */
  lemma FormatInjective(a: ValidDate, b: ValidDate)
    requires Format(a) == Format(b)
    ensures a == b
  {
    ParseFormat(a);
    ParseFormat(b);
  }
}
