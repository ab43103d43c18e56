/** The proleptic Gregorian calendar of Python's `datetime.date`. A date is
    its ordinal, `date.toordinal()`: day 1 is 0001-01-01. The module converts
    ordinals to year/month/day, gives the weekday, and renders and parses the
    ISO form "YYYY-MM-DD" that `strftime("%Y-%m-%d")` produces. */
module Civil {
  import opened Wrappers

  /** `date.max.toordinal()`, the ordinal of 9999-12-31. */
  const MaxOrdinal := 3652059

  datatype Date = Date(year: int, month: int, day: int)

  predicate IsLeap(y: int)
  {
    y % 4 == 0 && (y % 100 != 0 || y % 400 == 0)
  }

  function DaysInYear(y: int): (n: int)
    ensures n == 365 || n == 366
    ensures n == 366 <==> IsLeap(y)
  {
    if IsLeap(y) then 366 else 365
  }

  function DaysInMonth(y: int, m: int): (n: int)
    requires 1 <= m <= 12
    ensures 28 <= n <= 31
    ensures m == 2 ==> (n == 29 <==> IsLeap(y))
  {
    if m == 2 then (if IsLeap(y) then 29 else 28)
    else if m == 4 || m == 6 || m == 9 || m == 11 then 30
    else 31
  }

  /** Days of year y that precede the first of month m; m = 13 stands for
      the end of the year. */
  function DaysBeforeMonth(y: int, m: int): int
    requires 1 <= m <= 13
  {
    [0, 31, 59, 90, 120, 151, 181, 212, 243, 273, 304, 334, 365][m - 1]
      + (if m > 2 && IsLeap(y) then 1 else 0)
  }

  /** Consecutive months tile the year without gaps. */
  lemma MonthsTileYear(y: int, m: int)
    requires 1 <= m <= 12
    ensures DaysBeforeMonth(y, m) + DaysInMonth(y, m) == DaysBeforeMonth(y, m + 1)
    ensures DaysBeforeMonth(y, 1) == 0 && DaysBeforeMonth(y, 13) == DaysInYear(y)
  {
  }

  /** Days from 0001-01-01 to the first of January of year y (negative for
      y < 1, where the proleptic calendar keeps counting backwards). */
  function DaysBeforeYear(y: int): int
    decreases if y >= 1 then y - 1 else 1 - y
  {
    if y == 1 then 0
    else if y > 1 then DaysBeforeYear(y - 1) + DaysInYear(y - 1)
    else DaysBeforeYear(y + 1) - DaysInYear(y)
  }

  lemma YearStep(y: int)
    ensures DaysBeforeYear(y + 1) == DaysBeforeYear(y) + DaysInYear(y)
  {
  }

  /** The usual closed form: 365 days a year plus the leap days. */
  lemma {:induction false} DaysBeforeYearClosedForm(y: int)
    requires y >= 1
    ensures DaysBeforeYear(y) == 365 * (y - 1) + (y - 1) / 4 - (y - 1) / 100 + (y - 1) / 400
  {
    if y > 1 {
      DaysBeforeYearClosedForm(y - 1);
      LeapCountStep(y - 2);
    }
  }

  /** One more year adds one to the count of leap years exactly when that
      year is a leap year. */
  lemma LeapCountStep(p: int)
    requires p >= 0
    ensures (p + 1) / 4 - (p + 1) / 100 + (p + 1) / 400
         == p / 4 - p / 100 + p / 400 + (if IsLeap(p + 1) then 1 else 0)
  {
    DivStep(p, 4);
    DivStep(p, 100);
    DivStep(p, 400);
  }

  /** Dividing by a positive literal d steps up by one exactly at the
      multiples of d. */
  lemma DivStep(p: int, d: int)
    requires p >= 0 && (d == 4 || d == 100 || d == 400)
    ensures (p + 1) / d == p / d + (if (p + 1) % d == 0 then 1 else 0)
  {
    if d == 4 {
      assert (p + 1) / 4 == p / 4 + (if (p + 1) % 4 == 0 then 1 else 0);
    } else if d == 100 {
      assert (p + 1) / 100 == p / 100 + (if (p + 1) % 100 == 0 then 1 else 0);
    } else {
      assert (p + 1) / 400 == p / 400 + (if (p + 1) % 400 == 0 then 1 else 0);
    }
  }

  lemma {:induction false} DaysBeforeYearMonotone(a: int, b: int)
    requires a <= b
    ensures DaysBeforeYear(a) <= DaysBeforeYear(b)
    ensures a < b ==> DaysBeforeYear(a + 1) <= DaysBeforeYear(b)
    decreases b - a
  {
    if a < b {
      YearStep(a);
      DaysBeforeYearMonotone(a + 1, b);
    }
  }

  /** The year holding the day k days after 1 January of year y, with the
      0-based position of that day inside its year. */
  function YearFrom(y: int, k: int): (r: (int, int))
    ensures 0 <= r.1 < DaysInYear(r.0)
    ensures DaysBeforeYear(r.0) + r.1 == DaysBeforeYear(y) + k
    decreases if k >= 0 then k else 366 - k
  {
    if 0 <= k < DaysInYear(y) then (y, k)
    else if k >= 0 then
      YearStep(y);
      YearFrom(y + 1, k - DaysInYear(y))
    else
      YearStep(y - 1);
      YearFrom(y - 1, k + DaysInYear(y - 1))
  }

  /** The month holding day-of-year k, searching from month m onwards. */
  function MonthFrom(y: int, k: int, m: int): (r: int)
    requires 1 <= m <= 12 && DaysBeforeMonth(y, m) <= k < DaysInYear(y)
    ensures m <= r <= 12
    ensures DaysBeforeMonth(y, r) <= k < DaysBeforeMonth(y, r) + DaysInMonth(y, r)
    decreases 12 - m
  {
    MonthsTileYear(y, m);
    if m == 12 || k < DaysBeforeMonth(y, m + 1) then m
    else MonthFrom(y, k, m + 1)
  }

  predicate ValidDate(d: Date)
  {
    1 <= d.month <= 12 && 1 <= d.day <= DaysInMonth(d.year, d.month)
  }

  /** `date(y, m, d).toordinal()`. */
  function Ordinal(d: Date): int
    requires ValidDate(d)
  {
    DaysBeforeYear(d.year) + DaysBeforeMonth(d.year, d.month) + d.day
  }

  /** `date.fromordinal(n)`: the calendar date whose ordinal is n. */
  function FromOrdinal(n: int): (d: Date)
    ensures ValidDate(d) && Ordinal(d) == n
  {
    var (y, k) := YearFrom(1, n - 1);
    MonthsTileYear(y, 1);
    var m := MonthFrom(y, k, 1);
    Date(y, m, k - DaysBeforeMonth(y, m) + 1)
  }

  /** Ordinals in Python's supported range have four-digit years. */
  lemma YearInRange(n: int)
    requires 1 <= n <= MaxOrdinal
    ensures 1 <= FromOrdinal(n).year <= 9999
  {
    var y := FromOrdinal(n).year;
    var r := YearFrom(1, n - 1);
    assert r.0 == y;
    DaysBeforeYearClosedForm(10000);
    if y < 1 {
      DaysBeforeYearMonotone(y, 0);
      YearStep(y);
      YearStep(0);
    }
    if y > 9999 {
      DaysBeforeYearMonotone(10000, y);
    }
  }

  /** `date.weekday()`: Monday is 0 and Sunday is 6. */
  function Weekday(n: int): (w: int)
    ensures 0 <= w < 7
  {
    (n + 6) % 7
  }

  /** Weekdays repeat every seven days. */
  lemma WeekdayPeriodic(n: int, k: int)
    ensures Weekday(n + 7 * k) == Weekday(n)
  {
  }

  /** 1970-01-01, a Thursday. */
  lemma UnixEpochIsThursday()
    ensures Ordinal(Date(1970, 1, 1)) == 719163
    ensures Weekday(719163) == 3
  {
    DaysBeforeYearClosedForm(1970);
  }

  /* ------------------------------------------------------ ISO rendering */

  function DigitChar(v: int): char
    requires 0 <= v <= 9
  {
    "0123456789"[v]
  }

  /** The digit a character stands for, if it is one. */
  function DigitValue(c: char): (v: Option<int>)
    ensures v.Some? ==> 0 <= v.value <= 9 && DigitChar(v.value) == c
  {
    if '0' <= c <= '9' then
      var v := (c as int) - ('0' as int);
      assert "0123456789"[v] == c;
      Some(v)
    else None
  }

  lemma DigitRoundTrip(v: int)
    requires 0 <= v <= 9
    ensures DigitValue(DigitChar(v)) == Some(v)
  {
  }

  /** Zero-padded decimal rendering of v in exactly `width` digits. */
  function Pad(v: nat, width: nat): (s: string)
    ensures |s| == width
  {
    if width == 0 then "" else Pad(v / 10, width - 1) + [DigitChar(v % 10)]
  }

  /** Reads a run of decimal digits. */
  function ReadDigits(s: string): (v: Option<nat>)
  {
    if |s| == 0 then Some(0)
    else
      match (ReadDigits(s[..|s| - 1]), DigitValue(s[|s| - 1]))
      case (Some(hi), Some(lo)) => Some(hi * 10 + lo)
      case _ => None
  }

  function Pow10(k: nat): (p: nat)
    ensures p >= 1
  {
    if k == 0 then 1 else 10 * Pow10(k - 1)
  }

  /** Reading a zero-padded rendering gives the number back. */
  lemma {:induction false} ReadPad(v: nat, width: nat)
    requires v < Pow10(width)
    ensures ReadDigits(Pad(v, width)) == Some(v)
  {
    if width > 0 {
      var s := Pad(v, width);
      assert s[..|s| - 1] == Pad(v / 10, width - 1);
      ReadPad(v / 10, width - 1);
      DigitRoundTrip(v % 10);
    }
  }

  /** `strftime("%Y-%m-%d")` of the date with ordinal n. */
  function FormatIso(n: int): (s: string)
    requires 1 <= n <= MaxOrdinal
    ensures |s| == 10 && s[4] == '-' && s[7] == '-'
  {
    var d := FromOrdinal(n);
    YearInRange(n);
    Pad(d.year, 4) + "-" + Pad(d.month, 2) + "-" + Pad(d.day, 2)
  }

  /** Reads "YYYY-MM-DD" back into an ordinal; None for anything that is
      not a valid date in that shape. */
  function ParseIso(s: string): (n: Option<int>)
    ensures n.Some? ==> |s| == 10
  {
    if |s| != 10 || s[4] != '-' || s[7] != '-' then None
    else
      match (ReadDigits(s[..4]), ReadDigits(s[5..7]), ReadDigits(s[8..]))
      case (Some(y), Some(m), Some(d)) =>
        if y >= 1 && ValidDate(Date(y, m, d)) then Some(Ordinal(Date(y, m, d))) else None
      case _ => None
  }

  /** Parsing the rendered date gives the ordinal back. */
  lemma ParseFormat(n: int)
    requires 1 <= n <= MaxOrdinal
    ensures ParseIso(FormatIso(n)) == Some(n)
  {
    var d := FromOrdinal(n);
    YearInRange(n);
    var s := FormatIso(n);
    assert s[..4] == Pad(d.year, 4);
    assert s[5..7] == Pad(d.month, 2);
    assert s[8..] == Pad(d.day, 2);
    assert Pow10(2) == 100 && Pow10(4) == 10000;
    ReadPad(d.year, 4);
    ReadPad(d.month, 2);
    ReadPad(d.day, 2);
  }

  /** Distinct days render to distinct strings. */
  lemma FormatInjective(a: int, b: int)
    requires 1 <= a <= MaxOrdinal && 1 <= b <= MaxOrdinal
    requires FormatIso(a) == FormatIso(b)
    ensures a == b
  {
    ParseFormat(a);
    ParseFormat(b);
  }
}
