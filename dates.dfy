/**
 * Calendar dates as the backend sees them through Python's `datetime`:
 * proleptic Gregorian dates between years 1 and 9999, their ordinal day
 * numbers (`date.toordinal()`, day 1 is 0001-01-01), the ISO text form the
 * SQLite adapter stores (`YYYY-MM-DD`), and `strptime(s, '%Y-%m-%d')`.
 *
 * Every date column of the model holds an ordinal; subtracting two ordinals
 * gives `(a - b).days`.
 */
module Dates {
  import opened Common

  const MinYear := 1
  const MaxYear := 9999
  /** `date(9999, 12, 31).toordinal()`. */
  const MaxOrdinal := 3652059

  datatype Date = Date(year: int, month: int, day: int)

  predicate IsLeap(y: int) {
    y % 4 == 0 && (y % 100 != 0 || y % 400 == 0)
  }

  function DaysInMonth(y: int, m: int): int
    requires 1 <= m <= 12
  {
    if m == 2 then (if IsLeap(y) then 29 else 28)
    else if m == 4 || m == 6 || m == 9 || m == 11 then 30
    else 31
  }

  function DaysInYear(y: int): int {
    if IsLeap(y) then 366 else 365
  }

  /** A date the `date` constructor accepts. */
  predicate ValidDate(d: Date) {
    MinYear <= d.year <= MaxYear && 1 <= d.month <= 12 && 1 <= d.day <= DaysInMonth(d.year, d.month)
  }

  /** Days in the years before `y` (closed form used by `date.toordinal`). */
  function DaysBeforeYear(y: int): int {
    var p := y - 1;
    p * 365 + p / 4 - p / 100 + p / 400
  }

  /** Days in the months of year `y` before month `m`. */
  function DaysBeforeMonth(y: int, m: int): int
    requires 1 <= m <= 12
  {
    var table := [0, 31, 59, 90, 120, 151, 181, 212, 243, 273, 304, 334];
    table[m - 1] + (if m > 2 && IsLeap(y) then 1 else 0)
  }

  function Ordinal(d: Date): int
    requires ValidDate(d)
  {
    DaysBeforeYear(d.year) + DaysBeforeMonth(d.year, d.month) + d.day
  }

  /** The calendar successor of a date. */
  function NextDay(d: Date): Date
    requires ValidDate(d)
  {
    if d.day < DaysInMonth(d.year, d.month) then Date(d.year, d.month, d.day + 1)
    else if d.month < 12 then Date(d.year, d.month + 1, 1)
    else Date(d.year + 1, 1, 1)
  }

  /** The closed form counts 365 or 366 days per year, as the calendar does. */
  lemma DaysBeforeYearStep(y: int)
    ensures DaysBeforeYear(y + 1) == DaysBeforeYear(y) + DaysInYear(y)
  {
    var p := y - 1;
    MultiplesUpTo(y, 4);
    MultiplesUpTo(y, 100);
    MultiplesUpTo(y, 400);
    MultiplesNest(y);
    var a, b, c := y / 4 - p / 4, y / 100 - p / 100, y / 400 - p / 400;
    assert DaysBeforeYear(y + 1) - DaysBeforeYear(y) == 365 + a - b + c;
    assert a - b + c == if IsLeap(y) then 1 else 0;
  }

  /** Multiples of 400 are multiples of 100, which are multiples of 4. */
  lemma MultiplesNest(y: int)
    ensures y % 400 == 0 ==> y % 100 == 0
    ensures y % 100 == 0 ==> y % 4 == 0
  {
    if y % 400 == 0 {
      RemainderOfMultiple(y, y / 400 * 4, 100);
    }
    if y % 100 == 0 {
      RemainderOfMultiple(y, y / 100 * 25, 4);
    }
  }

  lemma RemainderOfMultiple(y: int, q: int, k: int)
    requires k == 4 || k == 100
    requires y == q * k
    ensures y % k == 0
  {
    var d := q - y / k;
    assert y % k == d * k;
  }


  /** Going from `y - 1` to `y` adds one multiple of `k` exactly when `y` is one. */
  lemma MultiplesUpTo(y: int, k: int)
    requires k == 4 || k == 100 || k == 400
    ensures y / k - (y - 1) / k == if y % k == 0 then 1 else 0
  {
    if k == 4 {
      assert y / 4 - (y - 1) / 4 == if y % 4 == 0 then 1 else 0;
    } else if k == 100 {
      assert y / 100 - (y - 1) / 100 == if y % 100 == 0 then 1 else 0;
    } else {
      assert y / 400 - (y - 1) / 400 == if y % 400 == 0 then 1 else 0;
    }
  }

  /** Day 1 is 0001-01-01. */
  lemma OrdinalOfFirstDay()
    ensures Ordinal(Date(MinYear, 1, 1)) == 1
  {
  }

  /**
   * Ordinals are consecutive day numbers: every day after the first one is
   * one more than the day before it.
   */
  lemma OrdinalOfNextDay(d: Date)
    requires ValidDate(d) && d != Date(MaxYear, 12, 31)
    ensures ValidDate(NextDay(d)) && Ordinal(NextDay(d)) == Ordinal(d) + 1
  {
    var y, m := d.year, d.month;
    if d.day < DaysInMonth(y, m) {
      assert NextDay(d) == Date(y, m, d.day + 1);
    } else if m < 12 {
      assert NextDay(d) == Date(y, m + 1, 1);
      DaysBeforeMonthStep(y, m);
    } else {
      assert NextDay(d) == Date(y + 1, 1, 1);
      assert y < MaxYear;
      DaysBeforeYearStep(y);
      assert DaysBeforeMonth(y, 12) + 31 == DaysInYear(y);
    }
  }

  lemma DaysBeforeMonthStep(y: int, m: int)
    requires 1 <= m < 12
    ensures DaysBeforeMonth(y, m + 1) == DaysBeforeMonth(y, m) + DaysInMonth(y, m)
  {
  }

  /** Every valid date has an ordinal in `1 ..= MaxOrdinal`. */
  lemma OrdinalRange(d: Date)
    requires ValidDate(d)
    ensures 1 <= Ordinal(d) <= MaxOrdinal
  {
    DaysBeforeYearMonotone(d.year, MaxYear);
    assert DaysBeforeYear(MaxYear) + 334 + 31 == MaxOrdinal;
  }

  lemma {:induction false} DaysBeforeYearMonotone(a: int, b: int)
    requires 1 <= a <= b
    ensures 0 <= DaysBeforeYear(a) && DaysBeforeYear(a) + 365 * (b - a) <= DaysBeforeYear(b)
    decreases b - a
  {
    if a < b {
      DaysBeforeYearStep(b - 1);
      DaysBeforeYearMonotone(a, b - 1);
    }
  }

  // ---------------------------------------------------------------------------
  // Text forms
  // ---------------------------------------------------------------------------

  /** Two decimal digits, zero-padded (`%02d` for `n < 100`). */
  function Digits2(n: nat): (s: string)
    requires n < 100
    ensures |s| == 2 && AllDigits(s) && DecimalValue(s) == n
  {
    var s := [DigitChar(n / 10), DigitChar(n % 10)];
    assert s[..1] == [DigitChar(n / 10)] && s[..1][..0] == [];
    assert DecimalValue(s[..1]) == n / 10;
    assert DecimalValue(s) == DecimalValue(s[..1]) * 10 + DigitValue(s[1]);
    assert DecimalValue(s) == (n / 10) * 10 + n % 10;
    s
  }

  /** Four decimal digits, zero-padded (`%04d` for `n < 10000`). */
  function Digits4(n: nat): (s: string)
    requires n < 10000
    ensures |s| == 4 && AllDigits(s) && DecimalValue(s) == n
  {
    var s := Digits2(n / 100) + Digits2(n % 100);
    assert s[..3] == Digits2(n / 100) + [s[2]];
    assert s[..2] == Digits2(n / 100);
    s
  }

  /** `date.isoformat()`: the text the SQLite adapter writes for a date. */
  function IsoFormat(d: Date): (s: string)
    requires ValidDate(d)
    ensures |s| == 10
  {
    Digits4(d.year) + "-" + Digits2(d.month) + "-" + Digits2(d.day)
  }

  /** The `%m` alternatives of CPython's strptime: `1[0-2]|0[1-9]|[1-9]`. */
  predicate MonthField(f: string) {
    || (|f| == 2 && f[0] == '1' && '0' <= f[1] <= '2')
    || (|f| == 2 && f[0] == '0' && '1' <= f[1] <= '9')
    || (|f| == 1 && '1' <= f[0] <= '9')
  }

  /** The `%d` alternatives of CPython's strptime: `3[01]|[12]\d|0[1-9]|[1-9]| [1-9]`. */
  predicate DayField(f: string) {
    || (|f| == 2 && f[0] == '3' && '0' <= f[1] <= '1')
    || (|f| == 2 && '1' <= f[0] <= '2' && IsDigit(f[1]))
    || (|f| == 2 && f[0] == '0' && '1' <= f[1] <= '9')
    || (|f| == 1 && '1' <= f[0] <= '9')
    || (|f| == 2 && f[0] == ' ' && '1' <= f[1] <= '9')
  }

  /** The integer a matched `%m`/`%d` field converts to (a leading space is ignored by `int`). */
  function FieldValue(f: string): nat
    requires MonthField(f) || DayField(f)
  {
    if f[0] == ' ' then DigitValue(f[1]) else DecimalValue(f)
  }

  /** Position of the first `c` in `s`, if any. */
  function IndexOf(s: string, c: char): (r: Option<nat>)
    ensures r.Some? ==> r.value < |s| && s[r.value] == c && c !in s[..r.value]
    ensures r.None? ==> c !in s
  {
    if s == [] then None
    else if s[0] == c then Some(0)
    else match IndexOf(s[1..], c)
      case None => None
      case Some(k) =>
        assert s[..k + 1] == [s[0]] + s[1..][..k];
        Some(k + 1)
  }

  /**
   * `datetime.strptime(s, '%Y-%m-%d').date()`: four digits, `-`, a month
   * field, `-`, a day field, nothing after it, and a real calendar date.
   * `None` stands for the `ValueError` it raises otherwise. Month fields
   * never contain `-`, so the month ends at the first `-` after the year.
   */
  function ParseDate(s: string): (r: Option<Date>)
    ensures r.Some? ==> ValidDate(r.value)
  {
    if |s| < 5 || !AllDigits(s[..4]) || s[4] != '-' then None
    else
      var rest := s[5..];
      match IndexOf(rest, '-')
      case None => None
      case Some(k) =>
        var m, d := rest[..k], rest[k + 1..];
        if !MonthField(m) || !DayField(d) then None
        else
          var date := Date(DecimalValue(s[..4]), FieldValue(m), FieldValue(d));
          if ValidDate(date) then Some(date) else None
  }

  /** What the database stores for a date reads back as that same date. */
  lemma ParseIsoFormat(d: Date)
    requires ValidDate(d)
    ensures ParseDate(IsoFormat(d)) == Some(d)
  {
    var s := IsoFormat(d);
    assert s[..4] == Digits4(d.year);
    var rest := s[5..];
    assert rest == Digits2(d.month) + "-" + Digits2(d.day);
    assert IndexOf(rest, '-') == Some(2) by {
      assert rest[0] != '-' && rest[1] != '-' && rest[2] == '-';
      assert rest[1..][0] != '-' && rest[1..][1] == '-';
    }
    assert rest[..2] == Digits2(d.month);
    assert rest[3..] == Digits2(d.day);
  }

  /** Accepted spellings are wider than ISO: a single-digit month parses. */
  lemma ParseAcceptsShortMonth()
    ensures ParseDate("2024-1-05") == Some(Date(2024, 1, 5))
  {
    var s := "2024-1-05";
    assert s[..4] == "2024";
    assert DecimalValue("2024") == 2024 by {
      assert "2024"[..3] == "202" && "202"[..2] == "20" && "20"[..1] == "2" && "2"[..0] == "";
    }
    var rest := s[5..];
    assert rest == "1-05";
    assert IndexOf(rest, '-') == Some(1) by {
      assert rest[1..] == "-05";
    }
    assert rest[..1] == "1" && rest[2..] == "05";
    assert "1"[..0] == "" && "05"[..1] == "0" && "0"[..0] == "";
  }

  /** A space-padded day parses too (the ` [1-9]` alternative). */
  lemma ParseAcceptsSpacedDay()
    ensures ParseDate("2024-01- 5") == Some(Date(2024, 1, 5))
  {
    var s := "2024-01- 5";
    assert s[..4] == "2024";
    assert DecimalValue("2024") == 2024 by {
      assert "2024"[..3] == "202" && "202"[..2] == "20" && "20"[..1] == "2" && "2"[..0] == "";
    }
    var rest := s[5..];
    assert rest == "01- 5";
    assert IndexOf(rest, '-') == Some(2) by {
      assert rest[1..] == "1- 5" && rest[1..][1..] == "- 5";
    }
    assert rest[..2] == "01" && rest[3..] == " 5";
    assert "01"[..1] == "0" && "0"[..0] == "";
  }

  lemma Year2023()
    ensures AllDigits("2023") && DecimalValue("2023") == 2023
  {
    assert "2023"[..3] == "202" && "202"[..2] == "20" && "20"[..1] == "2" && "2"[..0] == "";
  }

  /** A day past the end of its month is refused, as `date()` refuses it. */
  lemma ParseRefusesFebruary29InCommonYear()
    ensures ParseDate("2023-02-29") == None
  {
    var s := "2023-02-29";
    assert s[..4] == "2023";
    Year2023();
    var rest := s[5..];
    assert rest == "02-29";
    assert IndexOf(rest, '-') == Some(2) by {
      assert rest[1..] == "2-29" && rest[1..][1..] == "-29";
    }
    assert rest[..2] == "02" && rest[3..] == "29";
    assert FieldValue("02") == 2 by {
      assert "02"[..1] == "0" && "0"[..0] == "";
    }
    assert FieldValue("29") == 29 by {
      assert "29"[..1] == "2" && "2"[..0] == "";
    }
    assert !ValidDate(Date(2023, 2, 29));
  }

}
