/**
  Calendar dates in the proleptic Gregorian calendar, as the date library
  behind `NaiveDate` counts them: a date is a (year, month, day) triple, its
  day number counts days with 0001-01-01 as day 1, and its weekday is
  counted from Monday (Monday = 0 ... Sunday = 6).
  Also the strict `YYYY-MM-DD` reading and writing of dates used for the
  configured start of the apprenticeship.
*/
module Calendar {
  import opened Wrappers
  import opened DecimalText

  datatype Date = Date(year: int, month: int, day: int)

  predicate IsLeapYear(y: int) {
    y % 4 == 0 && (y % 100 != 0 || y % 400 == 0)
  }

  function YearLength(y: int): (n: int)
    ensures n == 365 || n == 366
    ensures n == 366 <==> IsLeapYear(y)
  {
    if IsLeapYear(y) then 366 else 365
  }

  function DaysInMonth(y: int, m: int): (n: int)
    requires 1 <= m <= 12
    ensures 28 <= n <= 31
    ensures n == 29 <==> m == 2 && IsLeapYear(y)
  {
    if m == 2 then (if IsLeapYear(y) then 29 else 28)
    else if m == 4 || m == 6 || m == 9 || m == 11 then 30
    else 31
  }

  predicate ValidDate(d: Date) {
    1 <= d.month <= 12 && 1 <= d.day <= DaysInMonth(d.year, d.month)
  }

  /** Days of year `y` that lie before the first of month `m`. */
  function DaysBeforeMonth(y: int, m: int): (n: nat)
    requires 1 <= m <= 12
  {
    (match m
     case 1 => 0 case 2 => 31 case 3 => 59 case 4 => 90
     case 5 => 120 case 6 => 151 case 7 => 181 case 8 => 212
     case 9 => 243 case 10 => 273 case 11 => 304 case _ => 334)
    + (if m > 2 && IsLeapYear(y) then 1 else 0)
  }

  /** Days before the first of January of year `y`, counted from 0001-01-01. */
  function YearStart(y: int): int {
    365 * (y - 1) + (y - 1) / 4 - (y - 1) / 100 + (y - 1) / 400
  }

  /**
    The day number of a date; 0001-01-01 is day 1. A date's number lies
    within its year's span of day numbers.
  */
  function DayNumber(d: Date): (n: int)
    requires ValidDate(d)
    ensures YearStart(d.year) + 1 <= n <= YearStart(d.year) + YearLength(d.year)
  {
    MonthWithinYear(d.year, d.month);
    YearStart(d.year) + DaysBeforeMonth(d.year, d.month) + d.day
  }

  /** The calendar date that follows `d`. */
  function NextDate(d: Date): (r: Date)
    requires ValidDate(d)
    ensures ValidDate(r)
  {
    if d.day < DaysInMonth(d.year, d.month) then Date(d.year, d.month, d.day + 1)
    else if d.month < 12 then Date(d.year, d.month + 1, 1)
    else Date(d.year + 1, 1, 1)
  }

  /** Lexicographic calendar order. */
  predicate Before(a: Date, b: Date) {
    a.year < b.year
    || (a.year == b.year && a.month < b.month)
    || (a.year == b.year && a.month == b.month && a.day < b.day)
  }

  /** Weekday counted from Monday: 0 for Monday ... 6 for Sunday. */
  function Weekday(n: int): (w: int)
    ensures 0 <= w <= 6
  {
    (n + 6) % 7
  }

  // ---------------------------------------------------------------------
  // The day number is the proleptic Gregorian day count.

  lemma LeapCount(y: int)
    ensures y / 4 - (y - 1) / 4 == (if y % 4 == 0 then 1 else 0)
    ensures y / 100 - (y - 1) / 100 == (if y % 100 == 0 then 1 else 0)
    ensures y / 400 - (y - 1) / 400 == (if y % 400 == 0 then 1 else 0)
  {
  }

  lemma DivisibilityChain(y: int)
    ensures y % 400 == 0 ==> y % 100 == 0
    ensures y % 100 == 0 ==> y % 4 == 0
  {
    var q, r := y / 400, y / 100;
    assert y % 400 == 0 ==> y == 100 * (4 * q);
    assert y % 100 == 0 ==> y == 4 * (25 * r);
  }

  /** Each year begins right after the last day of the year before. */
  lemma YearStartStep(y: int)
    ensures YearStart(y + 1) == YearStart(y) + YearLength(y)
  {
    LeapCount(y);
    DivisibilityChain(y);
    var a, b, c := y / 4 - (y - 1) / 4, y / 100 - (y - 1) / 100, y / 400 - (y - 1) / 400;
    assert YearStart(y + 1) == YearStart(y) + 365 + a - b + c;
  }

  lemma {:induction false} YearStartIncreasing(y1: int, y2: int)
    requires y1 < y2
    ensures YearStart(y1) + YearLength(y1) <= YearStart(y2)
    decreases y2 - y1
  {
    YearStartStep(y1);
    if y1 + 1 < y2 {
      YearStartIncreasing(y1 + 1, y2);
    }
  }

  /** The months of a year follow each other without gap or overlap. */
  lemma MonthStep(y: int, m: int)
    requires 1 <= m < 12
    ensures DaysBeforeMonth(y, m + 1) == DaysBeforeMonth(y, m) + DaysInMonth(y, m)
  {
  }

  lemma {:induction false} MonthsIncreasing(y: int, m1: int, m2: int)
    requires 1 <= m1 < m2 <= 12
    ensures DaysBeforeMonth(y, m1) + DaysInMonth(y, m1) <= DaysBeforeMonth(y, m2)
    decreases m2 - m1
  {
    MonthStep(y, m1);
    if m1 + 1 < m2 {
      MonthsIncreasing(y, m1 + 1, m2);
    }
  }

  /** Every month of year `y` ends within the year's `YearLength(y)` days. */
  lemma MonthWithinYear(y: int, m: int)
    requires 1 <= m <= 12
    ensures DaysBeforeMonth(y, m) + DaysInMonth(y, m) <= YearLength(y)
  {
    if m < 12 {
      MonthsIncreasing(y, m, 12);
    }
  }

  /** The day after a date has the next day number. */
  lemma NextDateIsNextDay(d: Date)
    requires ValidDate(d)
    ensures DayNumber(NextDate(d)) == DayNumber(d) + 1
  {
    if d.day == DaysInMonth(d.year, d.month) {
      if d.month < 12 {
        MonthStep(d.year, d.month);
      } else {
        YearStartStep(d.year);
      }
    }
  }

  /** Day numbers follow calendar order, so distinct dates have distinct day numbers. */
  lemma DayNumberIncreasing(a: Date, b: Date)
    requires ValidDate(a) && ValidDate(b)
    ensures Before(a, b) ==> DayNumber(a) < DayNumber(b)
    ensures DayNumber(a) == DayNumber(b) <==> a == b
  {
    if a.year < b.year {
      YearStartIncreasing(a.year, b.year);
    } else if b.year < a.year {
      YearStartIncreasing(b.year, a.year);
    } else if a.month < b.month {
      MonthsIncreasing(a.year, a.month, b.month);
    } else if b.month < a.month {
      MonthsIncreasing(a.year, b.month, a.month);
    }
  }

  /** The first day of the calendar, 0001-01-01, is a Monday. */
  lemma FirstDayIsMonday()
    ensures ValidDate(Date(1, 1, 1)) && DayNumber(Date(1, 1, 1)) == 1
    ensures Weekday(DayNumber(Date(1, 1, 1))) == 0
  {
    assert YearStart(1) == 0;
    assert DaysBeforeMonth(1, 1) == 0;
    assert Weekday(1) == 0;
  }

  /** Weekdays advance by one, Sunday wrapping to Monday, and repeat every seven days. */
  lemma WeekdaySucc(n: int)
    ensures Weekday(n + 1) == (if Weekday(n) == 6 then 0 else Weekday(n) + 1)
    ensures Weekday(n + 7) == Weekday(n)
  {
  }

  // ---------------------------------------------------------------------
  // Strict `YYYY-MM-DD` text.

  /**
    Reads `YYYY-MM-DD`: four year digits, two month digits, two day digits,
    separated by '-', nothing before or after, naming a real calendar date.
  */
  function ParseDate(s: string): (r: Option<Date>)
    ensures r.Some? ==> ValidDate(r.value) && 0 <= r.value.year <= 9999
    ensures r.Some? ==> |s| == 10 && s[4] == '-' && s[7] == '-'
  {
    if |s| == 10 && IsDigits(s[..4]) && s[4] == '-' && IsDigits(s[5..7])
       && s[7] == '-' && IsDigits(s[8..])
    then
      var d := Date(Value(s[..4]), Value(s[5..7]), Value(s[8..]));
      if ValidDate(d) then Some(d) else None
    else None
  }

  /** Writes a date of a four-digit year as `YYYY-MM-DD`. */
  function FormatDate(d: Date): (s: string)
    requires ValidDate(d) && 0 <= d.year <= 9999
    ensures |s| == 10
  {
    assert Pow10(2) == 100 && Pow10(4) == 10000;
    Fixed(d.year, 4) + "-" + Fixed(d.month, 2) + "-" + Fixed(d.day, 2)
  }

  lemma FormatDateParts(d: Date)
    requires ValidDate(d) && 0 <= d.year <= 9999
    ensures Pow10(2) == 100 && Pow10(4) == 10000
    ensures FormatDate(d)[..4] == Fixed(d.year, 4)
    ensures FormatDate(d)[4] == '-' && FormatDate(d)[7] == '-'
    ensures FormatDate(d)[5..7] == Fixed(d.month, 2)
    ensures FormatDate(d)[8..] == Fixed(d.day, 2)
  {
    assert Pow10(2) == 100 && Pow10(4) == 10000;
  }

  /** Every date with a four-digit year reads back from its written form. */
  lemma ParseFormatDate(d: Date)
    requires ValidDate(d) && 0 <= d.year <= 9999
    ensures ParseDate(FormatDate(d)) == Some(d)
  {
    FormatDateParts(d);
    ValueOfFixed(d.year, 4);
    ValueOfFixed(d.month, 2);
    ValueOfFixed(d.day, 2);
  }

  /** Text that reads as a date is exactly that date's written form. */
  lemma FormatParsedDate(s: string)
    requires ParseDate(s).Some?
    ensures FormatDate(ParseDate(s).value) == s
  {
    var d := ParseDate(s).value;
    FormatDateParts(d);
    FixedOfValue(s[..4]);
    FixedOfValue(s[5..7]);
    FixedOfValue(s[8..]);
    SameDateFields(s, FormatDate(d));
  }

  /** Two ten-character texts that agree on each field of `YYYY-MM-DD` are equal. */
  lemma SameDateFields(s: string, t: string)
    requires |s| == 10 && |t| == 10
    requires s[..4] == t[..4] && s[4] == t[4] && s[5..7] == t[5..7] && s[7] == t[7] && s[8..] == t[8..]
    ensures s == t
  {
    assert s == s[..4] + [s[4]] + s[5..7] + [s[7]] + s[8..];
    assert t == t[..4] + [t[4]] + t[5..7] + [t[7]] + t[8..];
  }
}
