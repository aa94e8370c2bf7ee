/**
  The week calculator: how many Monday-aligned weeks lie between the start
  of the apprenticeship and today. Today is the day number of the local
  calendar date, passed in rather than read from a clock.
*/
module WeekCalculator {
  import opened Wrappers
  import opened Calendar
  import opened DecimalText

  /** The Monday that begins the week of day `n`: `n` moved back by its days since Monday. */
  function MondayOf(n: int): (m: int)
    ensures Weekday(m) == 0
    ensures m <= n <= m + 6
  {
    n - Weekday(n)
  }

  /** A week has exactly one Monday: any Monday at most six days before `n` is `MondayOf(n)`. */
  lemma MondayOfUnique(n: int, m: int)
    requires Weekday(m) == 0 && m <= n <= m + 6
    ensures MondayOf(n) == m
  {
  }

  /** No Monday after `MondayOf(n)` is on or before `n`. */
  lemma MondayOfIsLatestMonday(n: int, k: int)
    requires Weekday(k) == 0 && k <= n
    ensures k <= MondayOf(n)
  {
  }

  /** Two Mondays are a whole number of weeks apart. */
  lemma MondaysWholeWeeksApart(a: int, b: int)
    requires Weekday(a) == 0 && Weekday(b) == 0
    ensures (b - a) % 7 == 0
  {
    assert (a + 6) % 7 == (b + 6) % 7;
    assert b - a == 7 * ((b + 6) / 7 - (a + 6) / 7) by {
      assert b + 6 == (b + 6) / 7 * 7 + (b + 6) % 7;
      assert a + 6 == (a + 6) / 7 * 7 + (a + 6) % 7;
    }
  }

  /**
    Whole weeks in a signed span of days, truncated toward zero as the
    duration type's `num_weeks` does (Rust's `/` on integers).
  */
  function NumWeeks(days: int): (w: int)
    ensures days >= 0 ==> 0 <= days - 7 * w < 7
    ensures days < 0 ==> -7 < days - 7 * w <= 0
  {
    if days >= 0 then days / 7 else -((-days) / 7)
  }

  /** On a whole number of weeks, truncating and exact division agree. */
  lemma NumWeeksOfWholeWeeks(days: int)
    requires days % 7 == 0
    ensures NumWeeks(days) == days / 7
    ensures 7 * NumWeeks(days) == days
  {
    if days < 0 {
      assert (-days) % 7 == 0;
    }
  }

  /** Signed number of weeks from the Monday of `start`'s week to the Monday of `today`'s week. */
  function WeekNumber(start: int, today: int): (w: int)
    ensures MondayOf(today) == MondayOf(start) + 7 * w
  {
    MondaysWholeWeeksApart(MondayOf(start), MondayOf(today));
    NumWeeksOfWholeWeeks(MondayOf(today) - MondayOf(start));
    NumWeeks(MondayOf(today) - MondayOf(start))
  }

  datatype WeekError = UnexpectedDateFormat(text: string)

  /**
    The current apprenticeship week: the start date is read from its
    `YYYY-MM-DD` text; text that is not a date is a fatal configuration error.
  */
  function CurrentWeek(startOfApprenticeship: string, today: int): (r: Result<int, WeekError>)
    ensures r.Err? <==> ParseDate(startOfApprenticeship).None?
    ensures r.Err? ==> r.error == UnexpectedDateFormat(startOfApprenticeship)
    ensures r.Ok? ==>
      MondayOf(today) == MondayOf(DayNumber(ParseDate(startOfApprenticeship).value)) + 7 * r.value
  {
    match ParseDate(startOfApprenticeship)
    case None => Err(UnexpectedDateFormat(startOfApprenticeship))
    case Some(start) => Ok(WeekNumber(DayNumber(start), today))
  }

  // ---------------------------------------------------------------------
  // Laws of the week number.

  /** The week number is the exact quotient of the Monday difference by seven. */
  lemma WeekNumberIsExactQuotient(start: int, today: int)
    ensures (MondayOf(today) - MondayOf(start)) % 7 == 0
    ensures WeekNumber(start, today) == (MondayOf(today) - MondayOf(start)) / 7
  {
    var w := WeekNumber(start, today);
    assert MondayOf(today) - MondayOf(start) == 7 * w;
  }

  /** Any two days of one Monday-to-Sunday week give the same week number. */
  lemma SameWeekSameNumber(start: int, t1: int, t2: int, monday: int)
    requires Weekday(monday) == 0
    requires monday <= t1 <= monday + 6 && monday <= t2 <= monday + 6
    ensures WeekNumber(start, t1) == WeekNumber(start, t2)
  {
    MondayOfUnique(t1, monday);
    MondayOfUnique(t2, monday);
  }

  /** Every day of the start date's own week is week 0. */
  lemma StartWeekIsZero(start: int, today: int)
    requires MondayOf(start) <= today <= MondayOf(start) + 6
    ensures WeekNumber(start, today) == 0
  {
    MondayOfUnique(today, MondayOf(start));
  }

  /** Seven days later is exactly one week further. */
  lemma NextWeekIsOneMore(start: int, today: int)
    ensures WeekNumber(start, today + 7) == WeekNumber(start, today) + 1
  {
    MondayOfUnique(today + 7, MondayOf(today) + 7);
  }

  /** A later day never has a smaller week number. */
  lemma WeekNumberMonotone(start: int, t1: int, t2: int)
    requires t1 <= t2
    ensures WeekNumber(start, t1) <= WeekNumber(start, t2)
  {
    MondayOfIsLatestMonday(t2, MondayOf(t1));
  }

  /** The week number is negative exactly for days before the start date's week; it is not rejected. */
  lemma NegativeBeforeStartWeek(start: int, today: int)
    ensures WeekNumber(start, today) < 0 <==> today < MondayOf(start)
  {
    if today >= MondayOf(start) {
      MondayOfIsLatestMonday(today, MondayOf(start));
    }
  }

  /** A start date of 2023-09-01, a Friday, and today 2023-09-18, a Monday: week 3. */
  lemma CurrentWeekExample(startText: string)
    requires startText == "2023-09-01"
    ensures ValidDate(Date(2023, 9, 18))
    ensures Weekday(DayNumber(Date(2023, 9, 1))) == 4
    ensures CurrentWeek(startText, DayNumber(Date(2023, 9, 18))) == Ok(3)
  {
    assert ParseDate(startText) == Some(Date(2023, 9, 1)) by {
      assert startText[..4] == "2023" && startText[5..7] == "09" && startText[8..] == "01";
      assert Value("2023") == 2023 by {
        assert "2023"[..3] == "202" && "202"[..2] == "20" && "20"[..1] == "2";
      }
      assert Value("09") == 9 by { assert "09"[..1] == "0"; }
      assert Value("01") == 1 by { assert "01"[..1] == "0"; }
    }
    var start, monday, today := DayNumber(Date(2023, 9, 1)), DayNumber(Date(2023, 8, 28)), DayNumber(Date(2023, 9, 18));
    assert start == 738764 && monday == 738760 && today == 738781;
    MondayOfUnique(start, monday);
    MondayOfUnique(today, today);
  }
}
