# Ausbildungsnachweise check — week calculator and report path builder

The program checks, for each apprentice in its configuration, whether that
week's training report ("Ausbildungsnachweis") exists in the apprentice's
repository. This project models and proves the three pieces of logic in it
that need no I/O:

* **Week calculator** (`get_current_week`). It reads the start of the
  apprenticeship as `YYYY-MM-DD` and moves the start date and today back to
  the Monday of their week. It returns the signed number of whole weeks
  between the two Mondays. Dates are proleptic Gregorian calendar dates. A
  date's day number counts days with 0001-01-01 (a Monday) as day 1, the
  same count the date library uses. Its weekday is counted from Monday:
  Monday = 0 … Sunday = 6. Today is a parameter: the day number of the
  local calendar date.
* **Path builder** (`get_file_path`). It splits the apprentice's name into
  whitespace-separated words, as `split_whitespace` does, and needs at least
  two of them. It returns `<file_dir>/AN_<last>_<first>_<week>.pdf`, with
  the week written as `{:03}` writes an `i64`.
* **Repository name**. This is the apprentice's name with every space
  replaced by an underscore.

Modules, one per component: `Calendar` (dates, day numbers, weekdays, the
strict `YYYY-MM-DD` reader and writer), `WeekCalculator`, `Whitespace` (the
word split), `PathBuilder` (week formatting and the report path),
`Repository`, plus the helpers `DecimalText` (digit strings) and `Wrappers`
(`Option`/`Result`, which stand in for the source's panics).

The end-to-end example has start date 2023-09-01 (a Friday) and today
2023-09-18 (a Monday). The two Mondays are 2023-08-28 and 2023-09-18, which
are 21 days apart, so the code returns 3, as
`WeekCalculator.CurrentWeekExample` proves.

## Model

| member | source | states |
|---|---|---|
| `Calendar.ParseDate` | src/main.rs:87-88 | text reads as a date only if it has the `YYYY-MM-DD` shape and names a real calendar date (month 1..12, day within the month, Gregorian leap years); any other text gives no date |
| `Calendar.ParseFormatDate` | src/main.rs:87-88 | every valid date with a four-digit year reads back from its `YYYY-MM-DD` form |
| `Calendar.FormatParsedDate` | src/main.rs:87-88 | text that reads as a date is exactly that date's `YYYY-MM-DD` form, so the reader accepts one spelling per date |
| `Calendar.DayNumber` | src/main.rs:92-97 | the day count the date arithmetic works on: a date's number lies within its year, after the days of all earlier years and at most a year's length (365 or 366) beyond them |
| `Calendar.Weekday` | src/main.rs:91-94 | `num_days_from_monday` of a day number: always 0 (Monday) to 6 (Sunday) |
| `Calendar.NextDateIsNextDay` | src/main.rs:91-95 | the calendar day after a date has the next day number, across month and year ends and leap days |
| `Calendar.DayNumberIncreasing` | src/main.rs:91-95 | day numbers follow calendar order, and two valid dates have the same day number exactly when they are the same date |
| `Calendar.YearStartStep` | src/main.rs:91-95 | each year starts right after the previous one ends: 366 days for a leap year, 365 otherwise |
| `Calendar.FirstDayIsMonday` | src/main.rs:91-95 | 0001-01-01 is day 1 and a Monday, which anchors the weekday count |
| `Calendar.WeekdaySucc` | src/main.rs:91-94 | the weekday counted from Monday goes up by one each day, wraps from Sunday (6) to Monday (0), and repeats every 7 days |
| `WeekCalculator.MondayOf` | src/main.rs:91-95 | moving a day back by its days since Monday gives a Monday that is no later than the day and at most 6 days earlier |
| `WeekCalculator.MondayOfUnique` | src/main.rs:91-95 | any Monday at most 6 days before a day is that day's Monday, so a week has one Monday |
| `WeekCalculator.MondayOfIsLatestMonday` | src/main.rs:91-95 | no Monday on or before a day is later than the day's aligned Monday |
| `WeekCalculator.MondaysWholeWeeksApart` | src/main.rs:97 | any two Mondays are an exact multiple of 7 days apart |
| `WeekCalculator.NumWeeks` | src/main.rs:99 | `num_weeks` truncates toward zero: the remainder has the sign of the day count and is smaller than 7 in size |
| `WeekCalculator.NumWeeksOfWholeWeeks` | src/main.rs:97-99 | on a multiple of 7 days, truncating division equals exact division |
| `WeekCalculator.WeekNumber` | src/main.rs:91-99 | today's Monday is the start date's Monday plus exactly 7 × result days |
| `WeekCalculator.CurrentWeek` | src/main.rs:86-100 | fails with the date-format error exactly when the start text is not a date; otherwise today's Monday is the start's Monday plus 7 × result days |
| `WeekCalculator.WeekNumberIsExactQuotient` | src/main.rs:97-99 | the result is the Monday difference divided exactly by 7, and that difference is a multiple of 7 |
| `WeekCalculator.SameWeekSameNumber` | src/main.rs:86-100 | any two days of one Monday-to-Sunday week give the same week number |
| `WeekCalculator.StartWeekIsZero` | src/main.rs:86-100 | every day of the start date's own week gives week 0 |
| `WeekCalculator.NextWeekIsOneMore` | src/main.rs:97-99 | adding 7 days to today adds exactly 1 to the result |
| `WeekCalculator.WeekNumberMonotone` | src/main.rs:97-99 | a later today never gives a smaller week number |
| `WeekCalculator.NegativeBeforeStartWeek` | src/main.rs:97-99 | the result is negative exactly when today is before the start date's Monday; it is not rejected |
| `WeekCalculator.CurrentWeekExample` | src/main.rs:86-100 | start 2023-09-01 (a Friday) and today 2023-09-18 give week 3 |
| `Whitespace.IsWhitespace` | src/main.rs:103 | the Unicode White_Space set that `char::is_whitespace` accepts: the space is in it, and '_', which replaces spaces in repository names, is not |
| `Whitespace.WhitespaceAscii` | src/main.rs:103 | among ASCII characters, whitespace is exactly space, tab, line feed, vertical tab, form feed and carriage return |
| `Whitespace.Words` | src/main.rs:103 | every word is non-empty and holds no Unicode whitespace |
| `Whitespace.WordsCoverNonWhitespace` | src/main.rs:103 | the words, written one after another, are exactly the name's non-whitespace characters in order |
| `Whitespace.WordsSplitAtWhitespace` | src/main.rs:103 | a whitespace character splits the words into those before it and those after it |
| `Whitespace.WordsIgnoreSurroundingWhitespace` | src/main.rs:103 | whitespace before or after a name adds no words |
| `Whitespace.WordsOfJoin` | src/main.rs:103 | splitting words that were joined by single spaces gives back the same words |
| `Whitespace.WordsOfWhitespace` | src/main.rs:103 | a string of only whitespace, including the empty string, has no words |
| `Whitespace.WordsOfWord` | src/main.rs:103 | a single word splits into itself |
| `DecimalText.Decimal` | src/main.rs:105-109 | the shortest decimal form: digits only, no leading zero, and exactly as many digits as the number needs |
| `DecimalText.ValueOfDecimal` | src/main.rs:105-109 | the shortest decimal form reads back as the number |
| `DecimalText.ZeroFilledDecimalIsFixed` | src/main.rs:105-109 | zero-filling the shortest form to a width it fits in gives the fixed-width form |
| `PathBuilder.Pad3` | src/main.rs:105-109 | the written week has at least 3 characters: only digits for a week of 0 or more, a '-' and then digits for a negative week |
| `PathBuilder.Pad3RoundTrip` | src/main.rs:105-109 | the written week reads back as the week, so nothing is truncated or lost |
| `PathBuilder.Pad3Injective` | src/main.rs:105-109 | different weeks are written differently |
| `PathBuilder.Pad3ThreeDigits` | src/main.rs:105-109 | weeks 0 to 999 are written as exactly three zero-filled digits |
| `PathBuilder.Pad3NotTruncated` | src/main.rs:105-109 | weeks of 1000 or more are written in full, with more than three digits |
| `PathBuilder.Pad3LargeNegative` | src/main.rs:105-109 | weeks of -100 or less are a minus sign and the full shortest decimal form, with no zero-fill, so they take more than three characters |
| `PathBuilder.Pad3SmallNegative` | src/main.rs:105-109 | weeks -1 to -99 are a minus sign and two digits; the sign counts toward the width |
| `PathBuilder.Pad3Examples` | src/main.rs:105-109 | 3 → "003", 5 → "005", 42 → "042", 0 → "000", -5 → "-05", 1234 → "1234" |
| `PathBuilder.ReportPath` | src/main.rs:105-109 | the path is exactly 10 characters longer than the directory, the two words and the written week together ("/AN_", two '_' and ".pdf") |
| `PathBuilder.ReportPathLayout` | src/main.rs:105-109 | the path starts with the directory, "/AN_" and the last word, and ends with the written week followed by ".pdf" |
| `PathBuilder.FilePath` | src/main.rs:102-113 | gives a path exactly when the name has at least two words; otherwise it fails with the name-format error |
| `PathBuilder.FilePathOfName` | src/main.rs:103-109 | for a first word, any middle words and a last word, the path is `<dir>/AN_<last>_<first>_<pad3(week)>.pdf` |
| `PathBuilder.FilePathOnlyFirstAndLastMatter` | src/main.rs:103-109 | middle words and extra whitespace do not matter: the path equals the path of just "first last" |
| `PathBuilder.FilePathIgnoresSurroundingWhitespace` | src/main.rs:103-109 | whitespace before or after the name does not change the result, whether a path or an error |
| `PathBuilder.FilePathDistinguishesWeeks` | src/main.rs:105-109 | for one apprentice and directory, different weeks give different paths |
| `PathBuilder.FilePathRefusesShortNames` | src/main.rs:103-111 | a name with only whitespace or a single word is refused |
| `PathBuilder.FilePathExampleTwoWords` | src/main.rs:102-113 | "Jane Doe", "dir", 5 gives "dir/AN_Doe_Jane_005.pdf" |
| `PathBuilder.FilePathExampleMiddleWord` | src/main.rs:102-113 | "Jane Middle Doe", "dir", 5 gives "dir/AN_Doe_Jane_005.pdf" |
| `PathBuilder.FilePathExampleOneWord` | src/main.rs:102-113 | "Jane" is refused |
| `Repository.RepositoryName` | src/main.rs:69 | the result has the same length as the name and contains no space; each space becomes '_' and every other character, tabs included, stays the same |
| `Repository.RepositoryNameFixedPoints` | src/main.rs:69 | a name is its own repository name exactly when it has no space, and renaming a second time changes nothing |
| `Repository.RepositoryNameExamples` | src/main.rs:69 | "Jane Doe" becomes "Jane_Doe"; "Jane\tDoe" is unchanged |

## Left out

- Configuration bootstrap and reading (src/main.rs:33-55). These are file-system I/O: finding the config directory, writing the sample file, reading the file.
- JSON deserialisation of the configuration (src/main.rs:54-55). It is done by a foreign library. The model takes the start-date text and each apprentice name as inputs.
- The GitHub client and `get_file` (src/main.rs:57-58, 115-137). These are asynchronous network calls. Their "Not Found" classification wraps an opaque library error.
- The interactive week prompt (src/main.rs:62-66). The chosen week is any integer passed to `PathBuilder.FilePath`.
- The loop over apprentices and its "file non-existing" message (src/main.rs:68-82). The loop only sequences the I/O above. The repository-name mapping inside it is modelled.
- The clock (src/main.rs:89). Today is a parameter: the day number of the local calendar date. Time zones are not modelled.
- Calendar.ParseDate: accepts only the strict form, with four year digits and two digits each for month and day. The date library's `%Y-%m-%d` reader is more lenient: it also accepts one-digit months and days, one- to three-digit years, and signed years of any width. That leniency lives in a library outside this model.
- WeekCalculator.MondayOf: does not model the panic of `checked_sub_days(..).unwrap()` at the lower end of the library's date range. Integers here are unbounded. Dates with a four-digit year are far from that range.
- WeekCalculator.NumWeeks: works on whole days. The library computes `num_weeks` from a seconds-based duration, which gives the same result for whole-day differences.
- The 64-bit width of the week (`i64`) is not modelled. A week derived from a four-digit-year date and today's date cannot come near that bound.
- The conversion from a day number back to a calendar date is not modelled. The model does not need it, because today is given as a day number.
