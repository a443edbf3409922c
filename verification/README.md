# ISO 8601 parsing and calendar compounds, in Dafny

This project models two parts of a Rust date-time library.

- The ISO 8601 string parsers:
  - splitting a date-time at its `T`;
  - the calendar-date (`YYYY[-]MM[-]DD`) and week-date (`YYYY-Www-D`) parser;
  - the time parser, and the tuple extractor behind it;
  - the combined parser and the zoned parser.
- The calendar compounds:
  - `YearMonth::day_count` and `YearMonth::day`;
  - `YearMonthDay::is_valid`;
  - the derived lexicographic order on `YearMonthDay`.

The model follows the code's structure:

- `Split`: the split at the first `T`.
- `DateGrammar` and `TimeGrammar`: the three patterns, as deterministic scanners. The time pattern is scanned with the regular-expression engine's leftmost-first priority. Each optional group prefers to participate, and the fraction prefers 9 digits down to 1. A match is found exactly when the text is in the pattern's language. For colon-separated text, the captures are exactly the groups the text was written with.
- `TimeTuple`: the capture groups turned into the seven-field tuple. The `unwrap_or` defaults are `"00"`, `"000"`, `"+00"` and `"_"`. The tuple models `str::parse` into `i8`/`i32`, the `trim_matches('+')` on the zone hour, and the `unwrap`s, which cannot fail.
- `Parse`: the four public parsers.
- `Compounds`: the year-month and year-month-day types.
- Support modules:
  - `Wrappers`: `Option`, and the `Outcome` of a Rust call.
  - `Ints`: the integer widths and the `as i16` cast.
  - `Digits`: decimal digit strings.
  - `Decimal`: `str::parse`.
  - `Units`: months and the Gregorian leap rule.

A Rust function returning `Option` can also panic in an `unwrap`. Every parser therefore returns an `Outcome`: `Returned(Some(v))`, `Returned(None)` or `Panicked`. `Unwrap` is the model of a final `.unwrap()`.

The constructors the parser calls are taken as given functions, fields of a `Collaborators` value:

- `Month::from_one`
- `LocalDate::new`
- `LocalDate::from_weekday`
- `LocalTime::hms` and `LocalTime::hms_ms`
- `TimeZone::of_hours_and_minutes`

Every parser is modelled for every choice of them. Each returns an `Option`. For `Month::from_one`, which returns a bare `Month`, and `of_hours_and_minutes`, which returns a bare `TimeZone`, `None` stands for a panic of the constructor, and the parsers turn it into a panic. The date and time values are type parameters. `TimeZone` is the datatype `UTC | Offset(hours, minutes)`.

The calendar rules that `src/cal/compounds.rs` calls come from `cal/units.rs`: `Year::is_leap_year`, `Month::days_in_month` and the order of `Month`'s variants. `cal/units.rs` is not part of this model. Its behaviour is written out in `Units`: the Gregorian rule (divisible by 4, except centuries not divisible by 400), the usual month lengths, and months ordered January to December.

A month number that `Month::from_one` rejects, or a date that `LocalDate::new` rejects, panics; neither gives `None`. The closure passed to `captures(..).map` ends in `.unwrap()` of the constructor's result, so a rejected date panics inside the closure (src/parse.rs:46-51, and likewise `from_weekday` at 54-59). `Month::from_one` returns a bare `Month` that is passed straight to `LocalDate::new` (src/parse.rs:48), so its only way to reject a month number is a panic of its own; `monthFromOne`'s `None` stands for that panic. `ParseIso8601Date` is therefore `Returned(None)` exactly when neither pattern matches (`MonthThirteenPanics`).

## Model

| member | source | states |
|---|---|---|
| Compounds.DayCount | src/cal/compounds.rs:27-29 | The length of a month is 28 to 31 days. February has 29 days exactly in a leap year and 28 otherwise. Every other month's length does not depend on the year. |
| Compounds.DayCountExamples | src/cal/compounds.rs:24-25 | February 2000 has 29 days and February 1900 has 28. |
| Compounds.YearLength | src/cal/compounds.rs:27-29 | Summed over the twelve months, the day counts give 366 days in a leap year and 365 otherwise. |
| Compounds.Day | src/cal/compounds.rs:34-36 | `day` passes the year, the month and the day to the date constructor unchanged and returns its result. |
| Compounds.ValidityBoundaries | src/cal/compounds.rs:50-52 | No day at or below 0 is valid. The month's last day is valid, and the day after it is not. |
| Compounds.ValidityIgnoresYear | src/cal/compounds.rs:50-52 | Validity depends only on the month, the day and the leap flag passed in, never on the stored year. |
| Compounds.IsValid | src/cal/compounds.rs:50-52 | Days 1 to 28 are valid in every month and nothing above 31 is. Day 29 of February is valid exactly when the flag says leap year. When the flag is the stored year's own leap status, a date is valid exactly when 1 <= day <= that month's `day_count`. |
| Compounds.ValidDaysCount | src/cal/compounds.rs:50-52 | Exactly as many days are valid in a month as the month has days. |
| Compounds.CompareDates | src/cal/compounds.rs:39-44 | The derived order compares year, then month, then day. It says `Equal` exactly for equal dates. It agrees with comparing a single mixed-radix number built from the three fields. |
| Compounds.OrderKeyMonotone | src/cal/compounds.rs:39-44 | That number orders dates lexicographically by (year, month, day) and is injective. |
| Compounds.CompareDatesFlip | src/cal/compounds.rs:39-44 | Swapping the operands swaps `Less` and `Greater`. |
| Compounds.DateLeTotalOrder | src/cal/compounds.rs:39-44 | "At most" under the derived order is reflexive, antisymmetric, transitive and total. |
| Units.DaysInMonth | src/cal/compounds.rs:28 | A month is 28 to 31 days long, and 29 exactly for February in a leap year. |
| Units.IsLeapYear | src/cal/compounds.rs:28 | The Gregorian rule behind `is_leap_year`: a leap year is divisible by 4; a year divisible by 4 but not by 100 is leap, one divisible by 400 is leap, and a century not divisible by 400 is not. |
| Units.LeapYearPeriod | src/cal/compounds.rs:28 | The leap rule repeats every 400 years. |
| Split.SplitIso8601 | src/parse.rs:9-18 | Without a `T`, the whole string is the date and the time is empty. Otherwise the date is everything before the first `T` and the time everything after it, so date + "T" + time is the input. The split fails (is `None`) exactly when the string has a `T` and a line break follows the first one. |
| Split.SplitJoin | src/parse.rs:9-18 | A date without a `T`, a `T` and a time without a line break split back into that date and that time. |
| Split.SplitNewlineFails | src/parse.rs:9-18 | A line break after the first `T` makes the split `None`. |
| DateGrammar.MatchCalendar | src/parse.rs:39-43 | A calendar match has 4, 2 and 2 digits and optional dashes, and spells exactly the input. |
| DateGrammar.MatchWeek | src/parse.rs:34-38 | A week match has 4, 2 and 1 digits with the literal `-W` and `-`, and spells exactly the input. |
| DateGrammar.CalendarRoundTrip | src/parse.rs:39-43 | Every well-formed calendar text is matched, with exactly the groups and dashes it was written with. |
| DateGrammar.WeekRoundTrip | src/parse.rs:34-38 | Every well-formed week text is matched, with exactly its groups. |
| DateGrammar.OptionalDashes | src/parse.rs:39-43 | Each of the two dashes is optional on its own: four year digits, two month digits and two day digits are read as the same three groups with no dash, either dash or both (`19850412`, `1985-0412`, `198504-12`, `1985-04-12`). |
| DateGrammar.WeekFormIsStrict | src/parse.rs:34-38 | `2014-W52-4` matches. Without the first dash, with a one-digit week, with a two-digit weekday, or without a weekday, it does not. |
| DateGrammar.GrammarsDisjoint | src/parse.rs:45-61 | No text matches both patterns, so the calendar-first order never hides a week date. |
| TimeGrammar.MatchTime | src/parse.rs:105-120 | A match is well formed and spells exactly the input. Its hour is the first two characters. |
| TimeGrammar.MatchTimeComplete | src/parse.rs:105-120 | Every text in the pattern's language is matched. |
| TimeGrammar.MatchTimeColonForms | src/parse.rs:105-120 | For colon-separated text the match has exactly the groups the text was written with. |
| TimeGrammar.UnseparatedPriority | src/parse.rs:105-113 | Without colons the leftmost-first priority decides. `12345` is hour 12, no minute, second 34 and fraction 5, not hour 12 and minute 34. |
| TimeGrammar.HourIsMandatory | src/parse.rs:106 | Text that does not start with two digits never matches. |
| Decimal.ParseDecimal | src/parse.rs:125-130 | `str::parse` accepts exactly a non-empty ASCII digit string, optionally after one `+` or `-`. Its value is less than 10 to the power of the text's length in magnitude, and negative only after a `-`. |
| Decimal.ParseI8 | src/parse.rs:125-127 | `parse::<i8>` succeeds exactly when `str::parse` does and the number lies in -128..127. |
| Decimal.ParseI32 | src/parse.rs:128 | `parse::<i32>` succeeds exactly when `str::parse` does and the number fits in 32 bits. |
| Decimal.ParseI64 | src/parse.rs:47 | `parse::<i64>` of the year succeeds exactly when `str::parse` does and the number fits in 64 bits. |
| Wrappers.Option.UnwrapOr | src/parse.rs:125-131 | `unwrap_or` gives the carried value when there is one and the default otherwise. |
| TimeTuple.TrimMatches | src/parse.rs:129 | `trim_matches` leaves a result that neither starts nor ends with the trimmed character. |
| TimeTuple.TrimMatchesSlice | src/parse.rs:129 | The result is the contiguous slice of the input that starts where the leading run of the trimmed character ends, and everything cut from either end is that character. |
| TimeTuple.ReadTwoDigits | src/parse.rs:125-127 | A two-digit group reads as its value, and an absent group as 0. |
| TimeTuple.ReadFraction | src/parse.rs:128 | The fraction reads as the integer its digits spell, and an absent fraction as 0. |
| TimeTuple.ReadZoneHour | src/parse.rs:129 | A zone hour reads as its signed value, and an absent one as 0. |
| TimeTuple.ZoneHourParse | src/parse.rs:129 | `trim_matches('+')` drops a plus sign and keeps a minus sign. Either way the parse gives the signed value. |
| TimeTuple.TupleOf | src/parse.rs:123-132 | Each present group is read as written and each absent group takes its default. The marker is `Z` exactly for a `Z` zone and `_` otherwise. |
| TimeTuple.ParseTuple | src/parse.rs:104-140 | There is a tuple exactly when the time pattern matches. The hour is the first two characters, and every field lies in its type's range. |
| TimeTuple.ColonFormTuple | src/parse.rs:122-136 | For colon-separated text the tuple is read from exactly the written groups. |
| TimeTuple.HourOnlyDefaults | src/parse.rs:125-131 | `hh` alone gives (hh, 0, 0, 0, 0, 0, `_`). |
| TimeTuple.FractionReadAsWritten | src/parse.rs:125-131 | `hh:mm:ss.f` gives the written hour, minute and second, the fraction's integer value as the millisecond field, and the zone defaults. |
| TimeTuple.FractionUnscaled | src/parse.rs:128 | `.5` reads as 5 and `.500` as 500: the fraction is not scaled by its length. |
| TimeTuple.OffsetReadWithSign | src/parse.rs:125-131 | `hh:mm±zh:zm` gives the written hour and minute, the signed zone hour and the zone minute. |
| TimeTuple.ZoneSign | src/parse.rs:129 | `+05` reads as 5 and `-05` as -5. |
| TimeTuple.ZuluReadAsMarker | src/parse.rs:125-131 | `hh:mmZ` sets the marker to `Z` and leaves both offset fields at 0. |
| Ints.AsI16 | src/parse.rs:98 | `as i16` gives the 16-bit value congruent to its argument modulo 2^16. Values already in range are unchanged. |
| Ints.AsI16Unique | src/parse.rs:98 | No other 16-bit value is congruent, so the cast is fully determined. |
| Ints.AsI16Wraps | src/parse.rs:71 | 123456 becomes -7616, 40000 becomes -25536 and -40000 becomes 25536. |
| Wrappers.Unwrap | src/parse.rs:51 | `unwrap` panics exactly on `None` and otherwise returns the value. |
| Parse.CalendarDate | src/parse.rs:45-52 | The calendar branch hands the written year, month number and day to the constructors. A rejection of the month or of the date is a panic, never `None`. |
| Parse.WeekDate | src/parse.rs:53-60 | The week branch hands the written year, week and weekday to `from_weekday`. It panics exactly when that rejects them. |
| Parse.ParseIso8601Date | src/parse.rs:33-62 | The result is `None` exactly when neither pattern matches. A date comes back only from a match. |
| Parse.CalendarDateRoundTrip | src/parse.rs:45-52 | Any year below 10000, month and day below 100, written `YYYY[-]MM[-]DD`, reach the constructors unchanged. |
| Parse.WeekDateRoundTrip | src/parse.rs:53-60 | Any year, week and weekday written `YYYY-Www-D` reach `from_weekday` unchanged. |
| Parse.CalendarTextsCovered | src/parse.rs:39-52 | Every text the calendar pattern accepts is the padded spelling of a year below 10000 and a month and day below 100, so `CalendarDateRoundTrip` covers every accepted text. |
| Parse.WeekTextsCovered | src/parse.rs:34-38 | Every text the week pattern accepts is the padded spelling of a year below 10000, a week below 100 and a weekday below 10, so `WeekDateRoundTrip` covers every accepted text. |
| Parse.EmptyDateFails | src/parse.rs:154-158 | The empty string gives `None`. |
| Parse.DateExample | src/parse.rs:148-152 | `1985-04-12` is the date built from (1985, April, 12). |
| Parse.MonthThirteenPanics | src/parse.rs:45-52 | A well-formed date with month 13 panics when `from_one` rejects 13. It is never `None`. |
| Parse.ParseIso8601Time | src/parse.rs:93-101 | The empty string is midnight, or a panic if `hms` rejects it. Any other string never panics. It is `None` when the pattern does not match, and otherwise `hms_ms` of the read fields with the fraction cast to `i16`. |
| Parse.TimeOfColonForm | src/parse.rs:97-98 | A colon-separated time hands the written hour, minute and second and the cast fraction to `hms_ms`. |
| Parse.TimeIgnoresZone | src/parse.rs:97-98 | The zone after a colon-separated time does not change the parsed time. |
| Parse.MillisecondWraps | src/parse.rs:98 | The fraction `.123456` reaches `hms_ms` as -7616. |
| Parse.ParseIso8601 | src/parse.rs:21-27 | A failed split panics. Otherwise the result panics when either half panics. It has a value exactly when both halves do, and that value is the pair of the two. |
| Parse.DateTimeJoin | src/parse.rs:21-27 | `date` + "T" + `time` parses to the pair of the two halves' values, and to a value only when both halves have one. |
| Parse.BareDateIsMidnight | src/parse.rs:21-27 | A string without `T` is that date at `hms(0, 0, 0)`. |
| Parse.NewlineAfterTPanics | src/parse.rs:22 | A line break after the `T` makes both the plain and the zoned parser panic. |
| Parse.ZoneOf | src/parse.rs:72-76 | Marker `Z` gives UTC and never fails. Anything else gives `of_hours_and_minutes` of the zone fields, with its panic as `None`. |
| Parse.ParseIso8601Zoned | src/parse.rs:67-88 | It panics exactly when the split fails, the date panics, or `of_hours_and_minutes` panics after the date and `hms_ms` have accepted. It has a value exactly when the split and the date succeed and then either the time matches and `hms_ms` and the zone succeed, or the time does not match and `hms(0, 0, 0)` succeeds. A value always carries the parsed date. When the time does not match, the value is `hms(0, 0, 0)` in UTC. When it matches, the value is `hms_ms` of the tuple with the tuple's zone. |
| Parse.ZonedColonForm | src/parse.rs:69-80 | A date and a colon-separated time give `hms_ms` of the written fields with the written zone. A rejection by `hms_ms` is `None`, not midnight. A panic of `of_hours_and_minutes` is a panic of the parse. |
| Parse.ZuluIsUtc | src/parse.rs:72-73 | A `Z` zone is UTC. |
| Parse.OffsetZone | src/parse.rs:74-76 | An offset `±hh:mm` becomes `of_hours_and_minutes(±hh, mm)`. |
| Parse.EastOffsetZone | src/parse.rs:74-76 | `+05:30` becomes `of_hours_and_minutes(5, 30)`. |
| Parse.WestOffsetZone | src/parse.rs:74-76 | `-05:30` becomes `of_hours_and_minutes(-5, 30)`. |
| Parse.NoZoneIsOffsetZero | src/parse.rs:74-76 | A time naming no zone does not go through the `Z` branch: it gives `of_hours_and_minutes(0, 0)`. |
| Parse.MalformedTimeIsMidnightUtc | src/parse.rs:81-85 | A time text that does not match, the empty one included, gives the date at midnight UTC. The plain parser rejects the same non-empty text. |
| Parse.ZonedNeedsDate | src/parse.rs:86 | Without a date the zoned result is `None`, whatever the time. |

## Left out

- The regular-expression engine: the four patterns are modelled as hand-written scanners with the engine's leftmost-first choices, and nothing else of the `regex` crate is modelled.
- Unicode `\d`: the patterns' `\d` also matches non-ASCII decimal digits, which `str::parse` then rejects, so the `unwrap` panics. The model reads ASCII digits only.
- Constructor bodies: `LocalDate::new`, `LocalDate::from_weekday`, `Month::from_one`, `LocalTime::hms`, `LocalTime::hms_ms`, `TimeZone::of_hours_and_minutes` and `local::Date::ymd` are parameters. Their range rules, and the ISO week-to-date arithmetic, are not modelled.
- Parse.WeekDate: the integer widths of `from_weekday`'s parameters are not visible. The parsed year, week and weekday are handed over as unbounded integers; since they have at most four digits, they fit any width of 16 bits or more.
- `LocalDateTime::from_date_time` is modelled as pairing the date and the time.
- The commented-out fraction check at src/parse.rs:134-135 is not code and is not modelled.
- The formats listed only in comments at src/parse.rs:161-165 are not modelled. Ordinal dates and a week without a weekday are not accepted by the parser.
- The test module is modelled only as the statements `DateExample` and `EmptyDateFails`.
- `cal/units.rs` is not part of this model. The leap rule, month lengths and month order it supplies are written out in `Units` as the Gregorian calendar.
