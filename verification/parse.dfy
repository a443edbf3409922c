/** The ISO 8601 entry points: splitting a date-time string at its `T`, the
    date parser, the time parser, the combined parser and the zoned parser.
    The date and time values and the constructors that build them belong to
    other parts of the library; they reach this module as `Collaborators`. */
module Parse {
  import opened Ints
  import opened Wrappers
  import opened Digits
  import opened Decimal
  import opened Units
  import opened Split
  import opened DateGrammar
  import opened TimeGrammar
  import opened TimeTuple

  datatype TimeZone = UTC | Offset(hours: I8, minutes: I8)

  /** `LocalDateTime::from_date_time`: a date and a time, side by side. */
  datatype LocalDateTime<D, T> = LocalDateTime(date: D, time: T)

  /** The constructors the parser calls, with the results they hand back:
      `Month::from_one`, `LocalDate::new`, `LocalDate::from_weekday`,
      `LocalTime::hms`, `LocalTime::hms_ms` and `TimeZone::of_hours_and_minutes`.
      `None` is a rejection of the arguments; what each accepts is theirs to decide.
      `Month::from_one` returns a bare `Month` and `of_hours_and_minutes` a bare
      `TimeZone`, so their only way to reject is a panic: their `None` here
      stands for that panic. */
  datatype Collaborators<D, T> = Collaborators(
    monthFromOne: I8 -> Option<Month>,
    newDate: (I64, Month, I8) -> Option<D>,
    fromWeekday: (int, int, int) -> Option<D>,
    hms: (I8, I8, I8) -> Option<T>,
    hmsMs: (I8, I8, I8, I16) -> Option<T>,
    ofHoursAndMinutes: (I8, I8) -> Option<TimeZone>)

  // ----- Dates -----

  /** The calendar branch: the three groups parsed, the month turned into a
      `Month`, the date built, and its `unwrap`. Any rejection is a panic. */
  function CalendarDate<D, T>(c: Collaborators<D, T>, m: CalendarMatch): (r: Outcome<D>)
    requires WellFormedCalendar(m)
    ensures c.monthFromOne(Value(m.month)).None? ==> r.Panicked?
    ensures c.monthFromOne(Value(m.month)).Some? ==>
      r == Unwrap(c.newDate(Value(m.year), c.monthFromOne(Value(m.month)).value, Value(m.day)))
    ensures r != Returned(None)
  {
    ParseDigits(m.year);
    ParseDigits(m.month);
    ParseDigits(m.day);
    assert Pow10(2) == 100 && Pow10(4) == 10000;
    var year := ParseI64(m.year).value;
    var day := ParseI8(m.day).value;
    match c.monthFromOne(ParseI8(m.month).value)
    case None => Panicked
    case Some(month) => Unwrap(c.newDate(year, month, day))
  }

  /** The week branch: the three groups parsed and handed to `from_weekday`,
      then its `unwrap`. */
  function WeekDate<D, T>(c: Collaborators<D, T>, m: WeekMatch): (r: Outcome<D>)
    requires WellFormedWeek(m)
    ensures r.Panicked? <==> c.fromWeekday(Value(m.year), Value(m.week), Value(m.weekday)).None?
    ensures r.Returned? ==> r.result == c.fromWeekday(Value(m.year), Value(m.week), Value(m.weekday))
  {
    ParseDigits(m.year);
    ParseDigits(m.week);
    ParseDigits(m.weekday);
    Unwrap(c.fromWeekday(ParseDecimal(m.year).value, ParseDecimal(m.week).value, ParseDecimal(m.weekday).value))
  }

  /** `parse_iso_8601_date`: the calendar pattern first, the week pattern
      second. `None` comes back exactly when neither pattern matches: once one
      matches, the result is a date or a panic. */
  function ParseIso8601Date<D, T>(c: Collaborators<D, T>, s: string): (r: Outcome<D>)
    ensures r == Returned(None) <==> MatchCalendar(s).None? && MatchWeek(s).None?
    ensures r.HasValue() ==> MatchCalendar(s).Some? || MatchWeek(s).Some?
  {
    match MatchCalendar(s)
    case Some(m) => CalendarDate(c, m)
    case None =>
      match MatchWeek(s)
      case Some(m) => WeekDate(c, m)
      case None => Returned(None)
  }

  /** Writing a calendar date as `YYYY[-]MM[-]DD` and parsing it hands exactly
      the written year, month and day to the constructors. */
  lemma CalendarDateRoundTrip<D, T>(c: Collaborators<D, T>, year: nat, month: nat, day: nat, dash1: bool, dash2: bool)
    requires year < 10000 && month < 100 && day < 100
    ensures var text := CalendarText(CalendarMatch(Pad(year, 4), Pad(month, 2), Pad(day, 2), dash1, dash2));
      ParseIso8601Date(c, text)
        == match c.monthFromOne(month)
           case None => Panicked
           case Some(mo) => Unwrap(c.newDate(year, mo, day))
  {
    assert Pow10(2) == 100 && Pow10(4) == 10000;
    var m := CalendarMatch(Pad(year, 4), Pad(month, 2), Pad(day, 2), dash1, dash2);
    CalendarRoundTrip(m);
  }

  /** Writing a week date as `YYYY-Www-D` and parsing it hands exactly the
      written year, week and weekday to `from_weekday`. */
  lemma WeekDateRoundTrip<D, T>(c: Collaborators<D, T>, year: nat, week: nat, weekday: nat)
    requires year < 10000 && week < 100 && weekday < 10
    ensures ParseIso8601Date(c, WeekText(WeekMatch(Pad(year, 4), Pad(week, 2), Pad(weekday, 1))))
         == Unwrap(c.fromWeekday(year, week, weekday))
  {
    assert Pow10(1) == 10 && Pow10(2) == 100 && Pow10(4) == 10000;
    var m := WeekMatch(Pad(year, 4), Pad(week, 2), Pad(weekday, 1));
    WeekRoundTrip(m);
    GrammarsDisjoint(WeekText(m));
  }

  /** Every text the calendar pattern accepts is one of the texts
      `CalendarDateRoundTrip` speaks of: its groups are the padded numbers they spell. */
  lemma CalendarTextsCovered(s: string)
    requires MatchCalendar(s).Some?
    ensures var m := MatchCalendar(s).value;
      && Value(m.year) < 10000 && Value(m.month) < 100 && Value(m.day) < 100
      && s == CalendarText(CalendarMatch(Pad(Value(m.year), 4), Pad(Value(m.month), 2), Pad(Value(m.day), 2), m.dash1, m.dash2))
  {
    var m := MatchCalendar(s).value;
    assert Pow10(2) == 100 && Pow10(4) == 10000;
    PadValue(m.year);
    PadValue(m.month);
    PadValue(m.day);
  }

  /** The same for the week pattern and `WeekDateRoundTrip`. */
  lemma WeekTextsCovered(s: string)
    requires MatchWeek(s).Some?
    ensures var m := MatchWeek(s).value;
      && Value(m.year) < 10000 && Value(m.week) < 100 && Value(m.weekday) < 10
      && s == WeekText(WeekMatch(Pad(Value(m.year), 4), Pad(Value(m.week), 2), Pad(Value(m.weekday), 1)))
  {
    var m := MatchWeek(s).value;
    assert Pow10(1) == 10 && Pow10(2) == 100 && Pow10(4) == 10000;
    PadValue(m.year);
    PadValue(m.week);
    PadValue(m.weekday);
  }

  /** The empty string is not a date. */
  lemma EmptyDateFails<D, T>(c: Collaborators<D, T>)
    ensures ParseIso8601Date(c, "") == Returned(None)
  {
  }

  /** `1985-04-12` is the date the constructor builds from 1985, April and 12,
      given that month number 4 is April. */
  lemma DateExample<D, T>(c: Collaborators<D, T>, s: string)
    requires s == "1985-04-12" && c.monthFromOne(4) == Some(April)
    ensures ParseIso8601Date(c, s) == Unwrap(c.newDate(1985, April, 12))
  {
    var m := CalendarMatch("1985", "04", "12", true, true);
    DateExampleMatch(s);
    assert Value(m.year) == 1985 && Value(m.month) == 4 && Value(m.day) == 12 by {
      ValueOfFour("1985");
      ValueOfTwo("04");
      ValueOfTwo("12");
    }
  }

  lemma DateExampleMatch(s: string)
    requires s == "1985-04-12"
    ensures MatchCalendar(s) == Some(CalendarMatch("1985", "04", "12", true, true))
  {
    assert s == "1985" + "-" + "04" + "-" + "12";
    OptionalDashes("1985", "04", "12");
  }

  /** A well-formed text with month 13 is never reported as "not a date":
      the month constructor's rejection ends the parse in a panic. */
  lemma MonthThirteenPanics<D, T>(c: Collaborators<D, T>, year: string, day: string)
    requires IsDigits(year, 4) && IsDigits(day, 2) && c.monthFromOne(13).None?
    ensures ParseIso8601Date(c, CalendarText(CalendarMatch(year, "13", day, true, true))) == Panicked
  {
    var m := CalendarMatch(year, "13", day, true, true);
    CalendarRoundTrip(m);
    ValueOfTwo("13");
  }

  // ----- Times -----

  /** `parse_iso_8601_time`: the empty string is midnight (and a panic if the
      constructor rejects midnight); anything else goes through the time
      pattern, whose zone groups are read and then dropped, and never panics. */
  function ParseIso8601Time<D, T>(c: Collaborators<D, T>, s: string): (r: Outcome<T>)
    ensures s == "" ==> r == Unwrap(c.hms(0, 0, 0))
    ensures s != "" ==> r.Returned?
    ensures s != "" && MatchTime(s).None? ==> r == Returned(None)
    ensures s != "" && MatchTime(s).Some? ==> r == Returned(c.hmsMs(Value(s[..2]), ParseTuple(s).value.minute,
      ParseTuple(s).value.second, AsI16(ParseTuple(s).value.millisecond)))
  {
    if s == "" then Unwrap(c.hms(0, 0, 0))
    else
      match ParseTuple(s)
      case None => Returned(None)
      case Some(t) => Returned(c.hmsMs(t.hour, t.minute, t.second, AsI16(t.millisecond)))
  }

  /** For a colon-separated time the constructor receives the written hour,
      minute, second and fraction (the latter two 0 when absent), the fraction
      cut to 16 bits. */
  lemma TimeOfColonForm<D, T>(c: Collaborators<D, T>, t: TimeMatch)
    requires WellFormed(t) && ColonSeparated(t)
    ensures var tuple := TupleOf(t);
      ParseIso8601Time(c, TimeText(t))
        == Returned(c.hmsMs(Value(t.head.hour), tuple.minute, tuple.second, AsI16(tuple.millisecond)))
  {
    ColonFormTuple(TimeText(t), t);
  }

  /** The zone written after a colon-separated time does not change the time. */
  lemma TimeIgnoresZone<D, T>(c: Collaborators<D, T>, t: TimeMatch)
    requires WellFormed(t) && ColonSeparated(t)
    ensures ParseIso8601Time(c, TimeText(t)) == ParseIso8601Time(c, TimeText(t.(zone := NoZone)))
  {
    TimeOfColonForm(c, t);
    TimeOfColonForm(c, t.(zone := NoZone));
  }

  /** A fraction of more than four digits wraps when cut to 16 bits:
      `.123456` reaches the constructor as -7616. */
  lemma MillisecondWraps<D, T>(c: Collaborators<D, T>, hh: string, mm: string, ss: string)
    requires IsTwoDigits(hh) && IsTwoDigits(mm) && IsTwoDigits(ss)
    ensures ParseIso8601Time(c, hh + ":" + mm + ":" + ss + "." + "123456")
         == Returned(c.hmsMs(Value(hh), Value(mm), Value(ss), -7616))
  {
    ValueOfSixDigits();
    FractionReadAsWritten(hh, mm, ss, "123456");
    AsI16Wraps();
  }

  lemma ValueOfSixDigits()
    ensures Value("123456") == 123456
  {
    var s := "123456";
    assert s[..5] == "12345" && s[..5][..4] == "1234" && s[..5][..4][..3] == "123";
    assert s[..5][..4][..3][..2] == "12" && s[..5][..4][..3][..2][..1] == "1";
    assert Value("1") == 1;
    assert Value("12") == 12;
    assert Value("123") == 123;
    assert Value("1234") == 1234;
    assert Value("12345") == 12345;
  }

  // ----- Date and time -----

  /** `parse_iso_8601`: split at the first `T` (a panic when the split fails),
      then parse both halves; a value only when both halves give one, a panic
      when either half panics. */
  function ParseIso8601<D, T>(c: Collaborators<D, T>, s: string): (r: Outcome<LocalDateTime<D, T>>)
    ensures r.Panicked? <==> (
      || SplitIso8601(s).None?
      || ParseIso8601Date(c, SplitIso8601(s).value.0).Panicked?
      || ParseIso8601Time(c, SplitIso8601(s).value.1).Panicked?)
    ensures r.HasValue() <==> (
      && SplitIso8601(s).Some?
      && ParseIso8601Date(c, SplitIso8601(s).value.0).HasValue()
      && ParseIso8601Time(c, SplitIso8601(s).value.1).HasValue())
    ensures r.HasValue() ==> r.result.value == LocalDateTime(
      ParseIso8601Date(c, SplitIso8601(s).value.0).result.value,
      ParseIso8601Time(c, SplitIso8601(s).value.1).result.value)
  {
    match SplitIso8601(s)
    case None => Panicked
    case Some((dateText, timeText)) =>
      var date := ParseIso8601Date(c, dateText);
      var time := ParseIso8601Time(c, timeText);
      if date.Panicked? || time.Panicked? then Panicked
      else if date.result.Some? && time.result.Some? then
        Returned(Some(LocalDateTime(date.result.value, time.result.value)))
      else Returned(None)
  }

  /** A date and a time joined by `T` parse to the two halves' values. */
  lemma DateTimeJoin<D, T>(c: Collaborators<D, T>, date: string, time: string)
    requires 'T' !in date && '\n' !in time
    ensures var r := ParseIso8601(c, date + "T" + time);
      && (r.HasValue() <==> ParseIso8601Date(c, date).HasValue() && ParseIso8601Time(c, time).HasValue())
      && (r.HasValue() ==>
            r.result.value == LocalDateTime(ParseIso8601Date(c, date).result.value, ParseIso8601Time(c, time).result.value))
  {
    SplitJoin(date, time);
  }

  /** A date without a time is that date at midnight. */
  lemma BareDateIsMidnight<D, T>(c: Collaborators<D, T>, date: string)
    requires 'T' !in date
    ensures var r := ParseIso8601(c, date);
      && (r.HasValue() <==> ParseIso8601Date(c, date).HasValue() && c.hms(0, 0, 0).Some?)
      && (r.HasValue() ==> r.result.value == LocalDateTime(ParseIso8601Date(c, date).result.value, c.hms(0, 0, 0).value))
  {
  }

  /** A line break after the `T` makes the split fail, and its `unwrap` panics. */
  lemma NewlineAfterTPanics<D, T>(c: Collaborators<D, T>, date: string, time: string)
    requires 'T' !in date && '\n' in time
    ensures ParseIso8601(c, date + "T" + time) == Panicked
    ensures ParseIso8601Zoned(c, date + "T" + time) == Panicked
  {
    SplitNewlineFails(date, time);
  }

  // ----- Zoned date and time -----

  /** The zone of a matched time: UTC for `Z`, otherwise built from the zone
      hour and minute (both 0 when the text names no zone); `None` when
      `of_hours_and_minutes` panics. */
  function ZoneOf<D, T>(c: Collaborators<D, T>, t: TimeTuple): (z: Option<TimeZone>)
    ensures t.marker == "Z" ==> z == Some(UTC)
    ensures t.marker != "Z" ==> z == c.ofHoursAndMinutes(t.zoneHour, t.zoneMinute)
    ensures z.None? ==> t.marker != "Z"
  {
    if t.marker == "Z" then Some(UTC) else c.ofHoursAndMinutes(t.zoneHour, t.zoneMinute)
  }

  /** `parse_iso_8601_zoned`: split (a panic when the split fails), parse the
      date, read the time tuple. A date with a matching time gives that time and
      its zone, or `None` if `hms_ms` rejects it; a date with a time that does
      not match is midnight UTC. Without a date the result is `None`. The zone
      is built only once `hms_ms` has accepted the time. */
  function ParseIso8601Zoned<D, T>(c: Collaborators<D, T>, s: string): (r: Outcome<(LocalDateTime<D, T>, TimeZone)>)
    ensures r.Panicked? <==>
      || SplitIso8601(s).None?
      || ParseIso8601Date(c, SplitIso8601(s).value.0).Panicked?
      || (&& ParseIso8601Date(c, SplitIso8601(s).value.0).HasValue()
          && ParseTuple(SplitIso8601(s).value.1).Some?
          && var t := ParseTuple(SplitIso8601(s).value.1).value;
             c.hmsMs(t.hour, t.minute, t.second, AsI16(t.millisecond)).Some? && ZoneOf(c, t).None?)
    ensures r.HasValue() <==>
      && SplitIso8601(s).Some?
      && ParseIso8601Date(c, SplitIso8601(s).value.0).HasValue()
      && if ParseTuple(SplitIso8601(s).value.1).Some? then
           var t := ParseTuple(SplitIso8601(s).value.1).value;
           c.hmsMs(t.hour, t.minute, t.second, AsI16(t.millisecond)).Some? && ZoneOf(c, t).Some?
         else c.hms(0, 0, 0).Some?
    ensures r.HasValue() ==>
      r.result.value.0.date == ParseIso8601Date(c, SplitIso8601(s).value.0).result.value
    ensures r.HasValue() && ParseTuple(SplitIso8601(s).value.1).None? ==>
      r.result.value.1 == UTC && c.hms(0, 0, 0) == Some(r.result.value.0.time)
    ensures r.HasValue() && ParseTuple(SplitIso8601(s).value.1).Some? ==>
      var t := ParseTuple(SplitIso8601(s).value.1).value;
      && c.hmsMs(t.hour, t.minute, t.second, AsI16(t.millisecond)) == Some(r.result.value.0.time)
      && ZoneOf(c, t) == Some(r.result.value.1)
  {
    match SplitIso8601(s)
    case None => Panicked
    case Some((dateText, timeText)) =>
      var date := ParseIso8601Date(c, dateText);
      var tuple := ParseTuple(timeText);
      if date.Panicked? then Panicked
      else if date.result.None? then Returned(None)
      else if tuple.Some? then
        var t := tuple.value;
        match c.hmsMs(t.hour, t.minute, t.second, AsI16(t.millisecond))
        case Some(time) =>
          (match ZoneOf(c, t)
           case Some(zone) => Returned(Some((LocalDateTime(date.result.value, time), zone)))
           case None => Panicked)
        case None => Returned(None)
      else
        match c.hms(0, 0, 0)
        case Some(time) => Returned(Some((LocalDateTime(date.result.value, time), UTC)))
        case None => Returned(None)
  }

  /** A matched time has no line break, so it always survives the split. */
  lemma NoLineBreakInTime(t: TimeMatch)
    requires WellFormed(t)
    ensures '\n' !in TimeText(t)
  {
    assert '\n' !in t.head.hour;
    assert '\n' !in OptText(t.head.minute);
    assert '\n' !in ZoneText(t.zone) by {
      if t.zone.ZoneOffset? {
        assert '\n' !in OptText(t.zone.hour);
        assert '\n' !in OptText(t.zone.minute);
      }
    }
    assert '\n' !in SecondOnText(t) by {
      if t.second.Some? {
        assert '\n' !in t.second.value.digits;
        assert '\n' !in OptText(t.second.value.fraction);
      }
    }
  }

  /** A date with a colon-separated time: the time is built by `hms_ms` from the
      written fields, and the zone comes from the time's marker or offset;
      a rejection by `hms_ms` is `None`, never a fallback to midnight, and a
      panic of `of_hours_and_minutes` is a panic of the parse. */
  lemma ZonedColonForm<D, T>(c: Collaborators<D, T>, date: string, t: TimeMatch)
    requires 'T' !in date && ParseIso8601Date(c, date).HasValue()
    requires WellFormed(t) && ColonSeparated(t)
    ensures var tuple := TupleOf(t);
      ParseIso8601Zoned(c, date + "T" + TimeText(t))
        == match c.hmsMs(tuple.hour, tuple.minute, tuple.second, AsI16(tuple.millisecond))
           case None => Returned(None)
           case Some(time) =>
             match ZoneOf(c, tuple)
             case None => Panicked
             case Some(zone) => Returned(Some((LocalDateTime(ParseIso8601Date(c, date).result.value, time), zone)))
  {
    NoLineBreakInTime(t);
    SplitJoin(date, TimeText(t));
    ColonFormTuple(TimeText(t), t);
    ZonedOfParts(c, date + "T" + TimeText(t), date, TimeText(t), TupleOf(t));
  }

  /** Once the split and the tuple are known, the zoned parse is the `hms_ms`
      arm of the match. */
  lemma ZonedOfParts<D, T>(c: Collaborators<D, T>, s: string, date: string, time: string, tuple: TimeTuple)
    requires SplitIso8601(s) == Some((date, time)) && ParseIso8601Date(c, date).HasValue()
    requires ParseTuple(time) == Some(tuple)
    ensures ParseIso8601Zoned(c, s)
        == match c.hmsMs(tuple.hour, tuple.minute, tuple.second, AsI16(tuple.millisecond))
           case None => Returned(None)
           case Some(time) =>
             match ZoneOf(c, tuple)
             case None => Panicked
             case Some(zone) => Returned(Some((LocalDateTime(ParseIso8601Date(c, date).result.value, time), zone)))
  {
  }

  /** `Z` names UTC. */
  lemma ZuluIsUtc<D, T>(c: Collaborators<D, T>, t: TimeMatch)
    requires WellFormed(t) && t.zone.Zulu?
    ensures ZoneOf(c, TupleOf(t)) == Some(UTC)
  {
  }

  /** A signed offset `±hh:mm` is handed to `of_hours_and_minutes` with its
      sign on the hour and the minute as written. */
  lemma OffsetZone<D, T>(c: Collaborators<D, T>, t: TimeMatch)
    requires WellFormed(t) && t.zone.ZoneOffset? && t.zone.hour.Some? && t.zone.minute.Some?
    ensures ZoneOf(c, TupleOf(t)) == c.ofHoursAndMinutes(SignedValue(t.zone.hour.value), Value(t.zone.minute.value))
  {
  }

  /** `OffsetZone` with the hour and the minute already read. */
  lemma OffsetZoneOf<D, T>(c: Collaborators<D, T>, t: TimeMatch, hour: I8, minute: I8)
    requires WellFormed(t) && t.zone.ZoneOffset? && t.zone.hour.Some? && t.zone.minute.Some?
    requires SignedValue(t.zone.hour.value) == hour && Value(t.zone.minute.value) == minute
    ensures ZoneOf(c, TupleOf(t)) == c.ofHoursAndMinutes(hour, minute)
  {
    OffsetZone(c, t);
  }

  /** `+05:30` east of Greenwich is (5, 30) ... */
  lemma EastOffsetZone<D, T>(c: Collaborators<D, T>, t: TimeMatch)
    requires WellFormed(t) && t.zone == ZoneOffset(Some("+05"), true, Some("30"))
    ensures ZoneOf(c, TupleOf(t)) == c.ofHoursAndMinutes(5, 30)
  {
    ZoneSign();
    ValueOfTwo("30");
    OffsetZoneOf(c, t, 5, 30);
  }

  /** ... and `-05:30` west of it is (-5, 30): the minute carries no sign. */
  lemma WestOffsetZone<D, T>(c: Collaborators<D, T>, t: TimeMatch)
    requires WellFormed(t) && t.zone == ZoneOffset(Some("-05"), true, Some("30"))
    ensures ZoneOf(c, TupleOf(t)) == c.ofHoursAndMinutes(-5, 30)
  {
    ZoneSign();
    ValueOfTwo("30");
    OffsetZoneOf(c, t, -5, 30);
  }

  /** A time that names no zone does not go through the `Z` branch: the zone
      is built from the defaults, `of_hours_and_minutes(0, 0)`. */
  lemma NoZoneIsOffsetZero<D, T>(c: Collaborators<D, T>, t: TimeMatch)
    requires WellFormed(t) && t.zone.NoZone?
    ensures ZoneOf(c, TupleOf(t)) == c.ofHoursAndMinutes(0, 0)
  {
  }

  /** A time that does not match at all, the empty one included, is not an
      error for the zoned parser: the date is taken at midnight UTC. The plain
      date-time parser rejects the same non-empty text. */
  lemma MalformedTimeIsMidnightUtc<D, T>(c: Collaborators<D, T>, date: string, time: string)
    requires 'T' !in date && '\n' !in time && MatchTime(time).None?
    requires ParseIso8601Date(c, date).HasValue() && c.hms(0, 0, 0).Some?
    ensures ParseIso8601Zoned(c, date + "T" + time)
         == Returned(Some((LocalDateTime(ParseIso8601Date(c, date).result.value, c.hms(0, 0, 0).value), UTC)))
    ensures time != "" ==> ParseIso8601(c, date + "T" + time) == Returned(None)
  {
    SplitJoin(date, time);
  }

  /** Without a date there is nothing, whatever the time. */
  lemma ZonedNeedsDate<D, T>(c: Collaborators<D, T>, date: string, time: string)
    requires 'T' !in date && '\n' !in time && ParseIso8601Date(c, date) == Returned(None)
    ensures ParseIso8601Zoned(c, date + "T" + time) == Returned(None)
  {
    SplitJoin(date, time);
  }
}
