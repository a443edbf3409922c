/** The two date patterns of the parser, as deterministic scanners:
    the calendar date `^(\d{4})-?(\d{2})-?(\d{2})$` and the week date
    `^(\d{4})-W(\d{2})-(\d{1})$`, over ASCII digits. */
module DateGrammar {
  import opened Wrappers
  import opened Digits

  /** A calendar-date match: the three capture groups, and which of the two
      optional dashes were present. */
  datatype CalendarMatch = CalendarMatch(year: string, month: string, day: string, dash1: bool, dash2: bool)

  /** A week-date match: the three capture groups. */
  datatype WeekMatch = WeekMatch(year: string, week: string, weekday: string)

  predicate IsDigits(s: string, n: nat) {
    |s| == n && AllDigits(s)
  }

  predicate WellFormedCalendar(m: CalendarMatch) {
    IsDigits(m.year, 4) && IsDigits(m.month, 2) && IsDigits(m.day, 2)
  }

  predicate WellFormedWeek(m: WeekMatch) {
    IsDigits(m.year, 4) && IsDigits(m.week, 2) && IsDigits(m.weekday, 1)
  }

  function DashText(present: bool): string {
    if present then "-" else ""
  }

  /** The text a calendar-date match spells out. */
  function CalendarText(m: CalendarMatch): string {
    m.year + DashText(m.dash1) + m.month + DashText(m.dash2) + m.day
  }

  /** The text a week-date match spells out. */
  function WeekText(m: WeekMatch): string {
    m.year + "-W" + m.week + "-" + m.weekday
  }

  /** Every character is a digit or a dash. */
  predicate DigitsAndDashes(s: string) {
    forall i | 0 <= i < |s| :: IsDigit(s[i]) || s[i] == '-'
  }

  /** Scans `s` against the calendar-date pattern. Each `-?` is greedy, but a
      dash and a digit never compete for the same character, so no choice is
      ever undone. A match spells out exactly `s`, so it holds no `W`. */
  function MatchCalendar(s: string): (r: Option<CalendarMatch>)
    ensures r.Some? ==> WellFormedCalendar(r.value) && CalendarText(r.value) == s
    ensures r.Some? ==> 'W' !in s
  {
    if |s| < 4 || !AllDigits(s[..4]) then None
    else
      var i := if 4 < |s| && s[4] == '-' then 5 else 4;
      if i + 2 > |s| || !AllDigits(s[i..i + 2]) then None
      else
        var j := if i + 2 < |s| && s[i + 2] == '-' then i + 3 else i + 2;
        if j + 2 != |s| || !AllDigits(s[j..]) then None
        else
          var m := CalendarMatch(s[..4], s[i..i + 2], s[j..], i == 5, j == i + 3);
          assert CalendarText(m) == s;
          assert DigitsAndDashes(s) by {
            forall k | 0 <= k < |s| ensures IsDigit(s[k]) || s[k] == '-' {
              if k < 4 {
                assert s[k] == s[..4][k];
              } else if k < i {
              } else if k < i + 2 {
                assert s[k] == s[i..i + 2][k - i];
              } else if k < j {
              } else {
                assert s[k] == s[j..][k - j];
              }
            }
          }
          Some(m)
  }

  /** Scans `s` against the week-date pattern: exactly ten characters. */
  function MatchWeek(s: string): (r: Option<WeekMatch>)
    ensures r.Some? ==> WellFormedWeek(r.value) && WeekText(r.value) == s
    ensures r.Some? ==> s[5] == 'W'
  {
    if |s| == 10 && AllDigits(s[..4]) && s[4] == '-' && s[5] == 'W'
       && AllDigits(s[6..8]) && s[8] == '-' && IsDigit(s[9])
    then
      var m := WeekMatch(s[..4], s[6..8], s[9..]);
      assert WeekText(m) == s;
      Some(m)
    else None
  }

  /** Every well-formed calendar match is found again in the text it spells:
      together with the contract of `MatchCalendar`, the scanner accepts exactly
      the pattern's language and returns the same groups. */
  lemma CalendarRoundTrip(m: CalendarMatch)
    requires WellFormedCalendar(m)
    ensures MatchCalendar(CalendarText(m)) == Some(m)
  {
    var s := CalendarText(m);
    var i := if m.dash1 then 5 else 4;
    var j := i + 2 + (if m.dash2 then 1 else 0);
    assert s[..4] == m.year;
    assert s[i..i + 2] == m.month;
    assert s[j..] == m.day;
    assert m.dash1 <==> s[4] == '-' by {
      if !m.dash1 { assert s[4] == m.month[0]; }
    }
    assert m.dash2 <==> s[i + 2] == '-' by {
      if !m.dash2 { assert s[i + 2] == m.day[0]; }
    }
  }

  /** The same for the week-date pattern. */
  lemma WeekRoundTrip(m: WeekMatch)
    requires WellFormedWeek(m)
    ensures MatchWeek(WeekText(m)) == Some(m)
  {
    var s := WeekText(m);
    assert s[..4] == m.year;
    assert s[6..8] == m.week;
    assert s[9..] == m.weekday;
  }

  /** Both dashes are optional, each on its own: with neither, either or
      both, the same groups are read. */
  lemma OptionalDashes(y: string, mo: string, d: string)
    requires IsDigits(y, 4) && IsDigits(mo, 2) && IsDigits(d, 2)
    ensures MatchCalendar(y + mo + d) == Some(CalendarMatch(y, mo, d, false, false))
    ensures MatchCalendar(y + "-" + mo + d) == Some(CalendarMatch(y, mo, d, true, false))
    ensures MatchCalendar(y + mo + "-" + d) == Some(CalendarMatch(y, mo, d, false, true))
    ensures MatchCalendar(y + "-" + mo + "-" + d) == Some(CalendarMatch(y, mo, d, true, true))
  {
    assert MatchCalendar(y + mo + d) == Some(CalendarMatch(y, mo, d, false, false)) by {
      var m := CalendarMatch(y, mo, d, false, false);
      assert CalendarText(m) == y + mo + d;
      CalendarRoundTrip(m);
    }
    assert MatchCalendar(y + "-" + mo + d) == Some(CalendarMatch(y, mo, d, true, false)) by {
      var m := CalendarMatch(y, mo, d, true, false);
      assert CalendarText(m) == y + "-" + mo + d;
      CalendarRoundTrip(m);
    }
    assert MatchCalendar(y + mo + "-" + d) == Some(CalendarMatch(y, mo, d, false, true)) by {
      var m := CalendarMatch(y, mo, d, false, true);
      assert CalendarText(m) == y + mo + "-" + d;
      CalendarRoundTrip(m);
    }
    assert MatchCalendar(y + "-" + mo + "-" + d) == Some(CalendarMatch(y, mo, d, true, true)) by {
      var m := CalendarMatch(y, mo, d, true, true);
      assert CalendarText(m) == y + "-" + mo + "-" + d;
      CalendarRoundTrip(m);
    }
  }

  /** The week form needs `-W`, exactly two week digits and one weekday digit. */
  lemma WeekFormIsStrict()
    ensures MatchWeek("2014-W52-4") == Some(WeekMatch("2014", "52", "4"))
    ensures MatchWeek("2014W52-4").None?
    ensures MatchWeek("2014-W5-4").None?
    ensures MatchWeek("2014-W52-45").None?
    ensures MatchWeek("2014-W52").None?
  {
    WeekRoundTrip(WeekMatch("2014", "52", "4"));
    assert WeekText(WeekMatch("2014", "52", "4")) == "2014-W52-4";
  }

  /** No string matches both patterns: calendar dates hold no `W`, week dates do. */
  lemma GrammarsDisjoint(s: string)
    ensures !(MatchCalendar(s).Some? && MatchWeek(s).Some?)
  {
  }
}
