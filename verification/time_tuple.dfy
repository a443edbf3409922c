/** `parse_iso_8601_tuple`: the time pattern's captures turned into numbers,
    with fixed defaults for the groups that did not participate. */
module TimeTuple {
  import opened Ints
  import opened Wrappers
  import opened Digits
  import opened Decimal
  import opened TimeGrammar

  /** The `unwrap_or` defaults, as the extractor spells them. */
  const DefaultTwoDigits: string := "00"
  const DefaultMillisecond: string := "000"
  const DefaultZoneHour: string := "+00"
  const NoMarker: string := "_"

  /** The extractor's result: hour, minute, second (`i8`), the fraction read as
      an `i32`, zone hour and zone minute (`i8`), and the marker `"Z"` or `"_"`. */
  datatype TimeTuple = TimeTuple(hour: I8, minute: I8, second: I8, millisecond: I32,
                                 zoneHour: I8, zoneMinute: I8, marker: string)

  function TrimStart(s: string, c: char): (r: string)
    ensures |r| <= |s| && r == s[|s| - |r|..]
    ensures |r| > 0 ==> r[0] != c
    ensures forall k | 0 <= k < |s| - |r| :: s[k] == c
  {
    if |s| > 0 && s[0] == c then TrimStart(s[1..], c) else s
  }

  function TrimEnd(s: string, c: char): (r: string)
    ensures |r| <= |s| && r == s[..|r|]
    ensures |r| > 0 ==> r[|r| - 1] != c
    ensures forall k | |r| <= k < |s| :: s[k] == c
  {
    if |s| > 0 && s[|s| - 1] == c then TrimEnd(s[..|s| - 1], c) else s
  }

  /** `str::trim_matches(c)`: drop every leading and trailing `c`. */
  function TrimMatches(s: string, c: char): (r: string)
    ensures |r| > 0 ==> r[0] != c && r[|r| - 1] != c
  {
    TrimEnd(TrimStart(s, c), c)
  }

  /** `TrimMatches` removes a run of `c` from each end and keeps the middle of
      `s` unchanged: the result starts where the leading run ends. */
  lemma TrimMatchesSlice(s: string, c: char)
    ensures var i := |s| - |TrimStart(s, c)|; var r := TrimMatches(s, c);
      && i + |r| <= |s| && r == s[i..i + |r|]
      && (forall k | 0 <= k < i :: s[k] == c)
      && (forall k | i + |r| <= k < |s| :: s[k] == c)
  {
    var front := TrimStart(s, c);
    var i := |s| - |front|;
    var r := TrimEnd(front, c);
    forall k | i + |r| <= k < |s|
      ensures s[k] == c
    {
      assert s[k] == front[k - i];
    }
  }

  /** The signed value of a zone hour `[+-]dd`. */
  function SignedValue(h: string): int
    requires IsSignedTwoDigits(h)
  {
    if h[0] == '-' then 0 - Value(h[1..]) as int else Value(h[1..])
  }

  lemma TwoDigitsParse(s: string)
    requires IsTwoDigits(s)
    ensures ParseI8(s) == Some(Value(s))
  {
    assert Pow10(2) == 100;
  }

  lemma FractionParse(s: string)
    requires IsFraction(s)
    ensures ParseI32(s) == Some(Value(s))
  {
    assert Pow10(|s|) <= Pow10(9) == 1_000_000_000 by {
      PowMonotone(|s|, 9);
    }
  }

  /** Trimming stops at once at a character other than the one trimmed. */
  lemma TrimStops(s: string, c: char)
    requires |s| > 0 && s[0] != c && s[|s| - 1] != c
    ensures TrimMatches(s, c) == s
  {
    assert TrimStart(s, c) == s;
    assert TrimEnd(s, c) == s;
  }

  /** `+dd` loses its plus sign; `-dd` keeps its minus sign; both then parse. */
  lemma ZoneHourParse(h: string)
    requires IsSignedTwoDigits(h)
    ensures h[0] == '+' ==> TrimMatches(h, '+') == h[1..]
    ensures h[0] == '-' ==> TrimMatches(h, '+') == h
    ensures ParseI8(TrimMatches(h, '+')) == Some(SignedValue(h))
  {
    var digits := h[1..];
    assert IsDigit(digits[0]) && IsDigit(digits[1]);
    assert Value(digits) < 100 by {
      assert Pow10(2) == 100;
    }
    if h[0] == '+' {
      assert TrimStart(h, '+') == TrimStart(digits, '+');
      TrimStops(digits, '+');
      assert ParseDecimal(digits) == Some(Value(digits));
    } else {
      TrimStops(h, '+');
      assert ParseDecimal(h) == Some(0 - Value(digits) as int);
    }
  }

  /** The capture groups 3 to 7 of a match. */
  function SecondCapture(t: TimeMatch): Option<string> {
    if t.second.Some? then Some(t.second.value.digits) else None
  }

  function FractionCapture(t: TimeMatch): Option<string> {
    if t.second.Some? then t.second.value.fraction else None
  }

  function MarkerCapture(t: TimeMatch): Option<string> {
    if t.zone.Zulu? then Some("Z") else None
  }

  function ZoneHourCapture(t: TimeMatch): Option<string> {
    if t.zone.ZoneOffset? then t.zone.hour else None
  }

  function ZoneMinuteCapture(t: TimeMatch): Option<string> {
    if t.zone.ZoneOffset? then t.zone.minute else None
  }

  /** `cap.unwrap_or("00").parse::<i8>().unwrap()` for a two-digit group. */
  function ReadTwoDigits(cap: Option<string>): (r: I8)
    requires cap.Some? ==> IsTwoDigits(cap.value)
    ensures r == (if cap.Some? then Value(cap.value) else 0)
  {
    var text := cap.UnwrapOr(DefaultTwoDigits);
    TwoDigitsParse(text);
    ValueOfTwo(DefaultTwoDigits);
    ParseI8(text).value
  }

  /** `cap.unwrap_or("000").parse::<i32>().unwrap()` for the fraction group. */
  function ReadFraction(cap: Option<string>): (r: I32)
    requires cap.Some? ==> IsFraction(cap.value)
    ensures r == (if cap.Some? then Value(cap.value) else 0)
  {
    var text := cap.UnwrapOr(DefaultMillisecond);
    FractionParse(text);
    assert Value(DefaultMillisecond) == 0;
    ParseI32(text).value
  }

  /** `cap.unwrap_or("+00").trim_matches('+').parse::<i8>().unwrap()` for the
      zone-hour group: the sign is kept, a plus sign by being dropped. */
  function ReadZoneHour(cap: Option<string>): (r: I8)
    requires cap.Some? ==> IsSignedTwoDigits(cap.value)
    ensures r == (if cap.Some? then SignedValue(cap.value) else 0)
  {
    var text := cap.UnwrapOr(DefaultZoneHour);
    ZoneHourParse(text);
    ValueOfTwo(DefaultZoneHour[1..]);
    ParseI8(TrimMatches(text, '+')).value
  }

  /** The numbers read from one match: each group present is parsed as written,
      each group absent takes its default. Every `unwrap` succeeds (the digit
      counts keep the values inside their integer types). The fraction is read
      as a plain integer with no scaling by its digit count. */
  function TupleOf(t: TimeMatch): (r: TimeTuple)
    requires WellFormed(t)
    ensures r.hour == Value(t.head.hour)
    ensures r.minute == (if t.head.minute.Some? then Value(t.head.minute.value) else 0)
    ensures r.second == (if t.second.Some? then Value(t.second.value.digits) else 0)
    ensures r.millisecond == (if FractionCapture(t).Some? then Value(FractionCapture(t).value) else 0)
    ensures r.zoneHour == (if ZoneHourCapture(t).Some? then SignedValue(ZoneHourCapture(t).value) else 0)
    ensures r.zoneMinute == (if ZoneMinuteCapture(t).Some? then Value(ZoneMinuteCapture(t).value) else 0)
    ensures r.marker == (if t.zone.Zulu? then "Z" else "_")
  {
    TimeTuple(ReadTwoDigits(Some(t.head.hour)),
              ReadTwoDigits(t.head.minute),
              ReadTwoDigits(SecondCapture(t)),
              ReadFraction(FractionCapture(t)),
              ReadZoneHour(ZoneHourCapture(t)),
              ReadTwoDigits(ZoneMinuteCapture(t)),
              MarkerCapture(t).UnwrapOr(NoMarker))
  }

  /** `parse_iso_8601_tuple`: the numbers of the pattern's match, or `None` when
      the input does not match. The hour always comes from the first two characters. */
  function ParseTuple(s: string): (r: Option<TimeTuple>)
    ensures r.Some? <==> MatchTime(s).Some?
    ensures r.Some? ==> TwoDigitsAt(s, 0) && r.value.hour == Value(s[..2])
    ensures r.Some? ==> 0 <= r.value.minute < 100 && 0 <= r.value.second < 100
    ensures r.Some? ==> 0 <= r.value.millisecond < 1_000_000_000
    ensures r.Some? ==> -100 < r.value.zoneHour < 100 && 0 <= r.value.zoneMinute < 100
    ensures r.Some? ==> (r.value.marker == "Z" <==> MatchTime(s).value.zone.Zulu?)
  {
    match MatchTime(s)
    case None => None
    case Some(t) =>
      TupleRanges(t);
      Some(TupleOf(t))
  }

  /** Every field of a match's tuple lies in the range its digits allow. */
  lemma TupleRanges(t: TimeMatch)
    requires WellFormed(t)
    ensures 0 <= TupleOf(t).minute < 100 && 0 <= TupleOf(t).second < 100
    ensures 0 <= TupleOf(t).millisecond < 1_000_000_000
    ensures -100 < TupleOf(t).zoneHour < 100 && 0 <= TupleOf(t).zoneMinute < 100
  {
    var u := TupleOf(t);
    assert Pow10(2) == 100;
    assert 0 <= u.millisecond < 1_000_000_000 by {
      if FractionCapture(t).Some? {
        PowMonotone(|FractionCapture(t).value|, 9);
      }
    }
    assert -100 < u.zoneHour < 100 by {
      if ZoneHourCapture(t).Some? {
        assert |ZoneHourCapture(t).value[1..]| == 2;
      }
    }
  }

  /** For the colon-separated shapes the tuple is read from exactly the groups
      the text was built from. */
  lemma ColonFormTuple(s: string, t: TimeMatch)
    requires WellFormed(t) && ColonSeparated(t) && TimeText(t) == s
    ensures ParseTuple(s) == Some(TupleOf(t))
  {
    MatchTimeColonForms(t);
  }

  /** An hour alone: every other field takes its default. */
  lemma HourOnlyDefaults(hh: string)
    requires IsTwoDigits(hh)
    ensures ParseTuple(hh) == Some(TimeTuple(Value(hh), 0, 0, 0, 0, 0, NoMarker))
  {
    var t := TimeMatch(Head(hh, false, None, false), None, NoZone);
    assert TimeText(t) == hh;
    ColonFormTuple(hh, t);
  }

  /** The match of `hh:mm:ss.f…`, with no zone. */
  function FractionMatch(hh: string, mm: string, ss: string, frac: string): (t: TimeMatch)
    requires IsTwoDigits(hh) && IsTwoDigits(mm) && IsTwoDigits(ss) && IsFraction(frac)
    ensures WellFormed(t) && ColonSeparated(t)
    ensures TimeText(t) == hh + ":" + mm + ":" + ss + "." + frac
    ensures t.head.hour == hh && t.head.minute == Some(mm) && t.zone == NoZone
    ensures t.second == Some(SecondPart(ss, true, Some(frac)))
  {
    var t := TimeMatch(Head(hh, true, Some(mm), true), Some(SecondPart(ss, true, Some(frac))), NoZone);
    assert FractionOnText(t) == frac;
    assert DotOnText(t) == "." + frac;
    assert SecondOnText(t) == ss + "." + frac;
    assert Colon2OnText(t) == ":" + ss + "." + frac;
    assert MinuteOnText(t) == mm + ":" + ss + "." + frac;
    assert Colon1OnText(t) == ":" + mm + ":" + ss + "." + frac;
    t
  }

  /** `hh:mm:ss.f…`: the fraction is read as the integer it spells, whatever
      its length, and the zone fields take their defaults. */
  lemma FractionReadAsWritten(hh: string, mm: string, ss: string, frac: string)
    requires IsTwoDigits(hh) && IsTwoDigits(mm) && IsTwoDigits(ss) && IsFraction(frac)
    ensures var r := ParseTuple(hh + ":" + mm + ":" + ss + "." + frac);
      && r.Some? && r.value.hour == Value(hh) && r.value.minute == Value(mm)
      && r.value.second == Value(ss) && r.value.millisecond == Value(frac)
      && r.value.zoneHour == 0 && r.value.zoneMinute == 0 && r.value.marker == NoMarker
  {
    var t := FractionMatch(hh, mm, ss, frac);
    ColonFormTuple(TimeText(t), t);
    FractionMatchRead(hh, mm, ss, frac);
  }

  lemma FractionMatchRead(hh: string, mm: string, ss: string, frac: string)
    requires IsTwoDigits(hh) && IsTwoDigits(mm) && IsTwoDigits(ss) && IsFraction(frac)
    ensures var u := TupleOf(FractionMatch(hh, mm, ss, frac));
      && u.hour == Value(hh) && u.minute == Value(mm) && u.second == Value(ss) && u.millisecond == Value(frac)
      && u.zoneHour == 0 && u.zoneMinute == 0 && u.marker == NoMarker
  {
  }

  /** Hence `.5` and `.500` read as 5 and 500, not as the same half second. */
  lemma FractionUnscaled(hh: string, mm: string, ss: string)
    requires IsTwoDigits(hh) && IsTwoDigits(mm) && IsTwoDigits(ss)
    ensures var r := ParseTuple(hh + ":" + mm + ":" + ss + "." + "5");
      r.Some? && r.value.millisecond == 5
    ensures var r := ParseTuple(hh + ":" + mm + ":" + ss + "." + "500");
      r.Some? && r.value.millisecond == 500
  {
    assert Value("5") == 5;
    assert Value("500") == 500 by {
      assert "500"[..2] == "50" && "50"[..1] == "5";
    }
    FractionReadAsWritten(hh, mm, ss, "5");
    FractionReadAsWritten(hh, mm, ss, "500");
  }

  function OffsetMatch(hh: string, mm: string, zh: string, zm: string): (t: TimeMatch)
    requires IsTwoDigits(hh) && IsTwoDigits(mm) && IsSignedTwoDigits(zh) && IsTwoDigits(zm)
    ensures WellFormed(t) && ColonSeparated(t)
    ensures TimeText(t) == hh + ":" + mm + zh + ":" + zm
    ensures t.zone == ZoneOffset(Some(zh), true, Some(zm)) && t.second.None?
  {
    var t := TimeMatch(Head(hh, true, Some(mm), false), None, ZoneOffset(Some(zh), true, Some(zm)));
    assert ZoneText(t.zone) == zh + ":" + zm;
    assert MinuteOnText(t) == mm + zh + ":" + zm;
    t
  }

  /** `hh:mm±zh:zm`: the zone hour keeps its sign, the zone minute is read as written. */
  lemma OffsetReadWithSign(hh: string, mm: string, zh: string, zm: string)
    requires IsTwoDigits(hh) && IsTwoDigits(mm) && IsSignedTwoDigits(zh) && IsTwoDigits(zm)
    ensures var r := ParseTuple(hh + ":" + mm + zh + ":" + zm);
      && r.Some? && r.value.hour == Value(hh) && r.value.minute == Value(mm)
      && r.value.second == 0 && r.value.millisecond == 0
      && r.value.zoneHour == SignedValue(zh) && r.value.zoneMinute == Value(zm) && r.value.marker == NoMarker
  {
    var t := OffsetMatch(hh, mm, zh, zm);
    ColonFormTuple(TimeText(t), t);
  }

  /** Hence `+05` reads as 5 and `-05` as -5. */
  lemma ZoneSign()
    ensures SignedValue("+05") == 5 && SignedValue("-05") == -5
  {
    assert "+05"[1..] == "05" && "-05"[1..] == "05";
    ValueOfTwo("05");
  }

  /** `hh:mmZ`: the marker is `Z` and the offset fields keep their defaults. */
  lemma ZuluReadAsMarker(hh: string, mm: string)
    requires IsTwoDigits(hh) && IsTwoDigits(mm)
    ensures ParseTuple(hh + ":" + mm + "Z") == Some(TimeTuple(Value(hh), Value(mm), 0, 0, 0, 0, "Z"))
  {
    var t := TimeMatch(Head(hh, true, Some(mm), false), None, Zulu);
    assert MinuteOnText(t) == mm + "Z";
    assert TimeText(t) == hh + ":" + mm + "Z";
    ColonFormTuple(TimeText(t), t);
  }
}
