/** The time pattern of the parser, over ASCII digits:

      ^ (\d{2}) :? (\d{2})? :? (?: (\d{2}) \.? (\d{1,9})? )? (?: (Z) | ([+-]\d\d)? :? (\d\d)? )? $

    The scanner follows the pattern's leftmost-first priority exactly: at every
    optional piece it first tries to take it, and falls back to skipping it only
    when the rest of the pattern cannot then reach the end; the fraction tries
    nine digits down to one. Each stage below is one such choice point, and
    returns the first match, in priority order, of the rest of the input. */
module TimeGrammar {
  import opened Wrappers
  import opened Digits

  /** The optional zone group: skipped, the literal `Z` (group 5), or a signed
      hour (group 6), a colon, and a minute (group 7), at least one present. */
  datatype ZonePart =
    | NoZone
    | Zulu
    | ZoneOffset(hour: Option<string>, colon: bool, minute: Option<string>)

  /** The optional seconds group: two digits (group 3), an optional dot, and an
      optional fraction of one to nine digits (group 4). */
  datatype SecondPart = SecondPart(digits: string, dot: bool, fraction: Option<string>)

  /** The hour (group 1), the first colon, the optional minute (group 2), the second colon. */
  datatype Head = Head(hour: string, colon1: bool, minute: Option<string>, colon2: bool)

  /** A whole match: every group, and every optional separator taken. */
  datatype TimeMatch = TimeMatch(head: Head, second: Option<SecondPart>, zone: ZonePart)

  // ----- What a match spells out -----

  function OptText(o: Option<string>): string {
    if o.Some? then o.value else ""
  }

  function MarkText(present: bool, mark: char): string {
    if present then [mark] else ""
  }

  function ZoneText(z: ZonePart): string {
    match z
    case NoZone => ""
    case Zulu => "Z"
    case ZoneOffset(h, c, m) => OptText(h) + (MarkText(c, ':') + OptText(m))
  }

  /** The text from the fraction on. */
  function FractionOnText(t: TimeMatch): string
    requires t.second.Some?
  {
    OptText(t.second.value.fraction) + ZoneText(t.zone)
  }

  /** The text from the optional dot on. */
  function DotOnText(t: TimeMatch): string
    requires t.second.Some?
  {
    MarkText(t.second.value.dot, '.') + FractionOnText(t)
  }

  /** The text from the seconds group on. */
  function SecondOnText(t: TimeMatch): string {
    if t.second.None? then ZoneText(t.zone) else t.second.value.digits + DotOnText(t)
  }

  function Colon2OnText(t: TimeMatch): string {
    MarkText(t.head.colon2, ':') + SecondOnText(t)
  }

  function MinuteOnText(t: TimeMatch): string {
    OptText(t.head.minute) + Colon2OnText(t)
  }

  function Colon1OnText(t: TimeMatch): string {
    MarkText(t.head.colon1, ':') + MinuteOnText(t)
  }

  /** The text a match spells out. */
  function TimeText(t: TimeMatch): string {
    t.head.hour + Colon1OnText(t)
  }

  // ----- Which matches the pattern allows -----

  predicate IsTwoDigits(s: string) {
    |s| == 2 && AllDigits(s)
  }

  predicate IsSignedTwoDigits(s: string) {
    |s| == 3 && (s[0] == '+' || s[0] == '-') && AllDigits(s[1..])
  }

  predicate IsFraction(s: string) {
    1 <= |s| <= 9 && AllDigits(s)
  }

  predicate WellFormedZone(z: ZonePart) {
    match z
    case NoZone => true
    case Zulu => true
    case ZoneOffset(h, c, m) =>
      && (h.Some? ==> IsSignedTwoDigits(h.value))
      && (m.Some? ==> IsTwoDigits(m.value))
      && (h.Some? || c || m.Some?)
  }

  predicate WellFormedSecond(p: Option<SecondPart>) {
    p.Some? ==> IsTwoDigits(p.value.digits) && (p.value.fraction.Some? ==> IsFraction(p.value.fraction.value))
  }

  predicate WellFormedHead(h: Head) {
    IsTwoDigits(h.hour) && (h.minute.Some? ==> IsTwoDigits(h.minute.value))
  }

  predicate WellFormed(t: TimeMatch) {
    WellFormedHead(t.head) && WellFormedSecond(t.second) && WellFormedZone(t.zone)
  }

  // ----- The scanner -----

  predicate CharAt(s: string, i: nat, c: char) {
    i < |s| && s[i] == c
  }

  predicate TwoDigitsAt(s: string, i: nat) {
    i + 2 <= |s| && IsTwoDigits(s[i..i + 2])
  }

  /** `(\d\d)?` then the end. */
  function MatchOffsetMinute(s: string, i: nat, hour: Option<string>, colon: bool): (r: Option<ZonePart>)
    requires i <= |s|
    ensures r.Some? ==> r.value.ZoneOffset? && r.value.hour == hour && r.value.colon == colon
    ensures r.Some? ==> OptText(r.value.minute) == s[i..] && (r.value.minute.Some? ==> IsTwoDigits(r.value.minute.value))
  {
    if i + 2 == |s| && IsTwoDigits(s[i..]) then Some(ZoneOffset(hour, colon, Some(s[i..])))
    else if i == |s| then Some(ZoneOffset(hour, colon, None))
    else None
  }

  /** `:?` of the zone, then the minute. */
  function MatchOffsetColon(s: string, i: nat, hour: Option<string>): (r: Option<ZonePart>)
    requires i <= |s|
    ensures r.Some? ==> r.value.ZoneOffset? && r.value.hour == hour
    ensures r.Some? ==> MarkText(r.value.colon, ':') + OptText(r.value.minute) == s[i..]
    ensures r.Some? ==> r.value.minute.Some? ==> IsTwoDigits(r.value.minute.value)
  {
    var withColon := if CharAt(s, i, ':') then MatchOffsetMinute(s, i + 1, hour, true) else None;
    if withColon.Some? then withColon else MatchOffsetMinute(s, i, hour, false)
  }

  /** `([+-]\d\d)?` of the zone, then the rest; started on a non-empty rest. */
  function MatchOffsetHour(s: string, i: nat): (r: Option<ZonePart>)
    requires i < |s|
    ensures r.Some? ==> r.value.ZoneOffset? && WellFormedZone(r.value) && ZoneText(r.value) == s[i..]
  {
    var signed :=
      if i + 3 <= |s| && IsSignedTwoDigits(s[i..i + 3]) then MatchOffsetColon(s, i + 3, Some(s[i..i + 3]))
      else None;
    if signed.Some? then
      assert s[i..] == s[i..i + 3] + s[i + 3..];
      signed
    else MatchOffsetColon(s, i, None)
  }

  /** The zone group and the end of the input: `Z` first, then the offset
      alternative, then skipping the group. At the end of the input the offset
      alternative could only match empty, which captures the same as skipping. */
  function MatchZone(s: string, i: nat): (r: Option<ZonePart>)
    requires i <= |s|
    ensures r.Some? ==> WellFormedZone(r.value) && ZoneText(r.value) == s[i..]
  {
    if CharAt(s, i, 'Z') && i + 1 == |s| then Some(Zulu)
    else if i == |s| then Some(NoZone)
    else MatchOffsetHour(s, i)
  }

  lemma SliceJoin(s: string, i: nat, j: nat)
    requires i <= j <= |s|
    ensures s[i..j] + s[j..] == s[i..]
  {
  }

  /** `k` digits at `i` can be the fraction: they are digits and a zone follows them. */
  predicate FractionFits(s: string, i: nat, k: nat)
    requires i <= |s|
  {
    i + k <= |s| && AllDigits(s[i..i + k]) && MatchZone(s, i + k).Some?
  }

  /** Fitting digits and the zone after them make up the rest of the text. */
  lemma FittingFraction(s: string, i: nat, k: nat)
    requires i <= |s| && 1 <= k <= 9 && FractionFits(s, i, k)
    ensures IsFraction(s[i..i + k]) && WellFormedZone(MatchZone(s, i + k).value)
    ensures s[i..i + k] + ZoneText(MatchZone(s, i + k).value) == s[i..]
  {
    SliceJoin(s, i, i + k);
  }

  /** How many digits `(\d{1,9})` takes when it may take at most `n`: the
      greedy quantifier tries `n` first and backs off one digit at a time;
      0 when no count from 1 to `n` fits. */
  function FractionLength(s: string, i: nat, n: nat): (k: nat)
    requires i <= |s| && n <= 9
    ensures k <= n && (k > 0 ==> FractionFits(s, i, k))
  {
    if n == 0 then 0
    else if FractionFits(s, i, n) then n
    else FractionLength(s, i, n - 1)
  }

  /** `(\d{1,9})` taken with at most `n` digits: the fraction and the zone after it. */
  function MatchFractionDigits(s: string, i: nat, n: nat): (r: Option<(string, ZonePart)>)
    requires i <= |s| && n <= 9
    ensures r.Some? ==> IsFraction(r.value.0) && |r.value.0| <= n && WellFormedZone(r.value.1)
    ensures r.Some? ==> r.value.0 + ZoneText(r.value.1) == s[i..]
  {
    var k := FractionLength(s, i, n);
    if k == 0 then None
    else
      FittingFraction(s, i, k);
      Some((s[i..i + k], MatchZone(s, i + k).value))
  }

  /** The optional fraction (longest first), then the zone. */
  function MatchFraction(s: string, i: nat, head: Head, second: string, dot: bool): (r: Option<TimeMatch>)
    requires i <= |s|
    requires WellFormedHead(head) && IsTwoDigits(second)
    ensures r.Some? ==> WellFormed(r.value) && r.value.head == head && r.value.second.Some?
    ensures r.Some? ==> r.value.second.value.digits == second && r.value.second.value.dot == dot
    ensures r.Some? ==> FractionOnText(r.value) == s[i..]
  {
    var digits := MatchFractionDigits(s, i, 9);
    if digits.Some? then Some(TimeMatch(head, Some(SecondPart(second, dot, Some(digits.value.0))), digits.value.1))
    else
      var zone := MatchZone(s, i);
      if zone.Some? then Some(TimeMatch(head, Some(SecondPart(second, dot, None)), zone.value)) else None
  }

  /** `\.?` after the seconds digits. */
  function MatchDot(s: string, i: nat, head: Head, second: string): (r: Option<TimeMatch>)
    requires i <= |s|
    requires WellFormedHead(head) && IsTwoDigits(second)
    ensures r.Some? ==> WellFormed(r.value) && r.value.head == head && r.value.second.Some?
    ensures r.Some? ==> r.value.second.value.digits == second && DotOnText(r.value) == s[i..]
  {
    var withDot := if CharAt(s, i, '.') then MatchFraction(s, i + 1, head, second, true) else None;
    if withDot.Some? then
      assert s[i..] == "." + s[i + 1..];
      withDot
    else MatchFraction(s, i, head, second, false)
  }

  /** The optional seconds group, then the zone. */
  function MatchSecond(s: string, i: nat, head: Head): (r: Option<TimeMatch>)
    requires i <= |s|
    requires WellFormedHead(head)
    ensures r.Some? ==> WellFormed(r.value) && r.value.head == head && SecondOnText(r.value) == s[i..]
  {
    var withSecond := if TwoDigitsAt(s, i) then MatchDot(s, i + 2, head, s[i..i + 2]) else None;
    if withSecond.Some? then
      assert s[i..] == s[i..i + 2] + s[i + 2..];
      withSecond
    else
      var zone := MatchZone(s, i);
      if zone.Some? then Some(TimeMatch(head, None, zone.value)) else None
  }

  /** The second `:?`. */
  function MatchColon2(s: string, i: nat, hour: string, colon1: bool, minute: Option<string>): (r: Option<TimeMatch>)
    requires i <= |s|
    requires WellFormedHead(Head(hour, colon1, minute, false))
    ensures r.Some? ==> WellFormed(r.value) && Colon2OnText(r.value) == s[i..]
    ensures r.Some? ==> r.value.head == Head(hour, colon1, minute, r.value.head.colon2)
  {
    var withColon := if CharAt(s, i, ':') then MatchSecond(s, i + 1, Head(hour, colon1, minute, true)) else None;
    if withColon.Some? then
      assert s[i..] == ":" + s[i + 1..];
      withColon
    else MatchSecond(s, i, Head(hour, colon1, minute, false))
  }

  /** The optional minute `(\d{2})?`. */
  function MatchMinute(s: string, i: nat, hour: string, colon1: bool): (r: Option<TimeMatch>)
    requires i <= |s| && IsTwoDigits(hour)
    ensures r.Some? ==> WellFormed(r.value) && MinuteOnText(r.value) == s[i..]
    ensures r.Some? ==> r.value.head.hour == hour && r.value.head.colon1 == colon1
  {
    var withMinute := if TwoDigitsAt(s, i) then MatchColon2(s, i + 2, hour, colon1, Some(s[i..i + 2])) else None;
    if withMinute.Some? then
      assert s[i..] == s[i..i + 2] + s[i + 2..];
      withMinute
    else MatchColon2(s, i, hour, colon1, None)
  }

  /** The first `:?`, after the hour. */
  function MatchColon1(s: string, hour: string): (r: Option<TimeMatch>)
    requires 2 <= |s| && IsTwoDigits(hour)
    ensures r.Some? ==> WellFormed(r.value) && Colon1OnText(r.value) == s[2..] && r.value.head.hour == hour
  {
    var withColon := if CharAt(s, 2, ':') then MatchMinute(s, 3, hour, true) else None;
    if withColon.Some? then
      assert s[2..] == ":" + s[3..];
      withColon
    else MatchMinute(s, 2, hour, false)
  }

  /** The time pattern: the hour is mandatory, the rest as the stages decide.
      A match spells out exactly the input. */
  function MatchTime(s: string): (r: Option<TimeMatch>)
    ensures r.Some? ==> WellFormed(r.value) && TimeText(r.value) == s
    ensures r.Some? ==> TwoDigitsAt(s, 0) && r.value.head.hour == s[..2]
  {
    if TwoDigitsAt(s, 0) then
      var r := MatchColon1(s, s[..2]);
      assert r.Some? ==> s == s[..2] + s[2..];
      r
    else None
  }

  // ----- The scanner accepts the pattern's whole language -----

  /** A zone that starts with neither a digit nor a colon: absent, `Z`, or an
      offset that has its signed hour. */
  predicate ClearStart(z: ZonePart) {
    z.NoZone? || z.Zulu? || (z.ZoneOffset? && z.hour.Some?)
  }

  /** The colon-separated forms `HH`, `HH:MM` and `HH:MM:SS` (each with an
      optional `.fraction` after the seconds) followed by no zone, `Z`, or an
      offset with its signed hour. Without separators the pattern is ambiguous
      and the priority order decides (see `UnseparatedPriority`). */
  predicate ColonSeparated(t: TimeMatch) {
    && t.head.colon1 == t.head.minute.Some?
    && t.head.colon2 == t.second.Some?
    && (t.second.Some? ==> t.head.minute.Some?)
    && ClearStart(t.zone)
  }

  /** A match that covers `s[i..]` in two pieces splits `s` where the first piece ends. */
  lemma TextSplit(s: string, i: nat, a: string, b: string)
    requires i <= |s| && a + b == s[i..]
    ensures s[i..i + |a|] == a && s[i + |a|..] == b
  {
    assert s[i + |a|..] == s[i..][|a|..];
    assert s[i..i + |a|] == s[i..][..|a|];
  }

  lemma ZoneTextStart(z: ZonePart)
    requires WellFormedZone(z) && |ZoneText(z)| > 0
    ensures ZoneText(z)[0] != '.'
    ensures ClearStart(z) ==> !IsDigit(ZoneText(z)[0]) && ZoneText(z)[0] != ':'
  {
    match z
    case NoZone =>
    case Zulu =>
    case ZoneOffset(h, c, m) =>
      if h.Some? {
        assert ZoneText(z)[0] == h.value[0];
      } else if c {
        assert ZoneText(z)[0] == ':';
      } else {
        assert ZoneText(z)[0] == m.value[0];
      }
  }

  lemma OffsetMinuteExact(s: string, i: nat, hour: Option<string>, colon: bool, m: Option<string>)
    requires i <= |s| && (m.Some? ==> IsTwoDigits(m.value)) && OptText(m) == s[i..]
    ensures MatchOffsetMinute(s, i, hour, colon) == Some(ZoneOffset(hour, colon, m))
  {
  }

  lemma OffsetColonExact(s: string, i: nat, hour: Option<string>, colon: bool, m: Option<string>)
    requires i <= |s| && (m.Some? ==> IsTwoDigits(m.value))
    requires MarkText(colon, ':') + OptText(m) == s[i..]
    ensures MatchOffsetColon(s, i, hour) == Some(ZoneOffset(hour, colon, m))
  {
    if colon {
      assert s[i] == s[i..][0] == ':';
      assert s[i + 1..] == s[i..][1..];
      OffsetMinuteExact(s, i + 1, hour, true, m);
    } else {
      if m.Some? {
        assert s[i] == s[i..][0] == m.value[0];
      }
      OffsetMinuteExact(s, i, hour, false, m);
    }
  }

  /** The zone scanner finds every well-formed zone, and nothing else, in the
      text the zone spells. */
  lemma ZoneExact(s: string, i: nat, z: ZonePart)
    requires i <= |s| && WellFormedZone(z) && ZoneText(z) == s[i..]
    ensures MatchZone(s, i) == Some(z)
  {
    match z
    case NoZone =>
    case Zulu =>
    case ZoneOffset(h, c, m) =>
      ZoneTextStart(z);
      assert i < |s| && s[i] == ZoneText(z)[0];
      if h.Some? {
        assert s[i..i + 3] == h.value;
        assert s[i + 3..] == s[i..][3..];
        OffsetColonExact(s, i + 3, h, c, m);
      } else {
        assert !(i + 3 <= |s| && IsSignedTwoDigits(s[i..i + 3])) by {
          if i + 3 <= |s| { assert s[i..i + 3][0] == s[i]; }
        }
        OffsetColonExact(s, i, None, c, m);
      }
  }

  lemma ClearZoneStart(s: string, i: nat, z: ZonePart)
    requires i <= |s| && WellFormedZone(z) && ClearStart(z) && ZoneText(z) == s[i..]
    ensures i == |s| || (!IsDigit(s[i]) && s[i] != ':' && s[i] != '.')
  {
    if i < |s| {
      ZoneTextStart(z);
      assert s[i] == ZoneText(z)[0];
    }
  }

  lemma {:induction false} FractionDigitsNone(s: string, i: nat, n: nat)
    requires i <= |s| && n <= 9
    requires i == |s| || !IsDigit(s[i])
    ensures FractionLength(s, i, n) == 0
  {
    if n > 0 {
      NoDigitNoFit(s, i, n);
      FractionDigitsNone(s, i, n - 1);
      FractionDigitsStep(s, i, n);
    }
  }

  lemma NoDigitNoFit(s: string, i: nat, n: nat)
    requires i <= |s| && 1 <= n
    requires i == |s| || !IsDigit(s[i])
    ensures !FractionFits(s, i, n)
  {
    if i + n <= |s| {
      assert s[i..i + n][0] == s[i];
    }
  }

  /** Trying fewer digits never loses a match that `n - 1` digits find. */
  lemma FractionDigitsStep(s: string, i: nat, n: nat)
    requires i <= |s| && 1 <= n <= 9
    ensures FractionLength(s, i, n - 1) > 0 ==> FractionLength(s, i, n) > 0
    ensures !FractionFits(s, i, n) ==> FractionLength(s, i, n) == FractionLength(s, i, n - 1)
  {
  }

  /** The zone after a fraction is matched where the fraction ends. */
  lemma ZoneAfterFraction(s: string, i: nat, f: string, z: ZonePart)
    requires i <= |s| && IsFraction(f) && WellFormedZone(z) && f + ZoneText(z) == s[i..]
    ensures MatchZone(s, i + |f|) == Some(z)
  {
    TextSplit(s, i, f, ZoneText(z));
    ZoneExact(s, i + |f|, z);
  }

  /** A fraction followed by a zone that reaches the end fits with exactly its digits. */
  lemma FractionFitsExactly(s: string, i: nat, f: string, z: ZonePart)
    requires i <= |s| && IsFraction(f) && WellFormedZone(z) && f + ZoneText(z) == s[i..]
    ensures FractionFits(s, i, |f|)
  {
    TextSplit(s, i, f, ZoneText(z));
    ZoneExact(s, i + |f|, z);
  }

  /** The scan stops at the first count that fits. */
  lemma FractionLengthOfFit(s: string, i: nat, k: nat)
    requires i <= |s| && 1 <= k <= 9 && FractionFits(s, i, k)
    ensures FractionLength(s, i, k) == k
  {
  }

  lemma FractionDigitsExactLength(s: string, i: nat, f: string, z: ZonePart)
    requires i <= |s| && IsFraction(f) && WellFormedZone(z) && f + ZoneText(z) == s[i..]
    ensures FractionLength(s, i, |f|) == |f|
  {
    FractionFitsExactly(s, i, f, z);
    FractionLengthOfFit(s, i, |f|);
  }

  /** A count of digits that fits is found by the scan that starts at 9
      digits: each try with one digit more still succeeds. */
  lemma FractionFitFound(s: string, i: nat, k: nat)
    requires i <= |s| && 1 <= k <= 9 && FractionFits(s, i, k)
    ensures FractionLength(s, i, 9) > 0
  {
    var n := k;
    FractionLengthOfFit(s, i, k);
    while n < 9
      invariant n <= 9
      invariant FractionLength(s, i, n) > 0
    {
      FractionDigitsStep(s, i, n + 1);
      n := n + 1;
    }
  }

  lemma FractionDigitsFound(s: string, i: nat, f: string, z: ZonePart)
    requires i <= |s| && IsFraction(f) && WellFormedZone(z) && f + ZoneText(z) == s[i..]
    ensures MatchFractionDigits(s, i, 9).Some?
  {
    FractionFitsExactly(s, i, f, z);
    FractionFitFound(s, i, |f|);
  }

  /** Before a zone that starts with no digit, the longest run of fraction
      digits is taken, and it is the whole fraction. */
  lemma {:induction false} FractionDigitsLongest(s: string, i: nat, f: string, z: ZonePart, n: nat)
    requires i <= |s| && IsFraction(f) && WellFormedZone(z) && ClearStart(z) && f + ZoneText(z) == s[i..]
    requires |f| <= n <= 9
    ensures FractionLength(s, i, n) == |f|
  {
    var k := |f|;
    if n == k {
      FractionDigitsExactLength(s, i, f, z);
    } else {
      FractionDigitsLongest(s, i, f, z, n - 1);
      assert !FractionFits(s, i, n) by {
        if i + n <= |s| {
          TextSplit(s, i, f, ZoneText(z));
          ClearZoneStart(s, i + k, z);
          assert s[i..i + n][k] == s[i + k];
        }
      }
      FractionDigitsStep(s, i, n);
    }
  }

  /** The longest fraction before a clear zone is read as written. */
  lemma FractionDigitsLongestMatch(s: string, i: nat, f: string, z: ZonePart)
    requires i <= |s| && IsFraction(f) && WellFormedZone(z) && ClearStart(z) && f + ZoneText(z) == s[i..]
    ensures MatchFractionDigits(s, i, 9) == Some((f, z))
  {
    FractionDigitsLongest(s, i, f, z, 9);
    TextSplit(s, i, f, ZoneText(z));
    ZoneAfterFraction(s, i, f, z);
  }

  lemma FractionStage(s: string, i: nat, t: TimeMatch)
    requires i <= |s| && WellFormed(t) && t.second.Some? && FractionOnText(t) == s[i..]
    ensures MatchFraction(s, i, t.head, t.second.value.digits, t.second.value.dot).Some?
    ensures ClearStart(t.zone) ==> MatchFraction(s, i, t.head, t.second.value.digits, t.second.value.dot) == Some(t)
  {
    if t.second.value.fraction.Some? {
      var f := t.second.value.fraction.value;
      assert f + ZoneText(t.zone) == s[i..];
      FractionDigitsFound(s, i, f, t.zone);
      if ClearStart(t.zone) {
        FractionDigitsLongestMatch(s, i, f, t.zone);
      }
    } else {
      ZoneExact(s, i, t.zone);
      if ClearStart(t.zone) {
        ClearZoneStart(s, i, t.zone);
        FractionDigitsNone(s, i, 9);
      }
    }
  }

  lemma DotStage(s: string, i: nat, t: TimeMatch)
    requires i <= |s| && WellFormed(t) && t.second.Some? && DotOnText(t) == s[i..]
    ensures MatchDot(s, i, t.head, t.second.value.digits).Some?
    ensures ClearStart(t.zone) ==> MatchDot(s, i, t.head, t.second.value.digits) == Some(t)
  {
    if t.second.value.dot {
      assert s[i] == s[i..][0] == '.';
      assert s[i + 1..] == s[i..][1..];
      FractionStage(s, i + 1, t);
    } else {
      if i < |s| {
        assert s[i] == FractionOnText(t)[0];
        if t.second.value.fraction.Some? {
          assert s[i] == t.second.value.fraction.value[0];
        } else {
          ZoneTextStart(t.zone);
        }
      }
      FractionStage(s, i, t);
    }
  }

  lemma SecondStage(s: string, i: nat, t: TimeMatch)
    requires i <= |s| && WellFormed(t) && SecondOnText(t) == s[i..]
    ensures MatchSecond(s, i, t.head).Some?
    ensures ClearStart(t.zone) ==> MatchSecond(s, i, t.head) == Some(t)
  {
    if t.second.Some? {
      assert s[i..i + 2] == t.second.value.digits;
      assert s[i + 2..] == s[i..][2..];
      DotStage(s, i + 2, t);
    } else {
      ZoneExact(s, i, t.zone);
      if ClearStart(t.zone) {
        ClearZoneStart(s, i, t.zone);
        assert !TwoDigitsAt(s, i) by {
          if i + 2 <= |s| { assert s[i..i + 2][0] == s[i]; }
        }
      }
    }
  }

  lemma Colon2Stage(s: string, i: nat, t: TimeMatch)
    requires i <= |s| && WellFormed(t) && Colon2OnText(t) == s[i..]
    ensures MatchColon2(s, i, t.head.hour, t.head.colon1, t.head.minute).Some?
    ensures ColonSeparated(t) ==> MatchColon2(s, i, t.head.hour, t.head.colon1, t.head.minute) == Some(t)
  {
    if t.head.colon2 {
      assert s[i] == s[i..][0] == ':';
      assert s[i + 1..] == s[i..][1..];
      SecondStage(s, i + 1, t);
    } else {
      SecondStage(s, i, t);
      if ColonSeparated(t) {
        ClearZoneStart(s, i, t.zone);
      }
    }
  }

  lemma MinuteStage(s: string, i: nat, t: TimeMatch)
    requires i <= |s| && WellFormed(t) && MinuteOnText(t) == s[i..]
    ensures MatchMinute(s, i, t.head.hour, t.head.colon1).Some?
    ensures ColonSeparated(t) ==> MatchMinute(s, i, t.head.hour, t.head.colon1) == Some(t)
  {
    if t.head.minute.Some? {
      assert s[i..i + 2] == t.head.minute.value;
      assert s[i + 2..] == s[i..][2..];
      Colon2Stage(s, i + 2, t);
    } else {
      Colon2Stage(s, i, t);
      if ColonSeparated(t) {
        ClearZoneStart(s, i, t.zone);
        assert !TwoDigitsAt(s, i) by {
          if i + 2 <= |s| { assert s[i..i + 2][0] == s[i]; }
        }
      }
    }
  }

  lemma Colon1Stage(s: string, t: TimeMatch)
    requires 2 <= |s| && WellFormed(t) && Colon1OnText(t) == s[2..]
    ensures MatchColon1(s, t.head.hour).Some?
    ensures ColonSeparated(t) ==> MatchColon1(s, t.head.hour) == Some(t)
  {
    if t.head.colon1 {
      assert s[2] == s[2..][0] == ':';
      assert s[3..] == s[2..][1..];
      MinuteStage(s, 3, t);
    } else {
      MinuteStage(s, 2, t);
      if ColonSeparated(t) {
        ClearZoneStart(s, 2, t.zone);
      }
    }
  }

  /** Every text the pattern describes is accepted: with the contract of
      `MatchTime` (a match spells out its input), the scanner's language is
      exactly the pattern's. */
  lemma MatchTimeComplete(t: TimeMatch)
    requires WellFormed(t)
    ensures MatchTime(TimeText(t)).Some?
  {
    var s := TimeText(t);
    assert s[..2] == t.head.hour && s[2..] == Colon1OnText(t);
    Colon1Stage(s, t);
  }

  /** For the colon-separated forms the captures are the intended ones: the
      scanner returns exactly the groups the text was built from. */
  lemma MatchTimeColonForms(t: TimeMatch)
    requires WellFormed(t) && ColonSeparated(t)
    ensures MatchTime(TimeText(t)) == Some(t)
  {
    var s := TimeText(t);
    assert s[..2] == t.head.hour && s[2..] == Colon1OnText(t);
    Colon1Stage(s, t);
  }

  /** The hour is mandatory: without two leading digits nothing matches. */
  lemma HourIsMandatory(s: string)
    requires |s| < 2 || !IsDigit(s[0]) || !IsDigit(s[1])
    ensures MatchTime(s).None?
  {
  }

  /** Without separators the priority order decides. In "12345" taking "34" as
      the minute leaves "5", which nothing after it can consume, so the pattern
      backs off: the minute is skipped, "34" becomes the seconds and "5" the
      fraction. */
  lemma UnseparatedPriority()
    ensures MatchTime("12345") == Some(TimeMatch(Head("12", false, None, false), Some(SecondPart("34", false, Some("5"))), NoZone))
  {
    var s := "12345";
    var head := Head("12", false, None, false);
    assert s[..2] == "12" && s[2..4] == "34" && s[4..5] == "5";
    assert MatchOffsetMinute(s, 4, None, false).None?;
    assert MatchOffsetColon(s, 4, None).None?;
    assert MatchZone(s, 4).None?;
    assert MatchSecond(s, 4, Head("12", false, Some("34"), false)).None?;
    assert MatchColon2(s, 4, "12", false, Some("34")).None?;
    assert MatchZone(s, 5) == Some(NoZone);
    var found := TimeMatch(head, Some(SecondPart("34", false, Some("5"))), NoZone);
    assert "5" + ZoneText(NoZone) == s[4..];
    FractionDigitsLongestMatch(s, 4, "5", NoZone);
    assert MatchFraction(s, 4, head, "34", false) == Some(found);
    assert MatchDot(s, 4, head, "34") == Some(found);
    assert MatchSecond(s, 2, head) == Some(found);
    assert MatchColon2(s, 2, "12", false, None) == Some(found);
    assert MatchMinute(s, 2, "12", false) == Some(found);
  }
}
