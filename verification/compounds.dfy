/** Month-year pairs and candidate dates: month lengths settled by the paired
    year, on-demand validity, and the derived lexicographic ordering. */
module Compounds {
  import opened Ints
  import opened Units
  import opened Wrappers

  /** A month anchored to a year, so that February's length is known. */
  datatype YearMonth = YearMonth(year: I64, month: Month)

  /** A candidate date; it may name a day the month does not have. */
  datatype YearMonthDay = YearMonthDay(year: I64, month: Month, day: I8)

  /** `YearMonth::day_count`: the number of days in the month, with February
      resolved by the paired year's leap-year status. */
  function DayCount(ym: YearMonth): (r: I8)
    ensures 28 <= r <= 31
    ensures ym.month == February ==> (r == 29 <==> IsLeapYear(ym.year)) && (r == 28 <==> !IsLeapYear(ym.year))
    ensures ym.month != February ==> r == DaysInMonth(ym.month, false) && r == DaysInMonth(ym.month, true)
  {
    DaysInMonth(ym.month, IsLeapYear(ym.year))
  }

  /** `YearMonth::day`: a short-cut to the date constructor `ymd`, which does
      its own validation; nothing is checked here. */
  function Day<D>(ym: YearMonth, day: I8, ymd: (I64, Month, I8) -> Option<D>): (r: Option<D>)
    ensures r == ymd(ym.year, ym.month, day)
  {
    ymd(ym.year, ym.month, day)
  }

  /** `YearMonthDay::is_valid`: the day lies within the month, where the caller
      says whether the year is a leap year. */
  predicate IsValid(date: YearMonthDay, isLeapYear: bool): (valid: bool)
    ensures isLeapYear == IsLeapYear(date.year) ==> (valid <==> 1 <= date.day <= DayCount(YearMonth(date.year, date.month)))
    ensures date.month == February && date.day == 29 ==> (valid <==> isLeapYear)
    ensures 1 <= date.day <= 28 ==> valid
    ensures valid ==> 1 <= date.day <= 31
  {
    date.day >= 1 && date.day <= DaysInMonth(date.month, isLeapYear)
  }

  /** The documented examples: February 2000 has 29 days, February 1900 has 28. */
  lemma DayCountExamples()
    ensures DayCount(YearMonth(2000, February)) == 29
    ensures DayCount(YearMonth(1900, February)) == 28
  {
  }

  /** The twelve months of a year, in order. */
  const Months: seq<Month> := FirstHalf + SecondHalf

  /** January to June, and July to December. */
  const FirstHalf: seq<Month> := [January, February, March, April, May, June]

  const SecondHalf: seq<Month> := [July, August, September, October, November, December]

  /** The total of the month lengths of `months` in `year`. */
  function DaysOfMonths(year: I64, months: seq<Month>): nat {
    if months == [] then 0 else DayCount(YearMonth(year, months[0])) + DaysOfMonths(year, months[1..])
  }

  /** Summing `day_count` over a whole year gives 366 in leap years and 365
      otherwise: the year alone fixes February. */
  lemma YearLength(year: I64)
    ensures DaysOfMonths(year, Months) == if IsLeapYear(year) then 366 else 365
  {
    DaysOfMonthsAppend(year, FirstHalf, SecondHalf);
    FirstHalfYear(year);
    SecondHalfYear(year);
  }

  /** The total over two runs of months is the sum of their totals. */
  lemma {:induction false} DaysOfMonthsAppend(year: I64, a: seq<Month>, b: seq<Month>)
    ensures DaysOfMonths(year, a + b) == DaysOfMonths(year, a) + DaysOfMonths(year, b)
  {
    if a == [] {
      assert a + b == b;
    } else {
      assert (a + b)[1..] == a[1..] + b;
      DaysOfMonthsAppend(year, a[1..], b);
    }
  }

  /** The months from the `k`-th on: the `k`-th month's length and the rest. */
  lemma DaysOfMonthsStep(year: I64, ms: seq<Month>, k: nat)
    requires k < |ms|
    ensures DaysOfMonths(year, ms[k..]) == DayCount(YearMonth(year, ms[k])) + DaysOfMonths(year, ms[k + 1..])
  {
    assert ms[k..][1..] == ms[k + 1..];
  }

  /** January to June: 181 days, 182 in a leap year. */
  lemma FirstHalfYear(year: I64)
    ensures DaysOfMonths(year, FirstHalf) == if IsLeapYear(year) then 182 else 181
  {
    var ms := FirstHalf;
    assert DaysOfMonths(year, ms[6..]) == 0;
    DaysOfMonthsStep(year, ms, 5);
    DaysOfMonthsStep(year, ms, 4);
    DaysOfMonthsStep(year, ms, 3);
    assert DaysOfMonths(year, ms[3..]) == 91;
    DaysOfMonthsStep(year, ms, 2);
    DaysOfMonthsStep(year, ms, 1);
    DaysOfMonthsStep(year, ms, 0);
    assert ms[0..] == ms;
  }

  /** July to December: 184 days in every year. */
  lemma SecondHalfYear(year: I64)
    ensures DaysOfMonths(year, SecondHalf) == 184
  {
    var ms := SecondHalf;
    assert DaysOfMonths(year, ms[6..]) == 0;
    DaysOfMonthsStep(year, ms, 5);
    DaysOfMonthsStep(year, ms, 4);
    DaysOfMonthsStep(year, ms, 3);
    assert DaysOfMonths(year, ms[3..]) == 92;
    DaysOfMonthsStep(year, ms, 2);
    DaysOfMonthsStep(year, ms, 1);
    DaysOfMonthsStep(year, ms, 0);
    assert ms[0..] == ms;
  }

  /** Validity boundaries: no day below 1, the last day of the month, and not
      the day after it. */
  lemma ValidityBoundaries(year: I64, month: Month, day: I8, isLeapYear: bool)
    ensures day <= 0 ==> !IsValid(YearMonthDay(year, month, day), isLeapYear)
    ensures IsValid(YearMonthDay(year, month, DaysInMonth(month, isLeapYear)), isLeapYear)
    ensures !IsValid(YearMonthDay(year, month, DaysInMonth(month, isLeapYear) + 1), isLeapYear)
  {
  }

  /** `is_valid` reads only the month, the day and the supplied flag: the year
      field has no effect. */
  lemma ValidityIgnoresYear(y1: I64, y2: I64, month: Month, day: I8, isLeapYear: bool)
    ensures IsValid(YearMonthDay(y1, month, day), isLeapYear) == IsValid(YearMonthDay(y2, month, day), isLeapYear)
  {
  }

  /** The days (among all `i8` values) that `is_valid` accepts for a month. */
  function ValidDays(year: I64, month: Month, isLeapYear: bool): set<int> {
    set d: int | -0x80 <= d < 0x80 && IsValid(YearMonthDay(year, month, d), isLeapYear)
  }

  /** The integers from `lo` up to but excluding `hi`. */
  function Range(lo: int, hi: int): (r: set<int>)
    ensures forall k :: k in r <==> lo <= k < hi
    decreases hi - lo
  {
    if lo >= hi then {} else {lo} + Range(lo + 1, hi)
  }

  lemma {:induction false} RangeSize(lo: int, hi: int)
    requires lo <= hi
    ensures |Range(lo, hi)| == hi - lo
    decreases hi - lo
  {
    if lo < hi {
      RangeSize(lo + 1, hi);
    }
  }

  /** `is_valid` accepts exactly as many days as the month has. */
  lemma ValidDaysCount(year: I64, month: Month, isLeapYear: bool)
    ensures |ValidDays(year, month, isLeapYear)| == DaysInMonth(month, isLeapYear)
  {
    var n := DaysInMonth(month, isLeapYear);
    assert ValidDays(year, month, isLeapYear) == Range(1, n + 1);
    RangeSize(1, n + 1);
  }

  // ----- The derived ordering on YearMonthDay -----

  datatype Ordering = Less | Equal | Greater {
    /** The same comparison with its operands swapped. */
    function Flip(): Ordering {
      match this
      case Less => Greater
      case Equal => Equal
      case Greater => Less
    }
  }

  function CompareInts(a: int, b: int): Ordering {
    if a < b then Less else if a == b then Equal else Greater
  }

  /** The derived `Ord` on `YearMonthDay`: fields compared in declaration order
      (year, then month in calendar order, then day), the first difference decides. */
  function CompareDates(a: YearMonthDay, b: YearMonthDay): (r: Ordering)
    ensures r == Equal <==> a == b
    ensures r == CompareInts(OrderKey(a), OrderKey(b))
  {
    MonthNumberInjective(a.month, b.month);
    OrderKeyMonotone(a, b);
    var byYear := CompareInts(a.year, b.year);
    if byYear != Equal then byYear
    else
      var byMonth := CompareInts(MonthNumber(a.month), MonthNumber(b.month));
      if byMonth != Equal then byMonth else CompareInts(a.day, b.day)
  }

  /** An integer key that places dates in year, month, day order: months take
      twelve slots per year and days take 256 slots per month (one per `i8` value). */
  function OrderKey(d: YearMonthDay): int {
    (d.year * 12 + (MonthNumber(d.month) - 1)) * 256 + (d.day + 0x80)
  }

  /** Mixed-radix comparison: with digits below `base`, `p * base + x` compares
      like the pair (p, x) compares lexicographically. */
  lemma MixedRadix(p: int, x: int, q: int, y: int, base: int)
    requires 0 <= x < base && 0 <= y < base
    ensures p * base + x < q * base + y <==> p < q || (p == q && x < y)
    ensures p * base + x == q * base + y <==> p == q && x == y
  {
    if p < q {
      AtLeastOneMultiple(q - p, base);
      assert q * base == p * base + (q - p) * base;
    } else if q < p {
      AtLeastOneMultiple(p - q, base);
      assert p * base == q * base + (p - q) * base;
    }
  }

  lemma AtLeastOneMultiple(k: int, base: int)
    requires k >= 1 && base >= 0
    ensures k * base >= base
  {
    assert k * base == base + (k - 1) * base;
    assert (k - 1) * base >= 0;
  }

  lemma OrderKeyMonotone(a: YearMonthDay, b: YearMonthDay)
    ensures OrderKey(a) < OrderKey(b) <==>
      a.year < b.year
      || (a.year == b.year && MonthNumber(a.month) < MonthNumber(b.month))
      || (a.year == b.year && a.month == b.month && a.day < b.day)
    ensures OrderKey(a) == OrderKey(b) <==> a == b
  {
    MonthNumberInjective(a.month, b.month);
    var ma, mb := MonthNumber(a.month) - 1, MonthNumber(b.month) - 1;
    MixedRadix(a.year, ma, b.year, mb, 12);
    MixedRadix(a.year * 12 + ma, a.day + 0x80, b.year * 12 + mb, b.day + 0x80, 256);
  }

  /** Swapping the operands flips the comparison. */
  lemma CompareDatesFlip(a: YearMonthDay, b: YearMonthDay)
    ensures CompareDates(b, a) == CompareDates(a, b).Flip()
  {
  }

  /** `<=` on dates, as the derived `Ord` defines it. */
  predicate DateLe(a: YearMonthDay, b: YearMonthDay) {
    CompareDates(a, b) != Greater
  }

  /** The derived ordering is a total order: reflexive, antisymmetric,
      transitive, and any two dates are comparable. */
  lemma DateLeTotalOrder(a: YearMonthDay, b: YearMonthDay, c: YearMonthDay)
    ensures DateLe(a, a)
    ensures DateLe(a, b) && DateLe(b, a) ==> a == b
    ensures DateLe(a, b) && DateLe(b, c) ==> DateLe(a, c)
    ensures DateLe(a, b) || DateLe(b, a)
  {
  }
}
