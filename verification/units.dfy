/** The calendar primitives the compounds and the parser rely on: months,
    the Gregorian leap-year rule and the month-length table. */
module Units {
  import opened Ints

  /** The twelve months, in calendar order (the order a derived `Ord` follows). */
  datatype Month =
    | January | February | March | April | May | June
    | July | August | September | October | November | December

  /** The one-based number of a month: January is 1, December is 12. */
  function MonthNumber(m: Month): (n: int)
    ensures 1 <= n <= 12
  {
    match m
    case January => 1
    case February => 2
    case March => 3
    case April => 4
    case May => 5
    case June => 6
    case July => 7
    case August => 8
    case September => 9
    case October => 10
    case November => 11
    case December => 12
  }

  /** Gregorian leap years: divisible by 4, except centuries not divisible by 400.
      Only tests against zero are made, so Rust's truncating `%` and Dafny's
      Euclidean `%` agree here, negative years included. */
  predicate IsLeapYear(year: int): (leap: bool)
    ensures leap ==> year % 4 == 0
    ensures year % 4 == 0 && year % 100 != 0 ==> leap
    ensures year % 400 == 0 ==> leap
    ensures year % 100 == 0 && year % 400 != 0 ==> !leap
  {
    DivisorFacts(year);
    year % 4 == 0 && (year % 100 != 0 || year % 400 == 0)
  }

  /** A multiple of 400 is a multiple of 100, and a multiple of 100 one of 4. */
  lemma DivisorFacts(year: int)
    ensures year % 400 == 0 ==> year % 100 == 0 && year % 4 == 0
    ensures year % 100 == 0 ==> year % 4 == 0
  {
    if year % 400 == 0 {
      var k := year / 400;
      assert year == 100 * (4 * k) && year == 4 * (100 * k);
    }
    if year % 100 == 0 {
      var k := year / 100;
      assert year == 4 * (25 * k);
    }
  }

  /** The rule repeats every 400 years. */
  lemma LeapYearPeriod(year: int)
    ensures IsLeapYear(year + 400) == IsLeapYear(year)
  {
    assert (year + 400) % 4 == year % 4;
    assert (year + 400) % 100 == year % 100;
    assert (year + 400) % 400 == year % 400;
  }

  /** `Month::days_in_month`: the month's length in a leap or a common year. */
  function DaysInMonth(m: Month, isLeapYear: bool): (r: I8)
    ensures 28 <= r <= 31
    ensures r == 29 <==> m == February && isLeapYear
  {
    match m
    case February => if isLeapYear then 29 else 28
    case April | June | September | November => 30
    case _ => 31
  }

  /** Distinct months have distinct numbers. */
  lemma MonthNumberInjective(a: Month, b: Month)
    ensures MonthNumber(a) == MonthNumber(b) <==> a == b
  {
  }
}
