/** The civil date of an epoch timestamp (actions.rs, `format_epoch_date`), against an
    independent day count of the Gregorian calendar. */
module Calendar {

  const U32: nat := 0x1_0000_0000

  /** `is_leap_year_ami` */
  predicate IsLeap(y: nat) {
    (y % 4 == 0 && y % 100 != 0) || y % 400 == 0
  }

  function DaysInYear(y: nat): nat {
    if IsLeap(y) then 366 else 365
  }

  /** `month_days` */
  function DaysInMonth(leap: bool, month: nat): (n: nat)
    requires 1 <= month <= 12
    ensures 28 <= n <= 31
  {
    [31, if leap then 29 else 28, 31, 30, 31, 30, 31, 31, 30, 31, 30, 31][month - 1]
  }

  datatype Date = Date(year: nat, month: nat, day: nat)

  predicate IsDate(d: Date) {
    1 <= d.year && 1 <= d.month <= 12 && 1 <= d.day <= DaysInMonth(IsLeap(d.year), d.month)
  }

  /** Days from 1970-01-01 to the first of January, by the rule of centuries. */
  function DaysBeforeYear(y: nat): int
    requires 1 <= y
  {
    365 * (y - 1970) + (y - 1) / 4 - (y - 1) / 100 + (y - 1) / 400 - 477
  }

  function DaysBeforeMonth(leap: bool, month: nat): nat
    requires 1 <= month <= 13
  {
    [0, 31, 59, 90, 120, 151, 181, 212, 243, 273, 304, 334, 365][month - 1]
    + (if leap && month > 2 then 1 else 0)
  }

  /** The number of days from 1970-01-01 to a date. */
  function DayNumber(d: Date): int
    requires IsDate(d)
  {
    DaysBeforeYear(d.year) + DaysBeforeMonth(IsLeap(d.year), d.month) + d.day - 1
  }

  lemma YearAfter(y: nat)
    requires 1 <= y
    ensures DaysBeforeYear(y + 1) == DaysBeforeYear(y) + DaysInYear(y)
  {
    Multiples(y);
    assert y / 4 == (y - 1) / 4 + (if y % 4 == 0 then 1 else 0);
    assert y / 100 == (y - 1) / 100 + (if y % 100 == 0 then 1 else 0);
    assert y / 400 == (y - 1) / 400 + (if y % 400 == 0 then 1 else 0);
  }

  lemma Multiples(y: nat)
    ensures y % 400 == 0 ==> y % 100 == 0
    ensures y % 100 == 0 ==> y % 4 == 0
  {
    if y % 100 == 0 {
      assert y == 4 * (25 * (y / 100));
    }
    if y % 400 == 0 {
      assert y == 100 * (4 * (y / 400));
    }
  }

  lemma {:induction false} MonthAfter(leap: bool, month: nat)
    requires 1 <= month <= 12
    ensures DaysBeforeMonth(leap, month + 1) == DaysBeforeMonth(leap, month) + DaysInMonth(leap, month)
    ensures DaysBeforeMonth(leap, 13) == if leap then 366 else 365
  {
  }

  /** The civil date. Its year and month loops terminate, the line after the month loop is
      never reached, and the result is the one date with that day number; the `as u32` cast
      makes it the right one exactly when the day count fits 32 bits. */
  method FormatEpochDate(epoch: nat) returns (date: Date)
    ensures IsDate(date) && date.year >= 1970
    ensures DayNumber(date) == (epoch / 86400) % U32
    ensures DayNumber(date) == epoch / 86400 <==> epoch / 86400 < U32
  {
    var days := (epoch / 86400) % U32;
    var year, remaining := 1970, days;
    while remaining >= DaysInYear(year)
      invariant year >= 1970 && remaining >= 0 && DaysBeforeYear(year) + remaining == days
      decreases remaining
    {
      YearAfter(year);
      remaining := remaining - DaysInYear(year);
      year := year + 1;
    }
    var leap := IsLeap(year);
    var month := 1;
    while month <= 12
      invariant 1 <= month <= 13 && remaining >= 0
      invariant DaysBeforeYear(year) + DaysBeforeMonth(leap, month) + remaining == days
      invariant DaysBeforeMonth(leap, month) + remaining < DaysInYear(year)
    {
      if remaining < DaysInMonth(leap, month) {
        return Date(year, month, remaining + 1);
      }
      MonthAfter(leap, month);
      remaining := remaining - DaysInMonth(leap, month);
      month := month + 1;
    }
    assert false;
  }

  ghost predicate Earlier(a: Date, b: Date) {
    || a.year < b.year
    || (a.year == b.year && a.month < b.month)
    || (a.year == b.year && a.month == b.month && a.day < b.day)
  }

  lemma {:induction false} YearsApart(y: nat, z: nat)
    requires 1 <= y < z
    ensures DaysBeforeYear(y) + DaysInYear(y) <= DaysBeforeYear(z)
    decreases z
  {
    YearAfter(z - 1);
    if y < z - 1 {
      YearsApart(y, z - 1);
    }
  }

  lemma {:induction false} MonthsApart(leap: bool, m: nat, n: nat)
    requires 1 <= m < n <= 13
    ensures DaysBeforeMonth(leap, m) + DaysInMonth(leap, m) <= DaysBeforeMonth(leap, n)
    decreases n
  {
    MonthAfter(leap, n - 1);
    if m < n - 1 {
      MonthsApart(leap, m, n - 1);
    }
  }

  /** Later dates have larger day numbers, so a day number names one date only and the
      civil date is strictly increasing with the day. */
  lemma {:induction false} DayNumberIsMonotone(a: Date, b: Date)
    requires IsDate(a) && IsDate(b)
    ensures Earlier(a, b) <==> DayNumber(a) < DayNumber(b)
    ensures a == b <==> DayNumber(a) == DayNumber(b)
  {
    if Earlier(a, b) {
      EarlierIsSmaller(a, b);
    } else if Earlier(b, a) {
      EarlierIsSmaller(b, a);
    }
  }

  lemma {:induction false} EarlierIsSmaller(a: Date, b: Date)
    requires IsDate(a) && IsDate(b) && Earlier(a, b)
    ensures DayNumber(a) < DayNumber(b)
  {
    hide DaysBeforeYear, DaysInMonth, DaysBeforeMonth;
    var leap := IsLeap(a.year);
    MonthsApart(leap, a.month, 13);
    MonthAfter(leap, 12);
    DaysBeforeMonthBound(IsLeap(b.year), b.month);
    if a.year < b.year {
      YearsApart(a.year, b.year);
    } else if a.month < b.month {
      MonthsApart(leap, a.month, b.month);
    }
  }

  lemma DaysBeforeMonthBound(leap: bool, month: nat)
    requires 1 <= month <= 12
    ensures 0 <= DaysBeforeMonth(leap, month)
  {
  }
}
