/** The proleptic Gregorian calendar as Go's `time` package counts it.

A civil date is numbered by its distance in days from 1970-01-01.  `DayNumber`
is the linear count Go's `time.Date` computes (the day of the month is simply
added, so a day past the end of a month lands in the next one), and `DateOf` is
its inverse on valid dates.  Both round trips are proved.
 */
module Calendar {

  predicate IsLeapYear(y: int) {
    y % 4 == 0 && (y % 100 != 0 || y % 400 == 0)
  }

  function DaysInYear(y: int): int {
    if IsLeapYear(y) then 366 else 365
  }

  function DaysInMonth(y: int, m: int): int
    requires 1 <= m <= 12
  {
    [31, 28, 31, 30, 31, 30, 31, 31, 30, 31, 30, 31][m - 1] + (if m == 2 && IsLeapYear(y) then 1 else 0)
  }

  lemma MonthLength(y: int, m: int)
    requires 1 <= m <= 12
    ensures 28 <= DaysInMonth(y, m) <= 31
  {
  }

  /** Days of year `y` before the first of month `m`. */
  function DaysBeforeMonth(y: int, m: int): int
    requires 1 <= m <= 12
  {
    [0, 31, 59, 90, 120, 151, 181, 212, 243, 273, 304, 334][m - 1] + (if m > 2 && IsLeapYear(y) then 1 else 0)
  }

  lemma MonthStep(y: int, m: int)
    requires 1 <= m <= 12
    ensures m < 12 ==> DaysBeforeMonth(y, m + 1) == DaysBeforeMonth(y, m) + DaysInMonth(y, m)
    ensures m == 12 ==> DaysBeforeMonth(y, m) + DaysInMonth(y, m) == DaysInYear(y)
    ensures 28 <= DaysInMonth(y, m) <= 31
  {
  }

  /** Leap years strictly before year `y`, counted from an arbitrary fixed origin;
      differences of this count are exact for all years, negative ones included. */
  function LeapsBefore(y: int): int {
    (y - 1) / 4 - (y - 1) / 100 + (y - 1) / 400
  }

  /** Days from 1970-01-01 to the first of January of year `y`. */
  function DaysBeforeYear(y: int): int {
    365 * (y - 1970) + LeapsBefore(y) - LeapsBefore(1970)
  }

  lemma DivStep4(y: int)
    ensures y / 4 - (y - 1) / 4 == if y % 4 == 0 then 1 else 0
  {
  }

  lemma DivStep100(y: int)
    ensures y / 100 - (y - 1) / 100 == if y % 100 == 0 then 1 else 0
  {
  }

  lemma DivStep400(y: int)
    ensures y / 400 - (y - 1) / 400 == if y % 400 == 0 then 1 else 0
  {
  }

  /** Consecutive New Year's days are one year's length apart. */
  lemma YearStep(y: int)
    ensures DaysBeforeYear(y + 1) == DaysBeforeYear(y) + DaysInYear(y)
  {
    DivStep4(y);
    DivStep100(y);
    DivStep400(y);
  }

  /** Over `b - a` years the day count grows by between 365 and 366 days a year. */
  lemma {:induction false} YearGrowth(a: int, b: int)
    requires a <= b
    ensures 365 * (b - a) <= DaysBeforeYear(b) - DaysBeforeYear(a) <= 366 * (b - a)
    decreases b - a
  {
    if a < b {
      YearGrowth(a, b - 1);
      YearStep(b - 1);
    }
  }

  /** The year that contains day `z`, searched upward from a year known to start no later. */
  function YearFrom(z: int, y: int): (r: int)
    requires DaysBeforeYear(y) <= z
    ensures DaysBeforeYear(r) <= z < DaysBeforeYear(r + 1)
    decreases z - DaysBeforeYear(y)
  {
    YearStep(y);
    if z < DaysBeforeYear(y + 1) then y else YearFrom(z, y + 1)
  }

  lemma StartBelow(z: int)
    ensures z >= 0 ==> DaysBeforeYear(1970 + z / 366) <= z
    ensures z < 0 ==> DaysBeforeYear(1970 + z / 365) <= z
  {
    if z >= 0 {
      YearGrowth(1970, 1970 + z / 366);
    } else {
      YearGrowth(1970 + z / 365, 1970);
    }
  }

  /** The year containing day number `z`. */
  function YearOf(z: int): (y: int)
    ensures DaysBeforeYear(y) <= z < DaysBeforeYear(y + 1)
  {
    StartBelow(z);
    if z >= 0 then YearFrom(z, 1970 + z / 366) else YearFrom(z, 1970 + z / 365)
  }

  /** Only one year contains a given day. */
  lemma YearUnique(z: int, y1: int, y2: int)
    requires DaysBeforeYear(y1) <= z < DaysBeforeYear(y1 + 1)
    requires DaysBeforeYear(y2) <= z < DaysBeforeYear(y2 + 1)
    ensures y1 == y2
  {
    if y1 < y2 {
      YearGrowth(y1 + 1, y2);
    } else if y2 < y1 {
      YearGrowth(y2 + 1, y1);
    }
  }

  /** The month of year `y` containing day `doy` of the year (0-based), searched from `m`. */
  function MonthFrom(y: int, doy: int, m: int): (r: int)
    requires 1 <= m <= 12
    requires DaysBeforeMonth(y, m) <= doy < DaysInYear(y)
    ensures m <= r <= 12
    ensures DaysBeforeMonth(y, r) <= doy < DaysBeforeMonth(y, r) + DaysInMonth(y, r)
    decreases 12 - m
  {
    MonthStep(y, m);
    if doy < DaysBeforeMonth(y, m) + DaysInMonth(y, m) then m else MonthFrom(y, doy, m + 1)
  }

  /** Only one month contains a given day of the year. */
  lemma MonthUnique(y: int, doy: int, m1: int, m2: int)
    requires 1 <= m1 <= 12 && 1 <= m2 <= 12
    requires DaysBeforeMonth(y, m1) <= doy < DaysBeforeMonth(y, m1) + DaysInMonth(y, m1)
    requires DaysBeforeMonth(y, m2) <= doy < DaysBeforeMonth(y, m2) + DaysInMonth(y, m2)
    ensures m1 == m2
  {
  }

  datatype Date = Date(year: int, month: int, day: int)

  predicate ValidDate(d: Date) {
    1 <= d.month <= 12 && 1 <= d.day <= DaysInMonth(d.year, d.month)
  }

  /** Days from 1970-01-01 to year `y`, month `m`, day `d`.  As in Go's `time.Date`,
      `d` is not checked against the month: it is counted on linearly. */
  function DayNumber(y: int, m: int, d: int): int
    requires 1 <= m <= 12
  {
    DaysBeforeYear(y) + DaysBeforeMonth(y, m) + d - 1
  }

  /** The civil date of day number `z`: a valid date whose day number is `z`. */
  function DateOf(z: int): (d: Date)
    ensures ValidDate(d)
    ensures DayNumber(d.year, d.month, d.day) == z
  {
    var y := YearOf(z);
    YearStep(y);
    var doy := z - DaysBeforeYear(y);
    var m := MonthFrom(y, doy, 1);
    Date(y, m, doy - DaysBeforeMonth(y, m) + 1)
  }

  /** Numbering a valid date and converting back gives the same date. */
  lemma DateOfDayNumber(d: Date)
    requires ValidDate(d)
    ensures DateOf(DayNumber(d.year, d.month, d.day)) == d
  {
    var z := DayNumber(d.year, d.month, d.day);
    var e := DateOf(z);
    InsideYear(d);
    InsideYear(e);
    YearUnique(z, d.year, e.year);
    MonthUnique(d.year, z - DaysBeforeYear(d.year), d.month, e.month);
  }

  /** A valid date's day number falls within its year. */
  lemma InsideYear(d: Date)
    requires ValidDate(d)
    ensures var z := DayNumber(d.year, d.month, d.day);
      DaysBeforeYear(d.year) <= z < DaysBeforeYear(d.year + 1)
  {
    MonthStep(d.year, d.month);
    if d.month < 12 {
      MonthStep(d.year, 12);
      assert DaysBeforeMonth(d.year, d.month) + DaysInMonth(d.year, d.month) <= DaysInYear(d.year);
    }
    YearStep(d.year);
  }

  /** Day numbers order valid dates: two valid dates with the same number are equal. */
  lemma DayNumberInjective(a: Date, b: Date)
    requires ValidDate(a) && ValidDate(b)
    ensures DayNumber(a.year, a.month, a.day) == DayNumber(b.year, b.month, b.day) <==> a == b
  {
    DateOfDayNumber(a);
    DateOfDayNumber(b);
  }

  /** The month after `(y, m)`. */
  function NextMonth(y: int, m: int): (r: (int, int))
    requires 1 <= m <= 12
    ensures 1 <= r.1 <= 12
  {
    if m == 12 then (y + 1, 1) else (y, m + 1)
  }

  /** Counting on past the end of a month continues into the next month. */
  lemma DayNumberOverflow(y: int, m: int, d: int)
    requires 1 <= m <= 12
    ensures DayNumber(y, m, d) == DayNumber(NextMonth(y, m).0, NextMonth(y, m).1, d - DaysInMonth(y, m))
  {
    MonthStep(y, m);
    if m == 12 {
      YearStep(y);
    }
  }
}
