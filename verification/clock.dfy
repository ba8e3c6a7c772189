/** Instants and Go's `time.Time` arithmetic in UTC.

An instant is a count of nanoseconds since 1970-01-01T00:00:00Z.  `Add` is
`Time.Add` (a fixed duration), `Date` is `time.Date` (month overflow carried
into the year, day overflow counted on into later months), and `AddDate` is
`Time.AddDate`, which re-assembles the civil fields with the offsets added.
`String` is `Time.String` for a time in the UTC location.
 */
module Clock {
  import opened Calendar
  import opened Decimal
  import opened Text

  const Second: int := 1_000_000_000
  const Minute: int := 60_000_000_000
  const Hour: int := 3_600_000_000_000
  const Day: int := 86_400_000_000_000

  datatype Instant = Instant(ns: int)

  /** `Time.Add(d)` for a duration of `d` nanoseconds. */
  function Add(t: Instant, d: int): (r: Instant)
    ensures r.ns - t.ns == d
  {
    Instant(t.ns + d)
  }

  /** A civil date and wall-clock time in UTC. */
  datatype DateTime = DateTime(year: int, month: int, day: int, hour: int, minute: int, second: int, nanosecond: int)

  predicate ValidDateTime(c: DateTime) {
    && ValidDate(Calendar.Date(c.year, c.month, c.day))
    && 0 <= c.hour < 24 && 0 <= c.minute < 60 && 0 <= c.second < 60
    && 0 <= c.nanosecond < 1_000_000_000
  }

  /** Nanoseconds since the epoch of a day number and a wall-clock time on that day;
      the clock fields are counted on linearly, so out-of-range values carry over. */
  function Compose(days: int, hour: int, minute: int, second: int, nsec: int): int {
    (((days * 24 + hour) * 60 + minute) * 60 + second) * 1_000_000_000 + nsec
  }

  /** Go's `time.Date(year, month, day, hour, min, sec, nsec, time.UTC)`.  The month is
      normalised into `1..12` by carrying whole years; every other field is counted
      on linearly, which is what Go's normalisation of the other fields amounts to. */
  function Date(year: int, month: int, day: int, hour: int, minute: int, second: int, nsec: int): Instant {
    var m0 := month - 1;
    var y := year + m0 / 12;
    var m := m0 % 12 + 1;
    Instant(Compose(DayNumber(y, m, day), hour, minute, second, nsec))
  }

  /** The instant a civil time with a normal month denotes. */
  function FromCivil(c: DateTime): Instant
    requires 1 <= c.month <= 12
  {
    Instant(Compose(DayNumber(c.year, c.month, c.day), c.hour, c.minute, c.second, c.nanosecond))
  }

  /** `time.Date` on an already normal month is `FromCivil`. */
  lemma DateOfNormalMonth(c: DateTime)
    requires 1 <= c.month <= 12
    ensures Date(c.year, c.month, c.day, c.hour, c.minute, c.second, c.nanosecond) == FromCivil(c)
  {
    DivModOf(c.month - 1, 12, 0, c.month - 1);
  }

  lemma MulAtLeast(k: int, b: int)
    requires k >= 1 && b >= 0
    ensures k * b >= b
  {
  }

  /** Euclidean division by a positive divisor is determined by quotient and remainder. */
  lemma DivModOf(x: int, b: int, q: int, r: int)
    requires b > 0 && 0 <= r < b && x == q * b + r
    ensures x / b == q && x % b == r
  {
    var q' := x / b;
    var r' := x % b;
    assert x == q' * b + r';
    if q' < q {
      assert (q - q') * b == r' - r;
      MulAtLeast(q - q', b);
    } else if q < q' {
      assert (q' - q) * b == r - r';
      MulAtLeast(q' - q, b);
    }
  }

  /** The civil fields of an instant: `Time.Date()`, `Time.Clock()` and `Time.Nanosecond()`. */
  function ToCivil(t: Instant): (c: DateTime)
    ensures ValidDateTime(c)
    ensures FromCivil(c) == t
  {
    var secs := t.ns / 1_000_000_000;
    var mins := secs / 60;
    var hours := mins / 60;
    var d := DateOf(hours / 24);
    DateTime(d.year, d.month, d.day, hours % 24, mins % 60, secs % 60, t.ns % 1_000_000_000)
  }

  /** A valid civil time survives the trip to an instant and back. */
  lemma ToCivilFromCivil(c: DateTime)
    requires ValidDateTime(c)
    ensures ToCivil(FromCivil(c)) == c
  {
    var dn := DayNumber(c.year, c.month, c.day);
    var hours := dn * 24 + c.hour;
    var mins := hours * 60 + c.minute;
    var secs := mins * 60 + c.second;
    var ns := secs * 1_000_000_000 + c.nanosecond;
    assert FromCivil(c).ns == ns;
    DivModOf(ns, 1_000_000_000, secs, c.nanosecond);
    DivModOf(secs, 60, mins, c.second);
    DivModOf(mins, 60, hours, c.minute);
    DivModOf(hours, 24, dn, c.hour);
    DateOfDayNumber(Calendar.Date(c.year, c.month, c.day));
  }

  /** `Time.AddDate(years, months, days)`: the civil fields plus the offsets, normalised by `Date`. */
  function AddDate(t: Instant, years: int, months: int, days: int): (r: Instant)
    ensures years == 0 && months == 0 ==> r == Add(t, days * Day)
  {
    AddCivilDays(ToCivil(t), days);
    AddCivil(ToCivil(t), years, months, days)
  }

  function AddCivil(c: DateTime, years: int, months: int, days: int): Instant {
    Date(c.year + years, c.month + months, c.day + days, c.hour, c.minute, c.second, c.nanosecond)
  }

  /** In UTC, adding calendar days is adding whole 24-hour days. */
  lemma AddCivilDays(c: DateTime, n: int)
    requires 1 <= c.month <= 12
    ensures AddCivil(c, 0, 0, n) == Add(FromCivil(c), n * Day)
  {
    DateOfNormalMonth(c);
    var dn := DayNumber(c.year, c.month, c.day);
    assert DayNumber(c.year, c.month, c.day + n) == dn + n;
    assert Compose(dn + n, c.hour, c.minute, c.second, c.nanosecond)
        == Compose(dn, c.hour, c.minute, c.second, c.nanosecond) + n * Day;
  }

  /** The month `n` months after `(y, m)`, with whole years carried. */
  function MonthsLater(y: int, m: int, n: int): (r: (int, int))
    requires 1 <= m <= 12
    ensures 1 <= r.1 <= 12
  {
    (y + (m - 1 + n) / 12, (m - 1 + n) % 12 + 1)
  }

  /** Adding `n` months moves a whole number of years and ends in the same month of the
      year that counting `n` months one at a time reaches. */
  lemma MonthsLaterCounts(y: int, m: int, n: int)
    requires 1 <= m <= 12
    ensures var r := MonthsLater(y, m, n); r.0 * 12 + r.1 == y * 12 + m + n
  {
  }

  /** `time.Date` with a month past December (or before January) lands on `FromCivil` of
      the same day and clock in the month `MonthsLater` names. */
  lemma DateMonthsLater(c: DateTime, n: int)
    requires 1 <= c.month <= 12
    ensures var ym := MonthsLater(c.year, c.month, n);
      Date(c.year, c.month + n, c.day, c.hour, c.minute, c.second, c.nanosecond)
        == FromCivil(DateTime(ym.0, ym.1, c.day, c.hour, c.minute, c.second, c.nanosecond))
  {
    var ym := MonthsLater(c.year, c.month, n);
    var m0 := c.month + n - 1;
    assert c.year + m0 / 12 == ym.0 && m0 % 12 + 1 == ym.1;
  }

  /** `AddDate` with only a month offset, from a valid civil time. */
  lemma AddMonthsCivil(c: DateTime, n: int)
    requires ValidDateTime(c)
    ensures var ym := MonthsLater(c.year, c.month, n);
      AddDate(FromCivil(c), 0, n, 0) == FromCivil(DateTime(ym.0, ym.1, c.day, c.hour, c.minute, c.second, c.nanosecond))
  {
    var t := FromCivil(c);
    ToCivilFromCivil(c);
    assert AddDate(t, 0, n, 0) == AddCivil(c, 0, n, 0);
    MonthsOnly(c, n);
    DateMonthsLater(c, n);
  }

  lemma MonthsOnly(c: DateTime, n: int)
    ensures AddCivil(c, 0, n, 0) == Date(c.year, c.month + n, c.day, c.hour, c.minute, c.second, c.nanosecond)
  {
  }

  /** Adding months keeps the day of the month and the clock when the day exists in the
      target month. */
  lemma AddDateMonthsFits(c: DateTime, n: int)
    requires ValidDateTime(c)
    requires var ym := MonthsLater(c.year, c.month, n); c.day <= DaysInMonth(ym.0, ym.1)
    ensures var ym := MonthsLater(c.year, c.month, n);
      ToCivil(AddDate(FromCivil(c), 0, n, 0)) == DateTime(ym.0, ym.1, c.day, c.hour, c.minute, c.second, c.nanosecond)
  {
    var ym := MonthsLater(c.year, c.month, n);
    AddMonthsCivil(c, n);
    ToCivilFromCivil(DateTime(ym.0, ym.1, c.day, c.hour, c.minute, c.second, c.nanosecond));
  }

  /** A civil time whose day runs past the end of its month denotes the same instant as
      the valid civil time that many days into the following month. */
  lemma RollOver(d: DateTime)
    requires 1 <= d.month <= 12 && DaysInMonth(d.year, d.month) < d.day <= 31
    requires 0 <= d.hour < 24 && 0 <= d.minute < 60 && 0 <= d.second < 60 && 0 <= d.nanosecond < 1_000_000_000
    ensures var next := NextMonth(d.year, d.month);
      var rolled := DateTime(next.0, next.1, d.day - DaysInMonth(d.year, d.month), d.hour, d.minute, d.second, d.nanosecond);
      ValidDateTime(rolled) && FromCivil(d) == FromCivil(rolled)
  {
    var next := NextMonth(d.year, d.month);
    DayNumberOverflow(d.year, d.month, d.day);
    MonthStep(d.year, d.month);
    MonthStep(next.0, next.1);
  }

  /** Adding months to a day that the target month lacks rolls over into the following
      month by the surplus: January 31 plus one month is March 3 (March 2 in a leap year). */
  lemma AddDateMonthsOverflow(c: DateTime, n: int)
    requires ValidDateTime(c)
    requires var ym := MonthsLater(c.year, c.month, n); c.day > DaysInMonth(ym.0, ym.1)
    ensures var ym := MonthsLater(c.year, c.month, n);
      var next := NextMonth(ym.0, ym.1);
      ToCivil(AddDate(FromCivil(c), 0, n, 0))
        == DateTime(next.0, next.1, c.day - DaysInMonth(ym.0, ym.1), c.hour, c.minute, c.second, c.nanosecond)
  {
    var ym := MonthsLater(c.year, c.month, n);
    var next := NextMonth(ym.0, ym.1);
    var d := DateTime(ym.0, ym.1, c.day, c.hour, c.minute, c.second, c.nanosecond);
    var rolled := DateTime(next.0, next.1, c.day - DaysInMonth(ym.0, ym.1), c.hour, c.minute, c.second, c.nanosecond);
    MonthLength(c.year, c.month);
    assert c.day <= 31;
    AddMonthsCivil(c, n);
    RollOver(d);
    SameInstant(AddDate(FromCivil(c), 0, n, 0), d, rolled);
  }

  /** An instant denoted by a civil time is read back as the valid civil time for it. */
  lemma SameInstant(t: Instant, d: DateTime, rolled: DateTime)
    requires 1 <= d.month <= 12 && ValidDateTime(rolled)
    requires t == FromCivil(d) && FromCivil(d) == FromCivil(rolled)
    ensures ToCivil(t) == rolled
  {
    ToCivilFromCivil(rolled);
  }

  /** The worked example: 2021-01-31 09:30 UTC plus one month is 2021-03-03 09:30 UTC. */
  lemma JanuaryThirtyFirstPlusOneMonth()
    ensures ToCivil(AddDate(FromCivil(DateTime(2021, 1, 31, 9, 30, 0, 0)), 0, 1, 0)) == DateTime(2021, 3, 3, 9, 30, 0, 0)
  {
    var c := DateTime(2021, 1, 31, 9, 30, 0, 0);
    DivModOf(1, 12, 0, 1);
    assert MonthsLater(2021, 1, 1) == (2021, 2);
    assert !IsLeapYear(2021);
    AddDateMonthsOverflow(c, 1);
  }

  // ---------------------------------------------------------------- printing

  /** `Time.String()` for a UTC time: layout "2006-01-02 15:04:05.999999999 -0700 MST". */
  function String(t: Instant): (r: string)
    ensures |r| >= 29 && r[|r| - 10..] == " +0000 UTC"
  {
    var c := ToCivil(t);
    var date := Padded(c.year, 4) + "-" + Padded(c.month, 2) + "-" + Padded(c.day, 2);
    var time := Padded(c.hour, 2) + ":" + Padded(c.minute, 2) + ":" + Padded(c.second, 2);
    ConcatPieces(date, " ", time, Fraction(c.nanosecond), " +0000 UTC");
    date + " " + time + Fraction(c.nanosecond) + " +0000 UTC"
  }

  /** Three fields of `w`, `2` and `2` digits with one-character separators read back at
      their fixed positions. */
  lemma ThreeFields(a: int, b: int, c: int, w: nat, sep: string)
    requires |sep| == 1 && w >= 1
    requires 0 <= a < Pow10(w) && 0 <= b < 100 && 0 <= c < 100
    ensures var s := Padded(a, w) + sep + Padded(b, 2) + sep + Padded(c, 2);
      && |s| == w + 6
      && Reads(s, 0, w, a) && s[w..w + 1] == sep && Reads(s, w + 1, w + 3, b)
      && s[w + 3..w + 4] == sep && Reads(s, w + 4, w + 6, c)
  {
    Pow10Four();
    PaddedReadBack(a, w);
    PaddedReadBack(b, 2);
    PaddedReadBack(c, 2);
    DigitFields(Padded(a, w), Padded(b, 2), Padded(c, 2), sep, w, a, b, c);
  }

  lemma DigitFields(x: string, y: string, z: string, sep: string, w: nat, a: int, b: int, c: int)
    requires |x| == w && |sep| == 1 && |y| == 2 && |z| == 2
    requires AllDigits(x) && ParseDigits(x) == a
    requires AllDigits(y) && ParseDigits(y) == b
    requires AllDigits(z) && ParseDigits(z) == c
    ensures var s := x + sep + y + sep + z;
      && |s| == w + 6
      && Reads(s, 0, w, a) && s[w..w + 1] == sep && Reads(s, w + 1, w + 3, b)
      && s[w + 3..w + 4] == sep && Reads(s, w + 4, w + 6, c)
  {
    ConcatPieces(x, sep, y, sep, z);
    var s := x + sep + y + sep + z;
    assert s[0..w] == x by { assert s[0..w] == s[..w]; }
    assert s[w + 1..w + 3] == y;
    assert s[w + 4..w + 6] == z;
  }

  /** The printed time reads back as the civil time it was built from: the year (when it
      has at most four digits), month, day, hour, minute and second at their positions of
      the layout, followed by the fraction of a second. */
  lemma StringReadBack(c: DateTime)
    requires ValidDateTime(c) && 0 <= c.year < 10000
    ensures var r := String(FromCivil(c));
      && |r| >= 29
      && r[4] == '-' && r[7] == '-' && r[10] == ' ' && r[13] == ':' && r[16] == ':'
      && Reads(r, 0, 4, c.year) && Reads(r, 5, 7, c.month) && Reads(r, 8, 10, c.day)
      && Reads(r, 11, 13, c.hour) && Reads(r, 14, 16, c.minute) && Reads(r, 17, 19, c.second)
      && r[19..|r| - 10] == Fraction(c.nanosecond)
  {
    ToCivilFromCivil(c);
    Pow10Four();
    ThreeFields(c.year, c.month, c.day, 4, "-");
    ThreeFields(c.hour, c.minute, c.second, 2, ":");
    var date := Padded(c.year, 4) + "-" + Padded(c.month, 2) + "-" + Padded(c.day, 2);
    var time := Padded(c.hour, 2) + ":" + Padded(c.minute, 2) + ":" + Padded(c.second, 2);
    Layout(date, time, Fraction(c.nanosecond), String(FromCivil(c)),
           c.year, c.month, c.day, c.hour, c.minute, c.second);
  }

  /** The layout "date time fraction +0000 UTC" with a ten-character date and an
      eight-character time puts each field at a fixed position. */
  lemma Layout(date: string, time: string, f: string, r: string,
               y: int, mo: int, d: int, h: int, mi: int, se: int)
    requires r == date + " " + time + f + " +0000 UTC"
    requires |date| == 10 && Reads(date, 0, 4, y) && date[4..5] == "-" && Reads(date, 5, 7, mo)
      && date[7..8] == "-" && Reads(date, 8, 10, d)
    requires |time| == 8 && Reads(time, 0, 2, h) && time[2..3] == ":" && Reads(time, 3, 5, mi)
      && time[5..6] == ":" && Reads(time, 6, 8, se)
    ensures && |r| >= 29
      && r[4] == '-' && r[7] == '-' && r[10] == ' ' && r[13] == ':' && r[16] == ':'
      && Reads(r, 0, 4, y) && Reads(r, 5, 7, mo) && Reads(r, 8, 10, d)
      && Reads(r, 11, 13, h) && Reads(r, 14, 16, mi) && Reads(r, 17, 19, se)
      && r[19..|r| - 10] == f
  {
    ConcatPieces(date, " ", time, f, " +0000 UTC");
    assert date[4..5][0] == date[4] && date[7..8][0] == date[7];
    assert time[2..3][0] == time[2] && time[5..6][0] == time[5];
    ReadsShift(r, date, 0, 0, 4, y);
    ReadsShift(r, date, 0, 5, 7, mo);
    ReadsShift(r, date, 0, 8, 10, d);
    ReadsShift(r, time, 11, 0, 2, h);
    ReadsShift(r, time, 11, 3, 5, mi);
    ReadsShift(r, time, 11, 6, 8, se);
    assert r[..10][4] == r[4] && r[..10][7] == r[7];
    assert r[11..19][2] == r[13] && r[11..19][5] == r[16];
  }

  /** A field read inside a piece reads the same inside the text holding that piece. */
  lemma ReadsShift(r: string, p: string, k: nat, i: nat, j: nat, v: int)
    requires k + |p| <= |r| && r[k..k + |p|] == p && Reads(p, i, j, v)
    ensures Reads(r, k + i, k + j, v)
  {
    var u := r[k + i..k + j];
    forall q | 0 <= q < |u| ensures u[q] == p[i..j][q] {
      assert u[q] == r[k..k + |p|][i + q];
    }
    assert u == p[i..j];
  }

  lemma Pow10Four()
    ensures Pow10(2) == 100 && Pow10(4) == 10000
  {
    assert Pow10(1) == 10 && Pow10(3) == 1000;
  }

  lemma Pow10Nine()
    ensures Pow10(9) == Second
  {
    assert Pow10(1) == 10 && Pow10(2) == 100 && Pow10(3) == 1000 && Pow10(4) == 10000;
    assert Pow10(5) == 100000 && Pow10(6) == 1000000 && Pow10(7) == 10000000;
    assert Pow10(8) == 100000000;
  }

  /** The fraction read back: its digits, padded on the right with zeros to nine, are the
      nanoseconds. */
  lemma FractionReadBack(ns: nat)
    requires ns < Second
    ensures var f := Fraction(ns);
      var d := if f == "" then "" else f[1..];
      && |d| <= 9 && AllDigits(d)
      && ParseDigits(d + seq(9 - |d|, _ => '0')) == ns
  {
    Pow10Nine();
    ShowAtMost(ns, 9);
    ParseShow(ns);
    ParseZeroPad(Show(ns), 9);
    var z := ZeroPad(Show(ns), 9);
    var d := DropTrailingZeros(z);
    RightZeros(z, d);
    var f := Fraction(ns);
    assert f == "" || f[1..] == d;
  }

  /** A prefix followed only by zeros is the whole text once padded back with zeros; its
      digits are digits of the whole. */
  lemma RightZeros(z: string, d: string)
    requires AllDigits(z) && |d| <= |z| && d == z[..|d|]
    requires forall i | |d| <= i < |z| :: z[i] == '0'
    ensures AllDigits(d)
    ensures d + seq(|z| - |d|, _ => '0') == z
  {
    assert forall i | 0 <= i < |d| :: d[i] == z[i];
  }


  /** The ".999999999" element: nine digits with trailing zeros dropped, and nothing at
      all (not even the dot) for a whole second. */
  function Fraction(ns: nat): (r: string)
    requires ns < Second
    ensures ns == 0 <==> r == ""
    ensures r != "" ==> r[0] == '.' && r[|r| - 1] != '0'
  {
    var digits := DropTrailingZeros(ZeroPad(Show(ns), 9));
    if digits == "" then "" else "." + digits
  }

  function DropTrailingZeros(s: string): (r: string)
    ensures |r| <= |s| && r == s[..|r|]
    ensures forall i | |r| <= i < |s| :: s[i] == '0'
    ensures r == "" || r[|r| - 1] != '0'
  {
    if |s| > 0 && s[|s| - 1] == '0' then DropTrailingZeros(s[..|s| - 1]) else s
  }
}
