/**
  Julian day numbers of Gregorian dates, in the closed form of Date.cc, against
  counting days one at a time.
*/
module Calendar {

  datatype Date = Date(year: int, month: int, day: int)

  /** Integer division as in C: truncates toward zero. */
  function Quot(a: int, b: int): int
    requires b > 0
  {
    if a >= 0 then a / b else -((-a) / b)
  }

  function Rem(a: int, b: int): int
    requires b > 0
  {
    a - Quot(a, b) * b
  }

  function GetJulianDayNumber(year: int, month: int, day: int): int {
    var a := Quot(14 - month, 12);
    var y := year + 4800 - a;
    var m := month + 12 * a - 3;
    day + Quot(153 * m + 2, 5) + y * 365 + Quot(y, 4) - Quot(y, 100) + Quot(y, 400) - 32045
  }

  function GetYearMonthDay(julianDayNumber: int): Date {
    var a := julianDayNumber + 32044;
    var b := Quot(4 * a + 3, 146097);
    var c := a - Quot(b * 146097, 4);
    var d := Quot(4 * c + 3, 1461);
    var e := c - Quot(1461 * d, 4);
    var m := Quot(5 * e + 2, 153);
    Date(b * 100 + d - 4800 + Quot(m, 10), m + 3 - 12 * Quot(m, 10), e - Quot(153 * m + 2, 5) + 1)
  }

  /** The first day number the closed form is right for: 1 March of year -4800. */
  const FIRST_DAY: int := -32044

  function Jdn(d: Date): int {
    GetJulianDayNumber(d.year, d.month, d.day)
  }

  // ----- the calendar, by its rules -----

  predicate IsLeap(year: int) {
    year % 4 == 0 && (year % 100 != 0 || year % 400 == 0)
  }

  function DaysInMonth(year: int, month: int): int {
    if month == 2 then (if IsLeap(year) then 29 else 28)
    else if month == 4 || month == 6 || month == 9 || month == 11 then 30
    else 31
  }

  predicate IsDate(d: Date) {
    1 <= d.month <= 12 && 1 <= d.day <= DaysInMonth(d.year, d.month)
  }

  /** From 1 March -4800 on, the shifted year of the algorithm is not negative. */
  predicate InRange(d: Date) {
    d.year > -4800 || (d.year == -4800 && d.month >= 3)
  }

  function NextDay(d: Date): Date {
    if d.day < DaysInMonth(d.year, d.month) then Date(d.year, d.month, d.day + 1)
    else if d.month < 12 then Date(d.year, d.month + 1, 1)
    else Date(d.year + 1, 1, 1)
  }

  function After(d: Date, n: nat): Date {
    if n == 0 then d else NextDay(After(d, n - 1))
  }

  // ----- the shifted year: March is month 0, February month 11 -----

  function ShiftedYear(d: Date): int {
    d.year + 4800 - if d.month <= 2 then 1 else 0
  }

  function ShiftedMonth(d: Date): int {
    if d.month <= 2 then d.month + 9 else d.month - 3
  }

  /** Days of the shifted year before month m. */
  function MonthStart(m: int): int {
    (153 * m + 2) / 5
  }

  /** Day of the shifted year, from 0. */
  function DayOfYear(d: Date): int {
    MonthStart(ShiftedMonth(d)) + d.day - 1
  }

  lemma JdnShifted(d: Date)
    requires IsDate(d) && InRange(d)
    ensures var y := ShiftedYear(d);
      y >= 0 && Jdn(d) == DayOfYear(d) + 365 * y + y / 4 - y / 100 + y / 400 - 32044
  {
  }

  lemma MonthStarts()
    ensures MonthStart(0) == 0 && MonthStart(1) == 31 && MonthStart(2) == 61 && MonthStart(3) == 92
    ensures MonthStart(4) == 122 && MonthStart(5) == 153 && MonthStart(6) == 184 && MonthStart(7) == 214
    ensures MonthStart(8) == 245 && MonthStart(9) == 275 && MonthStart(10) == 306 && MonthStart(11) == 337
  {
  }

  lemma Shift4(y: int) ensures (y + 4800) % 4 == y % 4 {}
  lemma Shift100(y: int) ensures (y + 4800) % 100 == y % 100 {}
  lemma Shift400(y: int) ensures (y + 4800) % 400 == y % 400 {}

  lemma LeapShift(year: int)
    ensures IsLeap(year + 4800) <==> IsLeap(year)
  {
    Shift4(year);
    Shift100(year);
    Shift400(year);
  }

  /** The last day of the shifted year, 29 February, exists in leap years only. */
  lemma DayOfYearRange(d: Date)
    requires IsDate(d) && InRange(d)
    ensures 0 <= DayOfYear(d) <= 365
    ensures DayOfYear(d) == 365 <==> d.month == 2 && d.day == 29
    ensures DayOfYear(d) == 365 ==> IsLeap(ShiftedYear(d) + 1)
  {
    MonthStarts();
    LeapShift(d.year);
  }

  lemma Div4(y: int) ensures (y + 1) / 4 == y / 4 + if (y + 1) % 4 == 0 then 1 else 0 {}
  lemma Div100(y: int) ensures (y + 1) / 100 == y / 100 + if (y + 1) % 100 == 0 then 1 else 0 {}
  lemma Div400(y: int) ensures (y + 1) / 400 == y / 400 + if (y + 1) % 400 == 0 then 1 else 0 {}

  /** A year is a day longer when the February at its end is a leap one. */
  lemma YearLength(y: int)
    ensures (y + 1) / 4 - (y + 1) / 100 + (y + 1) / 400 == y / 4 - y / 100 + y / 400 + if IsLeap(y + 1) then 1 else 0
  {
    Div4(y);
    Div100(y);
    Div400(y);
    var z := y + 1;
    assert z % 400 == 0 ==> z % 100 == 0;
    assert z % 100 == 0 ==> z % 4 == 0;
  }

  /** Counting one day on adds one to the day number, through every month end and leap year. */
  lemma NextDayCounts(d: Date)
    requires IsDate(d) && InRange(d)
    ensures IsDate(NextDay(d)) && InRange(NextDay(d)) && Jdn(NextDay(d)) == Jdn(d) + 1
  {
    var e := NextDay(d);
    hide Jdn, GetJulianDayNumber, MonthStart, Quot;
    JdnShifted(d);
    JdnShifted(e);
    MonthStarts();
    if d.month == 2 && e.month == 3 {
      YearLength(ShiftedYear(d));
      LeapShift(d.year);
    }
    hide IsLeap;
  }

  /** The day number counts days: n days after d its number is n more. */
  lemma {:induction false} AfterCounts(d: Date, n: nat)
    requires IsDate(d) && InRange(d)
    ensures IsDate(After(d, n)) && InRange(After(d, n)) && Jdn(After(d, n)) == Jdn(d) + n
  {
    if n > 0 {
      AfterCounts(d, n - 1);
      NextDayCounts(After(d, n - 1));
    }
  }

  // ----- from the day number back to the date -----

  /** A shifted year as centuries of four, centuries, years of four, years. */
  lemma YearParts(y: int) returns (q: int, c: int, f: int, g: int)
    requires y >= 0
    ensures y == 400 * q + 100 * c + 4 * f + g && q >= 0 && 0 <= c <= 3 && 0 <= f <= 24 && 0 <= g <= 3
    ensures y / 4 == 100 * q + 25 * c + f && y / 100 == 4 * q + c && y / 400 == q
    ensures IsLeap(y + 1) ==> g == 3 && (f == 24 ==> c == 3)
  {
    q := y / 400;
    var r := y - 400 * q;
    c := r / 100;
    var s := r - 100 * c;
    f := s / 4;
    g := s - 4 * f;
    Parts4(y, 100 * q + 25 * c + f, g);
    Parts100(y, 4 * q + c, s);
    if g == 3 && f == 24 && c < 3 {
      Parts400(y + 1, q, 100 * (c + 1));
    }
  }

  lemma Parts4(y: int, h: int, g: int)
    requires y == 4 * h + g && 0 <= g <= 3
    ensures y / 4 == h && ((y + 1) % 4 == 0 <==> g == 3)
  {
  }

  lemma Parts100(y: int, h: int, s: int)
    requires y == 100 * h + s && 0 <= s <= 99
    ensures y / 100 == h && ((y + 1) % 100 == 0 <==> s == 99)
  {
  }

  lemma Parts400(z: int, q: int, t: int)
    requires z == 400 * q + t && 0 < t < 400
    ensures z % 400 != 0
  {
  }

  /** The century is read off the day number. */
  lemma CenturyOf(q: int, c: int, r: int)
    requires q >= 0 && 0 <= c <= 3 && 0 <= r <= 36524 && (r == 36524 ==> c == 3)
    ensures var a := 146097 * q + 36524 * c + r;
      var b := (4 * a + 3) / 146097;
      b == 4 * q + c && a - b * 146097 / 4 == r
  {
    var a := 146097 * q + 36524 * c + r;
    assert 4 * a + 3 == 146097 * (4 * q + c) + (4 * r + 3 - c);
    assert 0 <= 4 * r + 3 - c < 146097;
    assert (4 * q + c) * 146097 == 4 * (146097 * q + 36524 * c) + c;
  }

  /** So is the year of the century. */
  lemma YearOf(f: int, g: int, e: int)
    requires 0 <= f <= 24 && 0 <= g <= 3 && 0 <= e <= 365 && (e == 365 ==> g == 3)
    ensures var r := 1461 * f + 365 * g + e;
      var d := (4 * r + 3) / 1461;
      d == 4 * f + g && r - 1461 * d / 4 == e
  {
    var r := 1461 * f + 365 * g + e;
    assert 4 * r + 3 == 1461 * (4 * f + g) + (4 * e + 3 - g);
    assert 1461 * (4 * f + g) == 4 * (1461 * f + 365 * g) + g;
  }

  /** And so is the month. */
  lemma MonthOf(m: int, day: int)
    requires 0 <= m <= 11 && 1 <= day
    requires m < 11 ==> MonthStart(m) + day - 1 < MonthStart(m + 1)
    requires m == 11 ==> day <= 30
    ensures (5 * (MonthStart(m) + day - 1) + 2) / 153 == m
  {
    MonthStarts();
  }

  lemma MonthFits(d: Date)
    requires IsDate(d)
    ensures var m := ShiftedMonth(d);
      0 <= m <= 11 && 1 <= d.day && 1 <= d.month <= 12 && m / 10 == (if d.month <= 2 then 1 else 0)
        && (m < 11 ==> MonthStart(m) + d.day - 1 < MonthStart(m + 1)) && (m == 11 ==> d.day <= 30)
  {
    MonthStarts();
  }

  /** The date behind a day number is the date it was made from. */
  lemma RoundTripFromDate(d: Date)
    requires IsDate(d) && InRange(d)
    ensures GetYearMonthDay(Jdn(d)) == d && Jdn(d) >= FIRST_DAY
  {
    hide Jdn, GetYearMonthDay, MonthStart, IsLeap, IsDate, InRange;
    var y, m, e := ShiftedYear(d), ShiftedMonth(d), DayOfYear(d);
    JdnShifted(d);
    DayOfYearRange(d);
    MonthFits(d);
    var q, c, f, g := YearParts(y);
    var r := 1461 * f + 365 * g + e;
    assert Jdn(d) + 32044 == 146097 * q + 36524 * c + r;
    CenturyOf(q, c, r);
    YearOf(f, g, e);
    MonthOf(m, d.day);
    FromParts(Jdn(d), 4 * q + c, r, 4 * f + g, e, m);
  }

  /** The steps of getYearMonthDay, given what each of them finds. */
  lemma FromParts(j: int, b: int, c: int, d: int, e: int, m: int)
    requires j >= FIRST_DAY && b >= 0 && c >= 0 && d >= 0 && e >= 0 && m >= 0
    requires (4 * (j + 32044) + 3) / 146097 == b && j + 32044 - b * 146097 / 4 == c
    requires (4 * c + 3) / 1461 == d && c - 1461 * d / 4 == e && (5 * e + 2) / 153 == m
    ensures GetYearMonthDay(j) == Date(b * 100 + d - 4800 + m / 10, m + 3 - 12 * (m / 10), e - MonthStart(m) + 1)
  {
  }

  /** The date n days after 1 March -4800. */
  function DateOf(n: nat): Date {
    After(Date(-4800, 3, 1), n)
  }

  /**
    Every day number from the first on is the number of the date found for it, which is the one
    reached by counting.
  */
  lemma RoundTripFromDay(j: int)
    requires j >= FIRST_DAY
    ensures var d := GetYearMonthDay(j); IsDate(d) && InRange(d) && Jdn(d) == j && d == DateOf(j - FIRST_DAY)
  {
    hide GetYearMonthDay, NextDay;
    assert Jdn(Date(-4800, 3, 1)) == FIRST_DAY;
    AfterCounts(Date(-4800, 3, 1), j - FIRST_DAY);
    RoundTripFromDate(DateOf(j - FIRST_DAY));
  }

  /** The next day number belongs to the next day. */
  lemma NextDayNumber(j: int)
    requires j >= FIRST_DAY
    ensures GetYearMonthDay(j + 1) == NextDay(GetYearMonthDay(j))
  {
    hide GetYearMonthDay, NextDay, IsDate, InRange, Jdn;
    RoundTripFromDay(j);
    RoundTripFromDay(j + 1);
  }

  /** Different dates have different day numbers. */
  lemma JdnInjective(d: Date, e: Date)
    requires IsDate(d) && InRange(d) && IsDate(e) && InRange(e) && Jdn(d) == Jdn(e)
    ensures d == e
  {
    RoundTripFromDate(d);
    RoundTripFromDate(e);
  }

  // ----- the source computes in 32-bit integers -----

  const INT_MAX: int := 0x7FFF_FFFF

  predicate Fits(x: int) {
    -INT_MAX - 1 <= x <= INT_MAX
  }

  /**
    No intermediate result of either conversion leaves the 32-bit range for day numbers up to the
    limit set by 4 * a + 3.
  */
  lemma NoOverflow(j: int)
    requires FIRST_DAY <= j && 4 * (j + 32044) + 3 <= INT_MAX
    ensures var a := j + 32044;
      var b := Quot(4 * a + 3, 146097);
      var c := a - Quot(b * 146097, 4);
      var d := Quot(4 * c + 3, 1461);
      var e := c - Quot(1461 * d, 4);
      var m := Quot(5 * e + 2, 153);
      var y := b * 100 + d;
      && Fits(4 * a + 3) && Fits(b * 146097) && Fits(4 * c + 3) && Fits(1461 * d) && Fits(5 * e + 2)
         && Fits(153 * m + 2)
      && Fits(y * 365) && Fits(y * 365 + y / 4 + Quot(153 * m + 2, 5) + 31)
  {
    var a := j + 32044;
    var b := (4 * a + 3) / 146097;
    assert b * 146097 <= 4 * a + 3;
    assert (b + 1) * 146097 > 4 * a + 3;
    var c := a - b * 146097 / 4;
    assert -1 <= c <= 36525;
  }
}
