/**
  Broken-down time and time zones: seconds since the epoch to calendar fields and
  back, and to local time and back across daylight-saving changes.
*/
module TimeZone {
  import opened Calendar

  datatype Tm = Tm(sec: int, min: int, hour: int, mday: int, mon: int, year: int, wday: int, yday: int,
                   isdst: bool, gmtoff: int)

  const ZERO_TM := Tm(0, 0, 0, 0, 0, 0, 0, 0, false, 0)
  const SECONDS_PER_DAY: int := 86400
  const EPOCH: int := GetJulianDayNumber(1970, 1, 1)

  // ----- UTC -----

  function WeekDay(julianDayNumber: int): int {
    Rem(julianDayNumber + 1, 7)
  }

  /** Time of day, floor-corrected for times before the epoch. */
  function SecondsInDay(t: int): int {
    var s := Rem(t, SECONDS_PER_DAY);
    if s < 0 then s + SECONDS_PER_DAY else s
  }

  function DaysSinceEpoch(t: int): int {
    if Rem(t, SECONDS_PER_DAY) < 0 then Quot(t, SECONDS_PER_DAY) - 1 else Quot(t, SECONDS_PER_DAY)
  }

  function UtcTime(t: int, yday: bool): Tm {
    var s, j := SecondsInDay(t), DaysSinceEpoch(t) + EPOCH;
    var ymd := GetYearMonthDay(j);
    Tm(s % 60, s / 60 % 60, s / 60 / 60, ymd.day, ymd.month - 1, ymd.year - 1900, WeekDay(j),
       if yday then j - GetJulianDayNumber(ymd.year, 1, 1) else 0, false, 0)
  }

  method FillHMS(seconds: nat, utc: Tm) returns (r: Tm)
    ensures r == utc.(sec := seconds % 60, min := seconds / 60 % 60, hour := seconds / 60 / 60)
  {
    r := utc.(sec := seconds % 60);
    var minutes := seconds / 60;
    r := r.(min := minutes % 60);
    r := r.(hour := minutes / 60);
  }

  method ToUtcTime(secondsSinceEpoch: int, yday: bool) returns (utc: Tm)
    ensures utc == UtcTime(secondsSinceEpoch, yday)
  {
    hide GetYearMonthDay, GetJulianDayNumber, Quot;
    utc := ZERO_TM;
    var seconds := Rem(secondsSinceEpoch, SECONDS_PER_DAY);
    var days := Quot(secondsSinceEpoch, SECONDS_PER_DAY);
    if seconds < 0 {
      seconds := seconds + SECONDS_PER_DAY;
      days := days - 1;
    }
    FloorSplit(secondsSinceEpoch);
    utc := FillHMS(seconds, utc);
    var j := days + EPOCH;
    var ymd := GetYearMonthDay(j);
    utc := utc.(year := ymd.year - 1900);
    utc := utc.(mon := ymd.month - 1);
    utc := utc.(mday := ymd.day);
    utc := utc.(wday := WeekDay(j));
    if yday {
      utc := utc.(yday := j - GetJulianDayNumber(ymd.year, 1, 1));
    }
  }

  function FromUtcTime(utc: Tm): int {
    var secondsInDay := utc.hour * 3600 + utc.min * 60 + utc.sec;
    (GetJulianDayNumber(utc.year + 1900, utc.mon + 1, utc.mday) - EPOCH) * SECONDS_PER_DAY + secondsInDay
  }

  /** The correction makes the truncating split a floor split. */
  lemma FloorSplit(t: int)
    ensures SecondsInDay(t) == t % SECONDS_PER_DAY && DaysSinceEpoch(t) == t / SECONDS_PER_DAY
    ensures 0 <= SecondsInDay(t) < SECONDS_PER_DAY && t == DaysSinceEpoch(t) * SECONDS_PER_DAY + SecondsInDay(t)
  {
    if t < 0 {
      var q := (-t) / SECONDS_PER_DAY;
      assert -t == q * SECONDS_PER_DAY + (-t) % SECONDS_PER_DAY;
    }
  }

  /** The day of t is one the calendar conversion is right for. */
  predicate Covered(t: int) {
    t / SECONDS_PER_DAY + EPOCH >= FIRST_DAY
  }

  lemma Clock(s: int)
    requires 0 <= s < SECONDS_PER_DAY
    ensures 0 <= s % 60 < 60 && 0 <= s / 60 % 60 < 60 && 0 <= s / 60 / 60 < 24
    ensures s / 60 / 60 * 3600 + s / 60 % 60 * 60 + s % 60 == s
  {
  }

  /** Converting to calendar fields and back gives the same second, before the epoch too. */
  lemma UtcRoundTrip(t: int, yday: bool)
    requires Covered(t)
    ensures FromUtcTime(UtcTime(t, yday)) == t
  {
    hide GetYearMonthDay, GetJulianDayNumber, SecondsInDay, DaysSinceEpoch;
    FloorSplit(t);
    Clock(SecondsInDay(t));
    RoundTripFromDay(DaysSinceEpoch(t) + EPOCH);
  }

  ghost predicate IsCalendarTime(tm: Tm) {
    && 0 <= tm.sec < 60 && 0 <= tm.min < 60 && 0 <= tm.hour < 24
    && IsDate(Date(tm.year + 1900, tm.mon + 1, tm.mday)) && InRange(Date(tm.year + 1900, tm.mon + 1, tm.mday))
  }

  /** Every field is in its calendar range, and the day of the year counts the days since 1 January. */
  lemma UtcFields(t: int)
    requires Covered(t)
    ensures IsCalendarTime(UtcTime(t, true)) && UtcTime(t, false) == UtcTime(t, true).(yday := 0)
    ensures !UtcTime(t, true).isdst && UtcTime(t, true).gmtoff == 0
    ensures var tm := UtcTime(t, true);
      InRange(Date(tm.year + 1900, 1, 1)) ==>
        0 <= tm.yday <= 365 && After(Date(tm.year + 1900, 1, 1), tm.yday) == Date(tm.year + 1900, tm.mon + 1, tm.mday)
  {
    hide GetYearMonthDay, GetJulianDayNumber, SecondsInDay, DaysSinceEpoch, After, IsLeap;
    FloorSplit(t);
    Clock(SecondsInDay(t));
    var j := DaysSinceEpoch(t) + EPOCH;
    RoundTripFromDay(j);
    var d := GetYearMonthDay(j);
    if InRange(Date(d.year, 1, 1)) {
      DayInYear(d);
    }
  }

  /** The days from 1 January to d, counted. */
  lemma DayInYear(d: Date)
    requires IsDate(d) && InRange(Date(d.year, 1, 1))
    ensures var n := Jdn(d) - Jdn(Date(d.year, 1, 1)); 0 <= n <= 365 && After(Date(d.year, 1, 1), n) == d
  {
    var start := Date(d.year, 1, 1);
    JanuaryFirst(d);
    AfterCounts(start, Jdn(d) - Jdn(start));
    JdnInjective(After(start, Jdn(d) - Jdn(start)), d);
  }

  lemma JanuaryFirst(d: Date)
    requires IsDate(d) && InRange(Date(d.year, 1, 1))
    ensures 0 <= Jdn(d) - Jdn(Date(d.year, 1, 1)) <= 365
  {
    hide Jdn, GetJulianDayNumber, MonthStart, Quot;
    var start := Date(d.year, 1, 1);
    JdnShifted(d);
    JdnShifted(start);
    MonthStarts();
    YearLength(ShiftedYear(start));
    LeapShift(d.year);
  }

  /** The weekday moves on by one each day, and 1 January 1970 was a Thursday. */
  lemma WeekDayCycle(j: int)
    requires j >= -1
    ensures 0 <= WeekDay(j) <= 6 && WeekDay(j + 1) == (WeekDay(j) + 1) % 7 && WeekDay(EPOCH) == 4
  {
    hide GetJulianDayNumber;
    NextWeekDay(j + 1);
    EpochWeekDay();
  }

  lemma NextWeekDay(x: int)
    requires x >= 0
    ensures 0 <= Rem(x, 7) <= 6 && Rem(x + 1, 7) == (Rem(x, 7) + 1) % 7
  {
    RemSign(x);
    RemSign(x + 1);
    hide Rem;
  }

  lemma EpochWeekDay()
    ensures WeekDay(EPOCH) == 4
  {
    assert EPOCH == 2440588;
  }

  /** Before that the C remainder leaves the range of weekdays, except on Sundays. */
  lemma WeekDayRange(j: int)
    ensures 0 <= WeekDay(j) <= 6 <==> j >= -1 || (j + 1) % 7 == 0
  {
  }

  /**
    The weekday of a time counts on from the Thursday of the epoch, one a day, mod 7: at
    every time from the day before day number 0 on, and before that on Sundays only.
  */
  lemma UtcWeekDay(t: int, yday: bool)
    ensures UtcTime(t, yday).wday == (4 + t / SECONDS_PER_DAY) % 7 <==>
      t / SECONDS_PER_DAY + EPOCH >= -1 || (4 + t / SECONDS_PER_DAY) % 7 == 0
  {
    hide GetYearMonthDay, SecondsInDay, DaysSinceEpoch, WeekDay;
    FloorSplit(t);
    assert EPOCH == 2440588;
    WeekDayFrom(DaysSinceEpoch(t) + EPOCH, 4 + t / SECONDS_PER_DAY);
  }

  lemma WeekDayFrom(j: int, y: int)
    requires j + 1 == 7 * 348655 + y
    ensures WeekDay(j) == y % 7 <==> j >= -1 || y % 7 == 0
  {
    hide Rem;
    RemSign(j + 1);
    SameRemainder(y);
  }

  lemma SameRemainder(y: int)
    ensures (7 * 348655 + y) % 7 == y % 7
  {
  }

  /** C's remainder of a negative number is its distance from the next multiple up, negated. */
  lemma RemSign(x: int)
    ensures if x >= 0 then Rem(x, 7) == x % 7 else Rem(x, 7) <= 0 && (Rem(x, 7) == 0 <==> x % 7 == 0)
  {
  }

  /** Calendar fields to seconds and back: the two conversions are inverse to each other. */
  lemma UtcInverse(tm: Tm)
    requires IsCalendarTime(tm)
    ensures var t := FromUtcTime(tm); var u := UtcTime(t, false);
      && Covered(t)
      && u.sec == tm.sec && u.min == tm.min && u.hour == tm.hour && u.mday == tm.mday && u.mon == tm.mon
         && u.year == tm.year
  {
    hide GetYearMonthDay, GetJulianDayNumber, SecondsInDay, DaysSinceEpoch, IsDate;
    var d := Date(tm.year + 1900, tm.mon + 1, tm.mday);
    var s := tm.hour * 3600 + tm.min * 60 + tm.sec;
    RoundTripFromDate(d);
    FloorSplit(FromUtcTime(tm));
    SplitDay(Jdn(d) - EPOCH, s);
    ClockBack(tm.hour, tm.min, tm.sec);
  }

  lemma SplitDay(days: int, s: int)
    requires 0 <= s < SECONDS_PER_DAY
    ensures (days * SECONDS_PER_DAY + s) / SECONDS_PER_DAY == days
      && (days * SECONDS_PER_DAY + s) % SECONDS_PER_DAY == s
  {
  }

  lemma ClockBack(h: int, m: int, s: int)
    requires 0 <= h < 24 && 0 <= m < 60 && 0 <= s < 60
    ensures var x := h * 3600 + m * 60 + s;
      x % 60 == s && x / 60 % 60 == m && x / 60 / 60 == h && 0 <= x < SECONDS_PER_DAY
  {
    assert h * 3600 + m * 60 + s == 60 * (h * 60 + m) + s;
  }

  // ----- zones -----

  datatype Transition = Transition(gmt: int, loc: int, idx: nat)

  datatype Localtime = Localtime(offset: int, isDst: bool)

  datatype Zone = Zone(transitions: seq<Transition>, localtimes: seq<Localtime>)

  predicate IsZone(z: Zone) {
    |z.localtimes| > 0 && forall i :: 0 <= i < |z.transitions| ==> z.transitions[i].idx < |z.localtimes|
  }

  function Key(tr: Transition, gmt: bool): int {
    if gmt then tr.gmt else tr.loc
  }

  /** The first transition not before x. */
  function LowerBound(ts: seq<Transition>, x: int, gmt: bool): (i: nat)
    ensures i <= |ts|
    ensures forall k :: 0 <= k < i ==> Key(ts[k], gmt) < x
    ensures i < |ts| ==> Key(ts[i], gmt) >= x
  {
    if ts == [] || Key(ts[0], gmt) >= x then 0
    else
      var i := LowerBound(ts[1..], x, gmt);
      assert forall k :: 1 <= k < |ts| ==> ts[k] == ts[1..][k - 1];
      i + 1
  }

  function FindLocaltime(z: Zone, x: int, gmt: bool): Localtime
    requires IsZone(z)
  {
    var ts := z.transitions;
    if ts == [] || x < Key(ts[0], gmt) then z.localtimes[0]
    else
      var i := LowerBound(ts, x, gmt);
      if i < |ts| then
        if x != Key(ts[i], gmt) then z.localtimes[ts[i - 1].idx] else z.localtimes[ts[i].idx]
      else z.localtimes[ts[|ts| - 1].idx]
  }

  function ToLocalTime(z: Zone, seconds: int): Tm
    requires IsZone(z)
  {
    var local := FindLocaltime(z, seconds, true);
    UtcTime(seconds + local.offset, true).(isdst := local.isDst, gmtoff := local.offset)
  }

  function FromLocalTime(z: Zone, localTm: Tm): int
    requires IsZone(z)
  {
    var seconds := FromUtcTime(localTm);
    var local := FindLocaltime(z, seconds, false);
    var tryTm := ToLocalTime(z, seconds - local.offset);
    if localTm.isdst && !tryTm.isdst && tryTm.hour == localTm.hour && tryTm.min == localTm.min
    then seconds - 3600 - local.offset
    else seconds - local.offset
  }

  /** Local time shows the time of the offset it names: minus that offset it is the time given. */
  lemma LocalFields(z: Zone, t: int)
    requires IsZone(z)
    ensures var tm, local := ToLocalTime(z, t), FindLocaltime(z, t, true);
      && tm.isdst == local.isDst && tm.gmtoff == local.offset
      && (Covered(t + tm.gmtoff) ==> IsCalendarTime(tm) && FromUtcTime(tm) - tm.gmtoff == t)
      && (t + tm.gmtoff >= 0 ==> tm.wday == (4 + (t + tm.gmtoff) / SECONDS_PER_DAY) % 7)
  {
    hide UtcTime, FromUtcTime, FindLocaltime;
    var local := FindLocaltime(z, t, true);
    var l := t + local.offset;
    FromUtcIgnoresZone(UtcTime(l, true), local);
    UtcWeekDay(l, true);
    assert EPOCH == 2440588;
    if Covered(l) {
      UtcRoundTrip(l, true);
      UtcFields(l);
    }
  }

  /** A zone with a fixed offset, as the two-argument constructor makes it. */
  function FixedZone(eastOfUtc: int): Zone {
    Zone([], [Localtime(eastOfUtc, false)])
  }

  lemma FixedRoundTrip(offset: int, t: int)
    requires Covered(t + offset)
    ensures FromLocalTime(FixedZone(offset), ToLocalTime(FixedZone(offset), t)) == t
  {
    hide UtcTime, FromUtcTime, Covered;
    UtcRoundTrip(t + offset, true);
    FromUtcIgnoresZone(UtcTime(t + offset, true), Localtime(offset, false));
  }

  /**
    Standard time o, alternating with daylight time o + s, starting in standard
    time; changes lie more than s seconds apart.
  */
  ghost predicate Alternates(z: Zone, o: int, s: int) {
    && IsZone(z) && s > 0 && z.localtimes[0] == Localtime(o, false)
    && (forall i :: 0 <= i < |z.transitions| ==>
          var tr := z.transitions[i];
          z.localtimes[tr.idx] == At(o, s, i) && tr.loc == tr.gmt + At(o, s, i).offset)
    && (forall i :: 0 < i < |z.transitions| ==> z.transitions[i].gmt - z.transitions[i - 1].gmt > s)
  }

  /** The local time type in force after transition i; i == -1 is before the first. */
  function At(o: int, s: int, i: int): Localtime {
    if i >= 0 && i % 2 == 0 then Localtime(o + s, true) else Localtime(o, false)
  }

  /** x lies between transition i and the next. */
  ghost predicate Between(z: Zone, x: int, gmt: bool, i: int) {
    && -1 <= i < |z.transitions|
    && (i >= 0 ==> Key(z.transitions[i], gmt) <= x)
    && (i + 1 < |z.transitions| ==> x < Key(z.transitions[i + 1], gmt))
  }

  lemma {:induction false} Spread(z: Zone, o: int, s: int, i: int, j: int)
    requires Alternates(z, o, s) && 0 <= i < j < |z.transitions|
    ensures z.transitions[j].gmt > z.transitions[i].gmt + s && z.transitions[j].loc > z.transitions[i].loc
    decreases j - i
  {
    if j > i + 1 {
      Spread(z, o, s, i, j - 1);
    }
    var a, b := z.transitions[j - 1], z.transitions[j];
    assert b.gmt - a.gmt > s;
    assert a.loc == a.gmt + At(o, s, j - 1).offset && b.loc == b.gmt + At(o, s, j).offset;
  }

  lemma LookupIndex(z: Zone, x: int, gmt: bool, i: nat)
    requires IsZone(z) && Between(z, x, gmt, i)
    requires forall k :: 0 <= k < i ==> Key(z.transitions[k], gmt) < Key(z.transitions[i], gmt)
    ensures FindLocaltime(z, x, gmt) == z.localtimes[z.transitions[i].idx]
  {
    var ts := z.transitions;
    assert i > 0 ==> Key(ts[0], gmt) < Key(ts[i], gmt);
    var k := LowerBound(ts, x, gmt);
    assert i + 1 < |ts| ==> x < Key(ts[i + 1], gmt);
    assert k == i || k == i + 1;
  }

  /** The lookup finds the local time type in force between two transitions. */
  lemma FindBetween(z: Zone, o: int, s: int, x: int, gmt: bool, i: int)
    requires Alternates(z, o, s) && Between(z, x, gmt, i)
    ensures FindLocaltime(z, x, gmt) == At(o, s, i)
    ensures gmt ==> var tm := ToLocalTime(z, x);
      tm.isdst == (i >= 0 && i % 2 == 0) && tm.gmtoff == o + if tm.isdst then s else 0
  {
    hide UtcTime;
    if i >= 0 {
      forall k | 0 <= k < i ensures Key(z.transitions[k], gmt) < Key(z.transitions[i], gmt) {
        Spread(z, o, s, k, i);
      }
      LookupIndex(z, x, gmt, i);
    }
  }

  lemma {:induction false} SomeBetween(z: Zone, x: int, gmt: bool, n: int) returns (i: int)
    requires 0 <= n <= |z.transitions|
    requires forall k :: 0 <= k < n ==> Key(z.transitions[k], gmt) <= x
    ensures Between(z, x, gmt, i)
    decreases |z.transitions| - n
  {
    if n < |z.transitions| && Key(z.transitions[n], gmt) <= x {
      i := SomeBetween(z, x, gmt, n + 1);
    } else {
      i := n - 1;
    }
  }

  /** t is in the last s seconds of daylight time: its wall clock will come around once more in standard time. */
  ghost predicate FirstPass(z: Zone, t: int, s: int) {
    exists i :: 0 <= i && i + 1 < |z.transitions| && i % 2 == 0 && Between(z, t, true, i)
      && t >= z.transitions[i + 1].gmt - s
  }

  /** On the wall clock, t is past the next change: the second pass has the same reading. */
  ghost predicate Overlaps(z: Zone, l: int, i: int) {
    i >= 0 && i % 2 == 0 && i + 1 < |z.transitions| && l >= z.transitions[i + 1].loc
  }

  lemma LookupOverlap(z: Zone, o: int, s: int, t: int, i: int)
    requires Alternates(z, o, s) && Between(z, t, true, i) && Overlaps(z, t + At(o, s, i).offset, i)
    ensures FindLocaltime(z, t + o + s, false) == Localtime(o, false)
      && FindLocaltime(z, t + s, true) == Localtime(o, false)
  {
    hide FindLocaltime;
    var ts := z.transitions;
    assert ts[i + 1].loc == ts[i + 1].gmt + o;
    if i + 2 < |ts| {
      assert ts[i + 2].gmt - ts[i + 1].gmt > s && ts[i + 2].loc == ts[i + 2].gmt + o + s;
    }
    FindBetween(z, o, s, t + o + s, false, i + 1);
    FindBetween(z, o, s, t + s, true, i + 1);
  }

  lemma LookupPlain(z: Zone, o: int, s: int, t: int, i: int)
    requires Alternates(z, o, s) && Between(z, t, true, i) && !Overlaps(z, t + At(o, s, i).offset, i)
    ensures FindLocaltime(z, t + At(o, s, i).offset, false) == At(o, s, i)
  {
    hide FindLocaltime;
    var ts := z.transitions;
    var l := t + At(o, s, i).offset;
    if i + 1 < |ts| { assert ts[i + 1].loc == ts[i + 1].gmt + At(o, s, i + 1).offset; }
    FindBetween(z, o, s, l, false, i);
  }

  /**
    Local time and back, exactly: the same second, except that on the first pass
    through the repeated hour the fixed step of 3600 s shows when the shift is
    another one.
  */
  lemma LocalRoundTripExact(z: Zone, o: int, s: int, t: int)
    requires Alternates(z, o, s) && Covered(t + o) && Covered(t + o + s)
    ensures FromLocalTime(z, ToLocalTime(z, t)) == t + if FirstPass(z, t, s) then s - 3600 else 0
  {
    hide UtcTime, FromUtcTime, Covered, FirstPass, FindLocaltime;
    var i := SomeBetween(z, t, true, 0);
    FindBetween(z, o, s, t, true, i);
    var local := At(o, s, i);
    var l := t + local.offset;
    UtcRoundTrip(l, true);
    FromUtcIgnoresZone(UtcTime(l, true), local);
    UniquePass(z, o, s, t, i);
    if Overlaps(z, l, i) {
      LookupOverlap(z, o, s, t, i);
      SameClock(UtcTime(l, true), local, Localtime(o, false));
    } else {
      LookupPlain(z, o, s, t, i);
    }
  }

  lemma BetweenUnique(z: Zone, o: int, s: int, t: int, i: int, k: int)
    requires Alternates(z, o, s) && Between(z, t, true, i) && Between(z, t, true, k)
    ensures i == k
  {
    if k < i && k + 1 < i { Spread(z, o, s, k + 1, i); }
    if i < k && i + 1 < k { Spread(z, o, s, i + 1, k); }
  }

  lemma UniquePass(z: Zone, o: int, s: int, t: int, i: int)
    requires Alternates(z, o, s) && Between(z, t, true, i)
    ensures FirstPass(z, t, s) <==> Overlaps(z, t + At(o, s, i).offset, i)
  {
    if FirstPass(z, t, s) {
      var k :| 0 <= k && k + 1 < |z.transitions| && k % 2 == 0 && Between(z, t, true, k)
        && t >= z.transitions[k + 1].gmt - s;
      BetweenUnique(z, o, s, t, i, k);
    }
    if i >= 0 && i + 1 < |z.transitions| {
      assert z.transitions[i + 1].loc == z.transitions[i + 1].gmt + At(o, s, i + 1).offset;
    }
  }

  lemma FromUtcIgnoresZone(tm: Tm, local: Localtime)
    ensures FromUtcTime(tm.(isdst := local.isDst, gmtoff := local.offset)) == FromUtcTime(tm)
  {
  }

  lemma SameClock(tm: Tm, a: Localtime, b: Localtime)
    ensures tm.(isdst := a.isDst, gmtoff := a.offset).hour == tm.(isdst := b.isDst, gmtoff := b.offset).hour
    ensures tm.(isdst := a.isDst, gmtoff := a.offset).min == tm.(isdst := b.isDst, gmtoff := b.offset).min
  {
  }

  /**
    With the usual shift of one hour, local time and back is the identity, through both passes of
    the repeated hour.
  */
  lemma LocalRoundTrip(z: Zone, o: int, t: int)
    requires Alternates(z, o, 3600) && Covered(t + o) && Covered(t + o + 3600)
    ensures FromLocalTime(z, ToLocalTime(z, t)) == t
  {
    LocalRoundTripExact(z, o, 3600, t);
  }

  /** A zone that ever leaves daylight time is handled right at every second exactly when its shift is one hour. */
  lemma HourShiftOnly(z: Zone, o: int, s: int)
    requires Alternates(z, o, s) && |z.transitions| >= 2
    requires Covered(z.transitions[1].gmt - s + o)
    ensures (forall t :: Covered(t + o) && Covered(t + o + s) ==> FromLocalTime(z, ToLocalTime(z, t)) == t) <==>
      s == 3600
  {
    if s == 3600 {
      forall t | Covered(t + o) && Covered(t + o + s) ensures FromLocalTime(z, ToLocalTime(z, t)) == t {
        LocalRoundTrip(z, o, t);
      }
    } else {
      var t := z.transitions[1].gmt - s;
      assert z.transitions[1].gmt - z.transitions[0].gmt > s;
      assert Between(z, t, true, 0);
      assert FirstPass(z, t, s);
      assert Covered(t + o + s);
      LocalRoundTripExact(z, o, s, t);
    }
  }
}
