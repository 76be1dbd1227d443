/**
 `__rtc_read_alarm` on hardware that leaves alarm fields open: missing fields are taken from the clock, and an
 alarm that is then not in the future rolls over by a day, a month or a year.
 */
module RtcRollover {

  /** `struct rtc_time`: `mon` from 0, `year` since 1900, -1 for a field the hardware does not have. */
  datatype Tm = Tm(sec: int, min: int, hour: int, mday: int, mon: int, year: int)

  datatype Missing = Nothing | Day | Month | Year

  // ---------------------------------------------------------------------------------------------
  // The calendar
  // ---------------------------------------------------------------------------------------------

  predicate IsLeap(year: int) {
    (year % 4 == 0 && year % 100 != 0) || year % 400 == 0
  }

  /** Days of a month of a calendar year. */
  function CalendarDays(mon: int, year: int): int {
    if mon == 1 then (if IsLeap(year) then 29 else 28)
    else if mon in {3, 5, 8, 10} then 30
    else 31
  }

  /** Days of a month with the year as in `struct rtc_time`. */
  function MonthDays(mon: int, year: int): int {
    CalendarDays(mon, year + 1900)
  }

  /** 1900 is a multiple of 4 and of 100. */
  lemma Since1900(year: int)
    ensures (year + 1900) % 4 == year % 4 && (year + 1900) % 100 == year % 100
  {
  }

  /** It is 300 modulo 400. */
  lemma LongCycle(year: int)
    ensures year % 400 == 0 <==> (year + 1900) % 400 == 300
  {
  }

  lemma CenturyOfCycle(year: int)
    requires year % 400 == 0
    ensures year % 100 == 0
  {
    var q := year / 400;
    assert year == 100 * (4 * q);
  }

  /**
   The month loop passes the year as it is in `struct rtc_time` to `rtc_month_days`.  Should that expect a calendar
   year, its answer is wrong exactly for February of the years whose number modulo 400 is 0 or 300.
   */
  lemma PassedYearIff(mon: int, year: int)
    ensures CalendarDays(mon, year) == MonthDays(mon, year) <==> mon != 1 || (year + 1900) % 400 !in {0, 300}
  {
    Since1900(year);
    LongCycle(year);
    if year % 400 == 0 {
      CenturyOfCycle(year);
    }
    if (year + 1900) % 400 == 0 {
      CenturyOfCycle(year + 1900);
    }
  }

  predicate DateExists(mday: int, mon: int, year: int) {
    0 <= mon < 12 && 1 <= mday <= MonthDays(mon, year)
  }

  /** `rtc_valid_tm`. */
  predicate Valid(t: Tm) {
    t.year >= 70 && DateExists(t.mday, t.mon, t.year) && 0 <= t.hour < 24 && 0 <= t.min < 60 && 0 <= t.sec < 60
  }

  /** The order of points in time, as `rtc_tm_to_time64` has it on valid times. */
  predicate Before(a: Tm, b: Tm) {
    a.year < b.year || (a.year == b.year && (
      a.mon < b.mon || (a.mon == b.mon && (
        a.mday < b.mday || (a.mday == b.mday && (
          a.hour < b.hour || (a.hour == b.hour && (
            a.min < b.min || (a.min == b.min && a.sec < b.sec)))))))))
  }

  /** Months counted from January 1900. */
  function MonthIndex(t: Tm): int {
    t.year * 12 + t.mon
  }

  predicate DayInMonth(mday: int, index: int) {
    mday <= MonthDays(index % 12, index / 12)
  }

  // ---------------------------------------------------------------------------------------------
  // Rollover
  // ---------------------------------------------------------------------------------------------

  /** A day of the month that exists in some month is missing from at most one month in a row. */
  lemma NextMonthOrTheOneAfter(mday: int, index: int)
    requires mday <= 31
    ensures DayInMonth(mday, index + 1) || DayInMonth(mday, index + 2)
  {
    var a, b := (index + 1) % 12, (index + 2) % 12;
    assert b == (a + 1) % 12;
  }

  lemma IndexParts(mon: int, year: int)
    requires 0 <= mon < 12
    ensures (year * 12 + mon) % 12 == mon && (year * 12 + mon) / 12 == year
  {
  }

  /** Month rollover: the first later month that has the day, after at most two steps. */
  method RollMonth(t: Tm) returns (r: Tm, steps: nat)
    requires Valid(t)
    ensures r == t.(mon := r.mon, year := r.year) && Valid(r) && 1 <= steps <= 2
    ensures MonthIndex(r) == MonthIndex(t) + steps
    ensures forall i :: MonthIndex(t) < i < MonthIndex(r) ==> !DayInMonth(t.mday, i)
  {
    NextMonthOrTheOneAfter(t.mday, MonthIndex(t));
    r, steps := t, 0;
    var again := true;
    while again
      invariant r == t.(mon := r.mon, year := r.year) && 0 <= r.mon < 12 && r.year >= 70
      invariant MonthIndex(r) == MonthIndex(t) + steps
      invariant forall i :: MonthIndex(t) < i < MonthIndex(r) ==> !DayInMonth(t.mday, i)
      invariant again ==> steps <= 1 && (steps == 1 ==> !DayInMonth(t.mday, MonthIndex(r)))
      invariant !again ==> 1 <= steps <= 2 && t.mday <= MonthDays(r.mon, r.year)
      decreases again, 2 - steps
    {
      if r.mon < 11 {
        r := r.(mon := r.mon + 1);
      } else {
        r := r.(mon := 0, year := r.year + 1);
      }
      steps := steps + 1;
      IndexParts(r.mon, r.year);
      var days := MonthDays(r.mon, r.year);
      again := days < r.mday;
    }
  }

  lemma FourthYear(q: int)
    ensures (4 * q) % 4 == 0
  {
  }

  lemma CenturyPlusFour(k: int)
    ensures (100 * k + 4) % 100 == 4 && (100 * k + 4) % 4 == 0
  {
    FourthYear(25 * k + 1);
  }

  /** Among any eight years in a row one is a leap year. */
  lemma LeapWithinEight(y: int) returns (leap: int)
    ensures y < leap <= y + 8 && IsLeap(leap)
  {
    leap := 4 * (y / 4 + 1);
    FourthYear(y / 4 + 1);
    if leap % 100 == 0 {
      CenturyPlusFour(leap / 100);
      leap := 100 * (leap / 100) + 4;
    }
  }

  /** Year rollover: the first later year in which the date exists, after at most eight steps. */
  method RollYear(t: Tm) returns (r: Tm, steps: nat)
    requires Valid(t)
    ensures r == t.(year := t.year + steps) && Valid(r) && 1 <= steps <= 8
    ensures forall y :: t.year < y < r.year ==> !DateExists(t.mday, t.mon, y)
  {
    ghost var leap := LeapWithinEight(t.year + 1900);
    r, steps := t, 0;
    var again := true;
    while again
      invariant r == t.(year := t.year + steps) && r.year + 1900 <= leap && (again ==> r.year + 1900 < leap)
      invariant forall y :: t.year < y < r.year ==> !DateExists(t.mday, t.mon, y)
      invariant again && steps > 0 ==> !DateExists(t.mday, t.mon, r.year)
      invariant !again ==> 1 <= steps && Valid(r)
      decreases again, leap - r.year
    {
      r := r.(year := r.year + 1);
      steps := steps + 1;
      again := !IsLeap(r.year + 1900) && !Valid(r);
    }
  }

  /** The day after, at the same time of day. */
  function NextDay(t: Tm): Tm {
    if t.mday < MonthDays(t.mon, t.year) then t.(mday := t.mday + 1)
    else if t.mon < 11 then t.(mday := 1, mon := t.mon + 1)
    else t.(mday := 1, mon := 0, year := t.year + 1)
  }

  /** The first later point in time at the same time of day. */
  lemma NextDayIsNext(t: Tm, u: Tm)
    requires Valid(t) && Valid(u) && u.hour == t.hour && u.min == t.min && u.sec == t.sec
    ensures Valid(NextDay(t)) && Before(t, NextDay(t))
    ensures NextDay(t).hour == t.hour && NextDay(t).min == t.min && NextDay(t).sec == t.sec
    ensures !(Before(t, u) && Before(u, NextDay(t)))
  {
  }

  /** Fields the hardware left open, from the clock, and the coarsest kind of field that was. */
  function Fill(alarm: Tm, now: Tm): (Tm, Missing) {
    var sec := if alarm.sec == -1 then now.sec else alarm.sec;
    var min := if alarm.min == -1 then now.min else alarm.min;
    var hour := if alarm.hour == -1 then now.hour else alarm.hour;
    var noDay := alarm.mday < 1 || alarm.mday > 31;
    var noMonth := alarm.mon < 0 || alarm.mon >= 12;
    var noYear := alarm.year == -1;
    (Tm(sec, min, hour,
        if noDay then now.mday else alarm.mday,
        if noMonth then now.mon else alarm.mon,
        if noYear then now.year else alarm.year),
     if noDay then Day else if noMonth then Month else if noYear then Year else Nothing)
  }

  /** A field of the alarm that the hardware has is kept, one it does not have is the clock's. */
  predicate Filled(open: bool, field: int, clock: int, result: int) {
    result == if open then clock else field
  }

  /** What is filled in, and which rollover that leads to: that of the finest date field left open. */
  lemma FillEffect(alarm: Tm, now: Tm)
    ensures var (t, missing) := Fill(alarm, now);
            var noDay, noMonth, noYear := !(1 <= alarm.mday <= 31), !(0 <= alarm.mon < 12), alarm.year == -1;
            && Filled(alarm.sec == -1, alarm.sec, now.sec, t.sec) && Filled(alarm.min == -1, alarm.min, now.min, t.min)
            && Filled(alarm.hour == -1, alarm.hour, now.hour, t.hour) && Filled(noDay, alarm.mday, now.mday, t.mday)
            && Filled(noMonth, alarm.mon, now.mon, t.mon) && Filled(noYear, alarm.year, now.year, t.year)
            && (missing == Nothing <==> !noDay && !noMonth && !noYear)
            && (missing == Day <==> noDay) && (missing == Month <==> !noDay && noMonth)
  {
  }

  /** The fields coarser than the missing one agree with the clock; those that were open themselves always do. */
  ghost predicate ClockAgrees(filled: Tm, now: Tm, missing: Missing) {
    match missing
    case Nothing => false
    case Day => filled.mon == now.mon && filled.year == now.year
    case Month => filled.year == now.year
    case Year => true
  }

  /** A day later is after now only if it is the day after today. */
  lemma DayRollover(filled: Tm, now: Tm)
    requires Valid(now) && Valid(filled) && !Before(now, filled) && filled.mday == now.mday
    ensures Valid(NextDay(filled))
    ensures Before(now, NextDay(filled)) <==> ClockAgrees(filled, now, Day)
  {
  }

  /** On 10 March 2020 an alarm at 5 in January, day and year open, is filled to 10 January and rolls over to the 11th. */
  lemma StaysBehind()
    ensures var now, alarm := Tm(0, 0, 10, 10, 2, 120), Tm(0, 0, 5, -1, 0, -1);
            var filled := Fill(alarm, now).0;
            && Fill(alarm, now).1 == Day && Valid(now) && Valid(filled)
            && NextDay(filled) == Tm(0, 0, 5, 11, 0, 120) && !Before(now, NextDay(filled))
  {
  }

  /** The next month with that day is after now only if it is counted from this month. */
  lemma MonthRollover(filled: Tm, now: Tm, r: Tm, steps: nat)
    requires Valid(now) && Valid(filled) && !Before(now, filled) && filled.mon == now.mon
    requires Valid(r) && r == filled.(mon := r.mon, year := r.year) && MonthIndex(r) == MonthIndex(filled) + steps
    requires 1 <= steps <= 2
    ensures Before(now, r) <==> ClockAgrees(filled, now, Month)
  {
    assert filled.year <= now.year;
  }

  /**
   The tail of `__rtc_read_alarm`, from the point where a consistent clock reading is at hand.  A filled alarm
   that is valid and after now is the result.  Otherwise the result is a day later, or in the first later month
   that has the day, or in the first later year that has the date, depending on what was missing; and it is
   after now if and only if the fields coarser than the missing one agree with the clock.
   */
  method Resolve(alarm: Tm, now: Tm) returns (ok: bool, r: Tm)
    requires Valid(now)
    ensures var (filled, missing) := Fill(alarm, now);
            && (ok <==> Valid(filled))
            && (!ok || Before(now, filled) || missing == Nothing ==> r == filled)
            && (ok ==> Valid(r) && r.sec == filled.sec && r.min == filled.min && r.hour == filled.hour)
            && (ok ==> (Before(now, r) <==> Before(now, filled) || ClockAgrees(filled, now, missing)))
            && (ok && !Before(now, filled) ==>
                  match missing
                  case Nothing => true
                  case Day => r == NextDay(filled)
                  case Month =>
                    && r.mday == filled.mday && MonthIndex(filled) < MonthIndex(r) <= MonthIndex(filled) + 2
                    && forall i :: MonthIndex(filled) < i < MonthIndex(r) ==> !DayInMonth(filled.mday, i)
                  case Year =>
                    && r.mday == filled.mday && r.mon == filled.mon && filled.year < r.year <= filled.year + 8
                    && forall y :: filled.year < y < r.year ==> !DateExists(filled.mday, filled.mon, y))
  {
    var (filled, missing) := Fill(alarm, now);
    r := filled;
    if !Valid(r) {
      return false, r;
    }
    if Before(now, r) {
      return true, r;
    }
    match missing {
      case Day =>
        r := NextDay(r);
        DayRollover(filled, now);
      case Month =>
        var steps;
        r, steps := RollMonth(r);
        MonthRollover(filled, now, r, steps);
      case Year =>
        var steps;
        r, steps := RollYear(r);
      case Nothing =>
    }
    ok := Valid(r);
  }
}
