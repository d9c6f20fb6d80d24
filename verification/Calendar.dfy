/**
 The log timestamp's calendar: a closed form from days since 1970-01-01 to a
 Gregorian date. The partner is the calendar itself: leap years, month lengths
 and the rule for tomorrow.
 */
module Calendar {
  import opened Arith

  datatype Date = Date(year: int, month: int, day: int)

  // ---------- The proleptic Gregorian calendar ----------

  predicate IsLeap(y: int) {
    y % 4 == 0 && (y % 100 != 0 || y % 400 == 0)
  }

  function DaysInMonth(y: int, m: int): int {
    if m == 2 then (if IsLeap(y) then 29 else 28)
    else if m == 4 || m == 6 || m == 9 || m == 11 then 30
    else 31
  }

  predicate Valid(d: Date) {
    1 <= d.month <= 12 && 1 <= d.day <= DaysInMonth(d.year, d.month)
  }

  function NextDay(d: Date): Date {
    if d.day < DaysInMonth(d.year, d.month) then d.(day := d.day + 1)
    else if d.month < 12 then Date(d.year, d.month + 1, 1)
    else Date(d.year + 1, 1, 1)
  }

  predicate Before(a: Date, b: Date) {
    || a.year < b.year
    || (a.year == b.year && a.month < b.month)
    || (a.year == b.year && a.month == b.month && a.day < b.day)
  }

  /** Leap years in 1..y, extended to all integers. */
  function LeapDays(y: int): int {
    y / 4 - y / 100 + y / 400
  }

  function YearStart(y: int): int {
    365 * (y - 1970) + LeapDays(y - 1) - 477
  }

  function DaysBeforeMonth(y: int, m: int): int {
    var leap := if IsLeap(y) then 1 else 0;
    if m <= 1 then 0
    else if m == 2 then 31
    else if m == 3 then 59 + leap
    else if m == 4 then 90 + leap
    else if m == 5 then 120 + leap
    else if m == 6 then 151 + leap
    else if m == 7 then 181 + leap
    else if m == 8 then 212 + leap
    else if m == 9 then 243 + leap
    else if m == 10 then 273 + leap
    else if m == 11 then 304 + leap
    else 334 + leap
  }

  /** The standard count of days from 1970-01-01 to a date. */
  function DayNumber(d: Date): int {
    YearStart(d.year) + DaysBeforeMonth(d.year, d.month) + d.day - 1
  }

  // ---------- The closed form ----------

  /** Division of the source language: it truncates toward zero. */
  function TruncDiv(a: int, b: int): int
    requires b > 0
  {
    if a >= 0 then a / b else -((-a) / b)
  }

  function Era(z: int): int {
    TruncDiv(if z >= 0 then z else z - 146096, 146097)
  }

  function YearOfEra(doe: int): int {
    (doe - doe / 1460 + doe / 36524 - doe / 146096) / 365
  }

  /** Month and day from the day of a year that starts on 1 March. */
  function FromMarchDay(year: int, doy: int): Date {
    var mp := (5 * doy + 2) / 153;
    var day := doy - (153 * mp + 2) / 5 + 1;
    var month := mp + (if mp < 10 then 3 else -9);
    Date(if month <= 2 then year + 1 else year, month, day)
  }

  /** The closed form, before the year is narrowed to 32 bits. */
  function WideCivil(days: int): Date {
    var z := days + 719468;
    var era := Era(z);
    var doe := z - era * 146097;
    var yoe := YearOfEra(doe);
    FromMarchDay(yoe + era * 400, doe - (365 * yoe + yoe / 4 - yoe / 100))
  }

  /** `as i32`: keep the low 32 bits, in two's complement. */
  function AsI32(x: int): int {
    (x + 0x8000_0000) % 0x1_0000_0000 - 0x8000_0000
  }

  function CivilFromDays(days: int): Date {
    var d := WideCivil(days);
    d.(year := AsI32(d.year))
  }

  // ---------- The closed form counts days correctly ----------

  lemma EraIsFloor(z: int)
    ensures Era(z) == z / 146097
    ensures 0 <= z - Era(z) * 146097 <= 146096
  {
  }

  /** First day, within the era, of the y-th year starting in March. */
  function MarchYearStart(y: int): int {
    365 * y + y / 4 - y / 100
  }

  /** A day of the era as century, four-year cycle, year and day of that year. */
  lemma SplitDay(doe: int) returns (c: int, q: int, k: int, r: int)
    requires 0 <= doe <= 146096
    ensures 0 <= c <= 3 && 0 <= q <= 24 && 0 <= k <= 3 && 0 <= r <= 365
    ensures r == 365 ==> k == 3 && (q < 24 || c == 3)
    ensures doe == 36524 * c + 1461 * q + 365 * k + r
  {
    c := if doe == 146096 then 3 else doe / 36524;
    var inCentury := doe - 36524 * c;
    q := inCentury / 1461;
    var inCycle := inCentury - 1461 * q;
    k := if inCycle == 1460 then 3 else inCycle / 365;
    r := inCycle - 365 * k;
  }

  lemma YearOfEraLocates(doe: int)
    requires 0 <= doe <= 146096
    ensures 0 <= YearOfEra(doe) <= 399
    ensures 0 <= doe - MarchYearStart(YearOfEra(doe)) <= 365
    ensures doe - MarchYearStart(YearOfEra(doe)) == 365 ==> IsLeap(YearOfEra(doe) + 1)
  {
    hide YearOfEra, MarchYearStart, IsLeap;
    var c, q, k, r := SplitDay(doe);
    YearOfEraIs(c, q, k, r);
    MarchYearStartIs(c, q, k);
    if r == 365 {
      CycleEndsInLeapYear(c, q);
    }
  }

  lemma CycleEndsInLeapYear(c: int, q: int)
    requires 0 <= c <= 3 && 0 <= q <= 24 && (q < 24 || c == 3)
    ensures IsLeap(100 * c + 4 * q + 4)
  {
    var y := 100 * c + 4 * q + 4;
    DivUnique(y, 4, 25 * c + q + 1, 0);
    if q < 24 {
      DivUnique(y, 100, c, 4 * q + 4);
    }
  }

  lemma MarchYearStartIs(c: int, q: int, k: int)
    requires 0 <= c <= 3 && 0 <= q <= 24 && 0 <= k <= 3
    ensures MarchYearStart(100 * c + 4 * q + k) == 36524 * c + 1461 * q + 365 * k
  {
  }

  lemma YearOfEraIs(c: int, q: int, k: int, r: int)
    requires 0 <= c <= 3 && 0 <= q <= 24 && 0 <= k <= 3 && 0 <= r <= 365
    requires r == 365 ==> k == 3 && (q < 24 || c == 3)
    ensures YearOfEra(36524 * c + 1461 * q + 365 * k + r) == 100 * c + 4 * q + k
  {
    var doe := 36524 * c + 1461 * q + 365 * k + r;
    var left := 24 * c + q + 365 * k + r;
    var e := if left >= 1460 then 1 else 0;
    assert doe == 1460 * (25 * c + q + e) + (left - 1460 * e);
    DivUnique(doe, 1460, 25 * c + q + e, left - 1460 * e);
    assert doe / 36524 - doe / 146096 == c by { Centuries(doe, c); }
    var y := 100 * c + 4 * q + k;
    assert 365 * y <= doe - (25 * c + q + e) + c < 365 * y + 365;
    DivUnique(doe - (25 * c + q + e) + c, 365, y, doe - (25 * c + q + e) + c - 365 * y);
  }

  lemma Centuries(doe: int, c: int)
    requires 0 <= c <= 3 && 36524 * c <= doe
    requires doe < 36524 * (c + 1) || (c == 3 && doe == 146096)
    ensures doe / 36524 - doe / 146096 == c
  {
  }

  lemma MonthLocates(doy: int)
    requires 0 <= doy <= 365
    ensures var mp := (5 * doy + 2) / 153;
            var day := doy - (153 * mp + 2) / 5 + 1;
            0 <= mp <= 11 && 1 <= day <= 31 && (153 * mp + 2) / 5 <= doy
            && (mp == 11 ==> day <= 29)
            && ((mp == 1 || mp == 3 || mp == 6 || mp == 8) ==> day <= 30)
  {
  }

  lemma LeapDaysShift(y: int, era: int)
    ensures LeapDays(y + era * 400) == LeapDays(y) + 97 * era
    ensures IsLeap(y + era * 400) == IsLeap(y)
  {
    DivAdd(y, 100 * era, 4);
    DivAdd(y, 4 * era, 100);
    DivAdd(y, era, 400);
  }

  /** January and February belong to the year after the March they follow. */
  lemma MarchDayNumber(y: int, doy: int)
    requires 0 <= doy <= 365 && (doy == 365 ==> IsLeap(y + 1))
    ensures Valid(FromMarchDay(y, doy))
    ensures DayNumber(FromMarchDay(y, doy)) + 719468 == 365 * y + LeapDays(y) + doy
  {
    MonthLocates(doy);
    LeapDayStep(y);
    hide IsLeap, LeapDays;
  }

  lemma LeapDayStep(y: int)
    ensures LeapDays(y) == LeapDays(y - 1) + (if IsLeap(y) then 1 else 0)
  {
    DivStep(y, 4);
    DivStep(y, 100);
    DivStep(y, 400);
    if y % 400 == 0 {
      DivAdd(0, 4 * (y / 400), 100);
    }
    if y % 100 == 0 {
      DivAdd(0, 25 * (y / 100), 4);
    }
  }

  lemma DivStep(y: int, m: int)
    requires m > 1
    ensures y / m == (y - 1) / m + (if y % m == 0 then 1 else 0)
  {
    var q, r := (y - 1) / m, (y - 1) % m;
    if r == m - 1 {
      assert y == (q + 1) * m;
      DivUnique(y, m, q + 1, 0);
    } else {
      DivUnique(y, m, q, r + 1);
    }
  }

  /** Every date produced is a real one, and it is the date with that day number. */
  lemma CivilCountsDays(days: int)
    ensures Valid(WideCivil(days))
    ensures DayNumber(WideCivil(days)) == days
  {
    hide Valid, DayNumber, FromMarchDay, YearOfEra, IsLeap;
    var z := days + 719468;
    EraIsFloor(z);
    var era := Era(z);
    var doe := z - era * 146097;
    YearOfEraLocates(doe);
    InEra(era, YearOfEra(doe), doe - MarchYearStart(YearOfEra(doe)));
  }

  lemma InEra(era: int, yoe: int, doy: int)
    requires 0 <= yoe <= 399 && 0 <= doy <= 365 && (doy == 365 ==> IsLeap(yoe + 1))
    ensures Valid(FromMarchDay(yoe + era * 400, doy))
    ensures DayNumber(FromMarchDay(yoe + era * 400, doy)) + 719468
         == era * 146097 + MarchYearStart(yoe) + doy
  {
    LeapDaysShift(yoe, era);
    LeapDaysShift(yoe + 1, era);
    MarchDayNumber(yoe + era * 400, doy);
  }

  // ---------- What that makes of the closed form ----------

  lemma NextDayCounts(d: Date)
    requires Valid(d)
    ensures Valid(NextDay(d)) && DayNumber(NextDay(d)) == DayNumber(d) + 1
  {
    LeapDayStep(d.year);
  }

  lemma {:induction false} YearStartMonotone(y: int, y': int)
    requires y <= y'
    ensures YearStart(y) + 365 * (y' - y) <= YearStart(y')
    decreases y' - y
  {
    if y < y' {
      YearStartMonotone(y, y' - 1);
      LeapDayStep(y' - 1);
    }
  }

  lemma YearLength(d: Date)
    requires Valid(d)
    ensures YearStart(d.year) <= DayNumber(d) < YearStart(d.year + 1)
  {
    LeapDayStep(d.year);
  }

  /** Day numbers order dates as the calendar does, so they never collide. */
  lemma DayNumberOrders(a: Date, b: Date)
    requires Valid(a) && Valid(b)
    ensures Before(a, b) <==> DayNumber(a) < DayNumber(b)
    ensures DayNumber(a) == DayNumber(b) <==> a == b
  {
    hide Valid, DayNumber, YearStart;
    YearLength(a);
    YearLength(b);
    if a.year < b.year {
      YearStartMonotone(a.year + 1, b.year);
    } else if b.year < a.year {
      YearStartMonotone(b.year + 1, a.year);
    } else if a.month < b.month {
      MonthsOrder(a, b);
    } else if b.month < a.month {
      MonthsOrder(b, a);
    } else {
      DaysOrder(a, b);
    }
  }

  lemma DaysOrder(a: Date, b: Date)
    requires a.year == b.year && a.month == b.month
    ensures DayNumber(a) - DayNumber(b) == a.day - b.day
  {
  }

  lemma MonthsOrder(a: Date, b: Date)
    requires Valid(a) && Valid(b) && a.year == b.year && a.month < b.month
    ensures DayNumber(a) < DayNumber(b)
  {
    hide IsLeap, YearStart;
  }

  /** The closed form and the day count are inverse to each other on every date. */
  lemma CivilInvertsDayNumber(d: Date)
    requires Valid(d)
    ensures WideCivil(DayNumber(d)) == d
  {
    CivilCountsDays(DayNumber(d));
    DayNumberOrders(WideCivil(DayNumber(d)), d);
  }

  lemma CivilEpoch()
    ensures WideCivil(0) == Date(1970, 1, 1)
  {
    hide WideCivil;
    assert Valid(Date(1970, 1, 1)) && DayNumber(Date(1970, 1, 1)) == 0;
    CivilInvertsDayNumber(Date(1970, 1, 1));
  }

  /** One more day is the next calendar date, across months, leap years and centuries. */
  lemma CivilFollowsCalendar(days: int)
    ensures WideCivil(0) == Date(1970, 1, 1)
    ensures WideCivil(days + 1) == NextDay(WideCivil(days))
  {
    hide Valid, DayNumber, WideCivil, NextDay;
    CivilEpoch();
    CivilCountsDays(days);
    NextDayCounts(WideCivil(days));
    CivilInvertsDayNumber(NextDay(WideCivil(days)));
  }

  lemma CivilIsOrderPreserving(m: int, n: int)
    ensures m < n <==> Before(WideCivil(m), WideCivil(n))
    ensures m == n <==> WideCivil(m) == WideCivil(n)
  {
    CivilCountsDays(m);
    CivilCountsDays(n);
    DayNumberOrders(WideCivil(m), WideCivil(n));
  }

  /**
   The 32-bit year is right from the first day of year -2^31 to the last day of
   year 2^31 - 1, and wrong on every other day. A 64-bit count of seconds reaches
   far past that.
   */
  lemma NarrowYearExact(days: int)
    ensures CivilFromDays(days) == WideCivil(days)
       <==> YearStart(-0x8000_0000) <= days < YearStart(0x8000_0000)
  {
    hide Valid, DayNumber, WideCivil, YearStart;
    var d := WideCivil(days);
    CivilCountsDays(days);
    YearLength(d);
    if d.year < -0x8000_0000 {
      YearStartMonotone(d.year + 1, -0x8000_0000);
    } else if d.year >= 0x8000_0000 {
      YearStartMonotone(0x8000_0000, d.year);
    } else {
      YearStartMonotone(-0x8000_0000, d.year);
      YearStartMonotone(d.year + 1, 0x8000_0000);
    }
  }

  /** Unsigned 64-bit seconds reach days past the last one of these. */
  lemma SecondsReachFurther()
    ensures 0xffff_ffff_ffff_ffff / 86400 >= YearStart(0x8000_0000)
  {
  }

  // ---------- The time of day ----------

  datatype Timestamp = Timestamp(date: Date, hour: int, minute: int, second: int)

  function TimestampOf(unixSecs: nat): Timestamp {
    var seconds := unixSecs % 86400;
    Timestamp(CivilFromDays(unixSecs / 86400), seconds / 3600, (seconds % 3600) / 60, seconds % 60)
  }

  /** A printed timestamp names its second, for every second of the 32-bit years. */
  lemma TimestampNamesSecond(unixSecs: nat)
    requires unixSecs / 86400 < YearStart(0x8000_0000)
    ensures var t := TimestampOf(unixSecs);
            && Valid(t.date) && 0 <= t.hour < 24 && 0 <= t.minute < 60 && 0 <= t.second < 60
            && unixSecs == 86400 * DayNumber(t.date) + 3600 * t.hour + 60 * t.minute + t.second
  {
    var days := unixSecs / 86400;
    NarrowYearExact(days);
    CivilCountsDays(days);
    ClockSplits(unixSecs % 86400);
  }

  lemma ClockSplits(s: int)
    requires 0 <= s < 86400
    ensures 0 <= s / 3600 < 24 && 0 <= (s % 3600) / 60 < 60
    ensures s == 3600 * (s / 3600) + 60 * ((s % 3600) / 60) + s % 60
  {
  }
}
