/**
 The text of a log timestamp, `year/month/day hour:minute:second` with zeros in front, and
 when sorting the text sorts by time.
 */
module Timestamps {
  import opened Arith
  import opened Calendar

  // ---------- Numbers as text ----------

  function Digit(n: int): char {
    '0' + (n % 10) as char
  }

  function Decimal(n: nat): (s: string)
    ensures |s| >= 1
  {
    if n < 10 then [Digit(n)] else Decimal(n / 10) + [Digit(n)]
  }

  function ZeroPadded(s: string, width: nat): (r: string)
    ensures |r| >= width
    decreases width - |s|
  {
    if |s| < width then ZeroPadded("0" + s, width) else s
  }

  function Two(n: nat): string {
    ZeroPadded(Decimal(n), 2)
  }

  /** A sign counts towards the width of four. */
  function YearText(y: int): string {
    if y < 0 then "-" + ZeroPadded(Decimal(-y), 3) else ZeroPadded(Decimal(y), 4)
  }

  /** The fields of a timestamp that are written with two digits. */
  ghost predicate InRange(t: Timestamp) {
    && 1 <= t.date.month <= 12 && 1 <= t.date.day <= 31
    && 0 <= t.hour < 24 && 0 <= t.minute < 60 && 0 <= t.second < 60
  }

  function TextOf(t: Timestamp): string
    requires InRange(t)
  {
    YearText(t.date.year)
    + ("/" + Two(t.date.month)
       + ("/" + Two(t.date.day)
          + (" " + Two(t.hour)
             + (":" + Two(t.minute)
                + (":" + Two(t.second))))))
  }

  lemma TimestampInRange(unixSecs: nat)
    ensures InRange(TimestampOf(unixSecs))
  {
    hide WideCivil;
    CivilCountsDays(unixSecs / 86400);
    ClockSplits(unixSecs % 86400);
  }

  function FormatTimestamp(unixSecs: nat): string {
    TimestampInRange(unixSecs);
    TextOf(TimestampOf(unixSecs))
  }

  // ---------- Text order ----------

  /** Strings are ordered by their first difference; a proper prefix comes first. */
  ghost predicate Sorts(a: string, b: string) {
    a < b || exists k :: DiffersAt(a, b, k)
  }

  ghost predicate DiffersAt(a: string, b: string, k: int) {
    0 <= k < |a| && k < |b| && a[..k] == b[..k] && a[k] < b[k]
  }

  lemma DigitOrder(m: int, n: int)
    requires 0 <= m < 10 && 0 <= n < 10
    ensures Digit(m) < Digit(n) <==> m < n
    ensures Digit(m) == Digit(n) <==> m == n
  {
  }

  lemma TwoDigits(n: nat)
    requires n < 100
    ensures Two(n) == [Digit(n / 10), Digit(n)]
  {
    if n < 10 {
      assert Decimal(n) == [Digit(n)];
      assert "0" + [Digit(n)] == [Digit(0), Digit(n)];
      assert ZeroPadded([Digit(n)], 2) == ZeroPadded("0" + [Digit(n)], 2);
    } else {
      assert Decimal(n / 10) == [Digit(n / 10)];
    }
  }

  lemma DecimalSteps(y: nat)
    requires 1000 <= y <= 9999
    ensures Decimal(y) == [Digit(y / 1000), Digit(y / 100), Digit(y / 10), Digit(y)]
  {
    hide Digit;
    assert y / 10 / 10 == y / 100 && y / 100 / 10 == y / 1000;
    assert Decimal(y / 1000) == [Digit(y / 1000)];
    assert Decimal(y / 100) == Decimal(y / 1000) + [Digit(y / 100)];
    assert Decimal(y / 10) == Decimal(y / 100) + [Digit(y / 10)];
    assert Decimal(y) == Decimal(y / 10) + [Digit(y)];
  }

  lemma FourDigits(y: int)
    requires 1000 <= y <= 9999
    ensures YearText(y) == Two(y / 100) + Two(y % 100)
  {
    hide Two, Decimal, Digit;
    TwoDigits(y / 100);
    TwoDigits(y % 100);
    DecimalSteps(y);
    LowDigits(y);
  }

  lemma LowDigits(y: int)
    requires 1000 <= y <= 9999
    ensures y / 100 / 10 == y / 1000
    ensures Digit(y % 100) == Digit(y) && Digit(y % 100 / 10) == Digit(y / 10)
  {
    var q, r := y / 100, y % 100;
    DivUnique(y, 10, 10 * q + r / 10, r % 10);
    DivUnique(y / 10, 10, q, r / 10);
  }

  lemma FirstDiffers(a: string, b: string, k: int, x: string, y: string)
    requires DiffersAt(a, b, k)
    ensures DiffersAt(a + x, b + y, k)
  {
    assert (a + x)[..k] == a[..k] && (b + y)[..k] == b[..k];
  }

  lemma SortsAfter(a: string, x: string, y: string)
    requires Sorts(x, y)
    ensures Sorts(a + x, a + y)
  {
    if k :| DiffersAt(x, y, k) {
      assert (a + x)[..|a| + k] == a + x[..k] && (a + y)[..|a| + k] == a + y[..k];
      assert DiffersAt(a + x, a + y, |a| + k);
    }
  }

  /** A smaller number sorts first, whatever follows; equal numbers leave it to what follows. */
  lemma FieldSorts(sep: string, m: nat, n: nat, x: string, y: string)
    requires m < 100 && n < 100
    requires m < n || (m == n && Sorts(x, y))
    ensures Sorts(sep + Two(m) + x, sep + Two(n) + y)
  {
    if m < n {
      TwoDigits(m);
      TwoDigits(n);
      DigitOrder(m / 10, n / 10);
      DigitOrder(m % 10, n % 10);
      var k := if m / 10 < n / 10 then 0 else 1;
      assert DiffersAt(Two(m), Two(n), k);
      FirstDiffers(Two(m), Two(n), k, x, y);
      assert Sorts(Two(m) + x, Two(n) + y);
      SortsAfter(sep, Two(m) + x, Two(n) + y);
      assert sep + (Two(m) + x) == sep + Two(m) + x && sep + (Two(n) + y) == sep + Two(n) + y;
    } else {
      SortsAfter(sep + Two(m), x, y);
    }
  }

  // ---------- Time order ----------

  ghost predicate Earlier(t: Timestamp, u: Timestamp) {
    || Before(t.date, u.date)
    || (t.date == u.date
        && (t.hour < u.hour
            || (t.hour == u.hour && (t.minute < u.minute || (t.minute == u.minute && t.second < u.second)))))
  }

  lemma ClockSorts(t: Timestamp, u: Timestamp)
    requires InRange(t) && InRange(u)
    requires t.hour < u.hour
             || (t.hour == u.hour && (t.minute < u.minute || (t.minute == u.minute && t.second < u.second)))
    ensures Sorts(" " + Two(t.hour) + (":" + Two(t.minute) + (":" + Two(t.second))),
                  " " + Two(u.hour) + (":" + Two(u.minute) + (":" + Two(u.second))))
  {
    hide Two, Sorts;
    var s, s' := ":" + Two(t.second), ":" + Two(u.second);
    if t.second < u.second {
      FieldSorts(":", t.second, u.second, "", "");
      assert ":" + Two(t.second) + "" == s && ":" + Two(u.second) + "" == s';
    }
    var m, m' := ":" + Two(t.minute) + s, ":" + Two(u.minute) + s';
    if t.hour == u.hour {
      FieldSorts(":", t.minute, u.minute, s, s');
    }
    FieldSorts(" ", t.hour, u.hour, m, m');
  }

  function ClockText(t: Timestamp): string
    requires InRange(t)
  {
    " " + Two(t.hour) + (":" + Two(t.minute) + (":" + Two(t.second)))
  }

  function DayText(t: Timestamp): string
    requires InRange(t)
  {
    "/" + Two(t.date.month) + ("/" + Two(t.date.day) + ClockText(t))
  }

  lemma TextParts(t: Timestamp)
    requires InRange(t) && 1000 <= t.date.year <= 9999
    ensures TextOf(t) == "" + Two(t.date.year / 100) + ("" + Two(t.date.year % 100) + DayText(t))
  {
    hide Two;
    FourDigits(t.date.year);
  }

  lemma EarlierSorts(t: Timestamp, u: Timestamp)
    requires InRange(t) && InRange(u) && Earlier(t, u)
    requires 1000 <= t.date.year <= 9999 && 1000 <= u.date.year <= 9999
    ensures Sorts(TextOf(t), TextOf(u))
  {
    hide Two, Sorts, ClockText, TextOf;
    TextParts(t);
    TextParts(u);
    var c, c' := ClockText(t), ClockText(u);
    if t.date == u.date {
      ClockTextSorts(t, u);
    }
    if t.date.year == u.date.year {
      if t.date.month == u.date.month {
        FieldSorts("/", t.date.day, u.date.day, c, c');
      }
      FieldSorts("/", t.date.month, u.date.month, "/" + Two(t.date.day) + c, "/" + Two(u.date.day) + c');
    }
    YearSorts(t.date.year, u.date.year, DayText(t), DayText(u));
  }

  lemma ClockTextSorts(t: Timestamp, u: Timestamp)
    requires InRange(t) && InRange(u) && Earlier(t, u) && t.date == u.date
    ensures Sorts(ClockText(t), ClockText(u))
  {
    hide Two, Sorts;
    ClockSorts(t, u);
  }

  lemma YearSorts(y: int, y': int, x: string, x': string)
    requires 1000 <= y <= 9999 && 1000 <= y' <= 9999
    requires y < y' || (y == y' && Sorts(x, x'))
    ensures Sorts("" + Two(y / 100) + ("" + Two(y % 100) + x), "" + Two(y' / 100) + ("" + Two(y' % 100) + x'))
  {
    hide Two, Sorts;
    if y / 100 == y' / 100 {
      FieldSorts("", y % 100, y' % 100, x, x');
    }
    FieldSorts("", y / 100, y' / 100, "" + Two(y % 100) + x, "" + Two(y' % 100) + x');
  }

  /** A later second has a later date or a later time of day. */
  lemma LaterIsLater(s: nat, t: nat)
    requires s < t && t / 86400 < YearStart(0x8000_0000)
    ensures Earlier(TimestampOf(s), TimestampOf(t))
  {
    hide WideCivil, CivilFromDays, YearStart;
    var m, n := s / 86400, t / 86400;
    assert m <= n;
    YearStartsBelow();
    NarrowYearExact(m);
    NarrowYearExact(n);
    CivilIsOrderPreserving(m, n);
    ClockOrders(s % 86400, t % 86400);
  }

  lemma YearStartsBelow()
    ensures YearStart(-0x8000_0000) <= 0 < YearStart(10000) < YearStart(0x8000_0000)
  {
  }

  lemma ClockOrders(s: int, t: int)
    requires 0 <= s < t < 86400 || t <= s
    ensures s < t ==>
              s / 3600 < t / 3600
              || (s / 3600 == t / 3600 && (s % 3600 / 60 < t % 3600 / 60
                                           || (s % 3600 / 60 == t % 3600 / 60 && s % 60 < t % 60)))
  {
    if s < t {
      ClockSplits(s);
      ClockSplits(t);
    }
  }

  /** The year of a second before the year 10000. */
  lemma YearIsFourDigits(s: nat)
    requires s / 86400 < YearStart(10000)
    ensures 1970 <= TimestampOf(s).date.year <= 9999
  {
    hide WideCivil, CivilFromDays, YearStart;
    var d := WideCivil(s / 86400);
    YearStartsBelow();
    NarrowYearExact(s / 86400);
    CivilCountsDays(s / 86400);
    YearLength(d);
    if d.year >= 10000 {
      YearStartMonotone(10000, d.year);
    }
    if d.year < 1970 {
      YearStartMonotone(d.year + 1, 1970);
      EpochYear();
    }
  }

  lemma EpochYear()
    ensures YearStart(1970) == 0
  {
  }

  lemma TextSorts(s: nat, t: nat)
    requires s < t && t / 86400 < YearStart(10000)
    ensures Sorts(FormatTimestamp(s), FormatTimestamp(t))
  {
    hide WideCivil, CivilFromDays, YearStart, TextOf, TimestampOf, Earlier, Sorts;
    TimestampInRange(s);
    TimestampInRange(t);
    YearStartsBelow();
    YearIsFourDigits(s);
    YearIsFourDigits(t);
    LaterIsLater(s, t);
    EarlierSorts(TimestampOf(s), TimestampOf(t));
  }

  /** All timestamps up to second `last` sort by their text as they do by time. */
  ghost predicate SortsUpTo(last: nat) {
    forall s: nat, t: nat | s < t <= last :: Sorts(FormatTimestamp(s), FormatTimestamp(t))
  }

  /** Sorting the text sorts by time exactly up to the last second of the year 9999. */
  lemma TextOrderExact(last: nat)
    ensures SortsUpTo(last) <==> last / 86400 < YearStart(10000)
  {
    hide FormatTimestamp, YearStart, Sorts;
    if last / 86400 < YearStart(10000) {
      forall s: nat, t: nat | s < t <= last ensures Sorts(FormatTimestamp(s), FormatTimestamp(t)) {
        assert t / 86400 <= last / 86400;
        TextSorts(s, t);
      }
    } else {
      YearStartsBelow();
      var t := 86400 * YearStart(10000);
      FirstOfTenThousand(t);
      assert t <= last;
      assert !Sorts(FormatTimestamp(t - 1), FormatTimestamp(t));
    }
  }

  /** "9999..." comes after "10000...". */
  lemma FirstOfTenThousand(t: nat)
    requires t == 86400 * YearStart(10000)
    ensures t >= 1 && !Sorts(FormatTimestamp(t - 1), FormatTimestamp(t))
  {
    hide WideCivil, CivilFromDays, TimestampOf, TextOf, Sorts;
    YearStartsBelow();
    BothDates(t);
    TimestampInRange(t - 1);
    TimestampInRange(t);
    BeginsWithNine(TimestampOf(t - 1));
    BeginsWithOne(TimestampOf(t));
    StartsLater(FormatTimestamp(t - 1), FormatTimestamp(t));
  }

  lemma StartsLater(a: string, b: string)
    requires a != "" && b != "" && a[0] > b[0]
    ensures !Sorts(a, b)
  {
    if k :| DiffersAt(a, b, k) {
      SameHead(a, b, k);
    }
  }

  lemma SameHead(a: string, b: string, k: int)
    requires DiffersAt(a, b, k)
    ensures a[0] <= b[0]
  {
    if k > 0 {
      assert a[0] == a[..k][0] == b[..k][0] == b[0];
    }
  }

  lemma BothDates(t: nat)
    requires t == 86400 * YearStart(10000)
    ensures t >= 1 && TimestampOf(t - 1).date.year == 9999 && TimestampOf(t).date.year == 10000
  {
    hide WideCivil, CivilFromDays, YearStart, DayNumber;
    YearStartsBelow();
    var day := YearStart(10000);
    assert t / 86400 == day && (t - 1) / 86400 == day - 1;
    NarrowYearExact(day);
    NarrowYearExact(day - 1);
    var next, last := Date(10000, 1, 1), Date(9999, 12, 31);
    NewYear();
    CivilInvertsDayNumber(next);
    CivilInvertsDayNumber(last);
  }

  lemma NewYear()
    ensures Valid(Date(10000, 1, 1)) && DayNumber(Date(10000, 1, 1)) == YearStart(10000)
    ensures Valid(Date(9999, 12, 31)) && DayNumber(Date(9999, 12, 31)) == YearStart(10000) - 1
  {
  }

  lemma BeginsWithNine(t: Timestamp)
    requires InRange(t) && t.date.year == 9999
    ensures TextOf(t) != "" && TextOf(t)[0] == '9'
  {
    FourDigits(9999);
    TwoDigits(99);
  }

  lemma BeginsWithOne(t: Timestamp)
    requires InRange(t) && t.date.year == 10000
    ensures TextOf(t) != "" && TextOf(t)[0] == '1'
  {
    assert Decimal(10000) == Decimal(1000) + ['0'];
    assert Decimal(1000) == Decimal(100) + ['0'];
    assert Decimal(100) == Decimal(10) + ['0'];
    assert Decimal(10) == Decimal(1) + ['0'];
    assert Decimal(1) == ['1'];
  }
}
