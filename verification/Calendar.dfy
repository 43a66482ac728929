/**
  Conversion between ps2fs date stamps and seconds since 1970.  The reference is the Gregorian
  calendar given by its successor: `DateAt(n)` is what n steps of `NextDay` make of 1 January 1970.
 */
module Calendar {

  const DAY: nat := 86400
  const S32: nat := 0x8000_0000

  datatype Date = Date(year: nat, month: nat, day: nat)
  datatype DateTime = DateTime(date: Date, hour: nat, min: nat, sec: nat)

  // --------------------------------------------------------------- the calendar

  predicate Leap(y: nat) {
    y % 4 == 0 && (y % 100 != 0 || y % 400 == 0)
  }

  function MonthLength(y: nat, m: nat): nat {
    if m == 2 then (if Leap(y) then 29 else 28)
    else if m == 4 || m == 6 || m == 9 || m == 11 then 30 else 31
  }

  predicate ValidDate(d: Date) {
    d.year >= 1970 && 1 <= d.month <= 12 && 1 <= d.day <= MonthLength(d.year, d.month)
  }

  predicate ValidTime(t: DateTime) {
    ValidDate(t.date) && t.hour < 24 && t.min < 60 && t.sec < 60
  }

  function NextDay(d: Date): Date {
    if d.day < MonthLength(d.year, d.month) then d.(day := d.day + 1)
    else if d.month < 12 then Date(d.year, d.month + 1, 1)
    else Date(d.year + 1, 1, 1)
  }

  function DateAt(n: nat): Date {
    if n == 0 then Date(1970, 1, 1) else NextDay(DateAt(n - 1))
  }

  // -------------------------------------------------------------- from_ps2time

  /** Days before each month of a common year. */
  const MDAYS: seq<nat> := [0, 31, 59, 90, 120, 151, 181, 212, 243, 273, 304, 334]

  /** The year loop, with its leap test on `t` instead of the year. */
  function YearLoop(year: nat): nat {
    if year <= 1970 then 0
    else
      var t := YearLoop(year - 1) + 365 * DAY;
      if (year - 1) % 4 == 0 && (t % 100 != 0 || t % 400 == 0) then t + DAY else t
  }

  function FromDate(d: Date): int
    requires 1 <= d.month <= 12
  {
    YearLoop(d.year) + MDAYS[d.month - 1] * DAY + (if d.month > 2 && Leap(d.year) then DAY else 0) + (d.day - 1) * DAY
  }

  function FromTime(t: DateTime): int
    requires 1 <= t.date.month <= 12
  {
    FromDate(t.date) + t.hour * 3600 + t.min * 60 + t.sec
  }

  lemma Multiple(t: nat, q: nat)
    requires t == 400 * q
    ensures t % 400 == 0
  {
  }

  lemma WholeDays(k: nat)
    ensures (DAY * k + 365 * DAY) % 400 == 0
  {
    var t, q := DAY * k + 365 * DAY, 216 * k + 78840;
    assert t == 400 * q;
    Multiple(t, q);
  }

  /** The counter is always a number of whole days, so the wrong test is always true. */
  lemma {:induction false} YearLoopDays(year: nat) returns (k: nat)
    ensures YearLoop(year) == DAY * k
    ensures year >= 1970 ==> YearLoop(year + 1) == YearLoop(year) + (if year % 4 == 0 then 366 else 365) * DAY
  {
    if year > 1970 {
      var j := YearLoopDays(year - 1);
      k := j + if (year - 1) % 4 == 0 then 366 else 365;
    } else {
      k := 0;
    }
    WholeDays(k);
  }

  /** Up to 2099 that agrees with the Gregorian rule. */
  lemma YearLength(year: nat)
    requires 1970 <= year < 2100
    ensures YearLoop(year + 1) == YearLoop(year) + (if Leap(year) then 366 else 365) * DAY
  {
    var k := YearLoopDays(year);
  }

  lemma {:induction false} YearLoopGrows(year: nat)
    ensures YearLoop(year) >= 365 * DAY * (year - 1970)
    decreases year
  {
    if year > 1970 { YearLoopGrows(year - 1); }
  }

  lemma NextInMonth(d: Date)
    requires ValidDate(d) && d.day < MonthLength(d.year, d.month)
    ensures ValidDate(NextDay(d)) && FromDate(NextDay(d)) == FromDate(d) + DAY
  {
  }

  lemma NextMonth(d: Date)
    requires ValidDate(d) && d.day == MonthLength(d.year, d.month) && d.month < 12
    ensures ValidDate(NextDay(d)) && FromDate(NextDay(d)) == FromDate(d) + DAY
  {
    assert MDAYS[d.month] == MDAYS[d.month - 1] + (if d.month == 2 then 28 else MonthLength(d.year, d.month));
  }

  lemma NextYear(d: Date)
    requires ValidDate(d) && d.day == 31 && d.month == 12 && d.year < 2100
    ensures ValidDate(NextDay(d)) && FromDate(NextDay(d)) == FromDate(d) + DAY
  {
    YearLength(d.year);
  }

  lemma NextDaySeconds(d: Date)
    requires ValidDate(d) && d.year < 2100
    ensures ValidDate(NextDay(d)) && FromDate(NextDay(d)) == FromDate(d) + DAY
  {
    if d.day < MonthLength(d.year, d.month) {
      NextInMonth(d);
    } else if d.month < 12 {
      NextMonth(d);
    } else {
      NextYear(d);
    }
  }

  lemma YearBound(d: Date)
    requires ValidDate(d) && FromDate(d) < S32
    ensures d.year <= 2038
  {
    YearLoopGrows(d.year);
    assert YearLoop(d.year) <= FromDate(d);
  }

  /** Every day up to the 32-bit limit gets the number of days since 1 January 1970. */
  lemma {:induction false} DateAtSeconds(n: nat)
    requires n * DAY < S32
    ensures ValidDate(DateAt(n)) && DateAt(n).year <= 2038 && FromDate(DateAt(n)) == n * DAY
  {
    if n > 0 {
      DateAtSeconds(n - 1);
      NextDaySeconds(DateAt(n - 1));
      YearBound(DateAt(n));
    }
  }

  function PreviousDay(d: Date): Date {
    if d.day > 1 then d.(day := d.day - 1)
    else if d.month > 1 then Date(d.year, d.month - 1, MonthLength(d.year, d.month - 1))
    else if d.year > 0 then Date(d.year - 1, 12, 31)
    else d
  }

  /** Every valid date is reached, at the day number from_ps2time gives it. */
  lemma {:induction false} DateReached(d: Date) returns (n: nat)
    requires ValidDate(d) && d.year <= 2038
    ensures DateAt(n) == d && FromDate(d) == n * DAY
    decreases d.year, d.month, d.day
  {
    if d == Date(1970, 1, 1) {
      n := 0;
    } else {
      var p := PreviousDay(d);
      assert ValidDate(p) && NextDay(p) == d;
      var k := DateReached(p);
      NextDaySeconds(p);
      n := k + 1;
    }
  }

  /** For every valid date up to the 32-bit limit, from_ps2time is the Gregorian second count. */
  lemma FromTimeIsGregorian(t: DateTime) returns (n: nat)
    requires ValidTime(t) && FromTime(t) < S32
    ensures DateAt(n) == t.date && FromTime(t) == n * DAY + t.hour * 3600 + t.min * 60 + t.sec
  {
    YearBound(t.date);
    n := DateReached(t.date);
  }

  method FromPs2Time(t: DateTime) returns (r: int)
    requires ValidTime(t) && FromTime(t) < S32
    ensures r == FromTime(t) && 0 <= r < S32
  {
    var s := 0;
    var i := 1970;
    while i < t.date.year
      invariant 1970 <= i <= t.date.year && s == YearLoop(i) && 0 <= s
    {
      s := s + 365 * DAY;
      if i % 4 == 0 && (s % 100 != 0 || s % 400 == 0) {
        s := s + DAY;
      }
      i := i + 1;
    }
    s := s + MDAYS[t.date.month - 1] * DAY;
    if t.date.month > 2 && Leap(t.date.year) {
      s := s + DAY;
    }
    r := s + (t.date.day - 1) * DAY + t.hour * 3600 + t.min * 60 + t.sec;
  }

  // ---------------------------------------------------------------- to_ps2time

  function YearSeconds(year: nat): nat {
    (if Leap(year) then 366 else 365) * DAY
  }

  /** The year in which `time`, counted from the start of `year`, falls, and the rest. */
  function YearOf(time: nat, year: nat): (r: (nat, nat))
    ensures r.1 < YearSeconds(r.0)
    decreases time
  {
    if time < YearSeconds(year) then (year, time) else YearOf(time - YearSeconds(year), year + 1)
  }

  /** The first month, from `i` on, whose successor starts later, by the common-year table. */
  function MonthOf(time: nat, i: nat): (m: nat)
    requires 1 <= i <= 12
    ensures i <= m <= 12
    ensures m < 12 ==> time < MDAYS[m] * DAY
    ensures i < m ==> time >= MDAYS[m - 1] * DAY
    decreases 12 - i
  {
    if i == 12 || time < MDAYS[i] * DAY then i else MonthOf(time, i + 1)
  }

  /** The stamp for `s` seconds into a month. */
  function Stamp(year: nat, month: nat, s: nat): DateTime {
    DateTime(Date(year, month, s / DAY + 1), s % DAY / 3600, s % 3600 / 60, s % 60)
  }

  function ToTime(time: nat): DateTime {
    var (year, rest) := YearOf(time, 1970);
    var m := MonthOf(rest, 1);
    Stamp(year, m, rest - MDAYS[m - 1] * DAY)
  }

  /** Division and remainder of C, which truncate. */
  function Quot(a: int, d: nat): int
    requires d > 0
  {
    if a >= 0 then a / d else -((-a) / d)
  }

  function Rem(a: int, d: nat): int
    requires d > 0
  {
    if a >= 0 then a % d else -((-a) % d)
  }

  /** A value stored in an 8-bit field. */
  function Field(x: int): (f: nat)
    ensures f < 256 && (x - f) % 256 == 0
  {
    x % 0x100
  }

  /** The fields as the source computes and stores them. */
  function StoredStamp(year: nat, month: nat, s: int): DateTime {
    DateTime(Date(year, month, Field(Quot(s, DAY) + 1)), Field(Quot(Rem(s, DAY), 3600)),
             Field(Quot(Rem(s, 3600), 60)), Field(Rem(s, 60)))
  }

  /** The stamp for a time before 1970: the year loop stops at once, and so does the month loop. */
  function Before(time: int): DateTime {
    StoredStamp(1970, 1, time)
  }

  function ToStamp(time: int): DateTime {
    if time >= 0 then ToTime(time) else Before(time)
  }

  /** The first loop of to_ps2time. */
  method FindYear(time: int) returns (year: nat, rest: int)
    ensures time >= 0 ==> rest >= 0 && (year, rest) == YearOf(time, 1970)
    ensures time < 0 ==> year == 1970 && rest == time
  {
    var left := time;
    year := 1970;
    var length := YearSeconds(year);
    left := left - length;
    while left >= 0
      invariant length == YearSeconds(year)
      invariant time >= 0 ==> left + length >= 0 && YearOf(left + length, year) == YearOf(time, 1970)
      invariant time < 0 ==> year == 1970 && left + length == time
      decreases left
    {
      year := year + 1;
      length := YearSeconds(year);
      left := left - length;
    }
    rest := left + length;
  }

  /** The second loop of to_ps2time. */
  method FindMonth(rest: int) returns (i: nat)
    ensures 1 <= i <= 12
    ensures rest >= 0 ==> i == MonthOf(rest, 1)
    ensures rest < 0 ==> i == 1
  {
    i := 1;
    while i < 12
      invariant 1 <= i <= 12 && (rest < 0 ==> i == 1)
      invariant rest >= 0 ==> MonthOf(rest, i) == MonthOf(rest, 1)
    {
      if rest < MDAYS[i] * DAY {
        break;
      }
      i := i + 1;
    }
  }

  /** Times from 1970 on fill no field beyond its range. */
  lemma StoredExact(year: nat, month: nat, s: nat)
    requires s < 32 * DAY
    ensures StoredStamp(year, month, s) == Stamp(year, month, s)
  {
    FieldExact(s / DAY + 1);
    assert s % DAY / 3600 < 24 && s % 3600 / 60 < 60;
    FieldExact(s % DAY / 3600);
    FieldExact(s % 3600 / 60);
    FieldExact(s % 60);
  }

  lemma FieldExact(x: nat)
    requires x < 0x100
    ensures Field(x) == x
  {
  }

  lemma MonthRest(rest: nat, year: nat)
    requires rest < YearSeconds(year)
    ensures var m := MonthOf(rest, 1); 0 <= rest - MDAYS[m - 1] * DAY < 32 * DAY
  {
    var m := MonthOf(rest, 1);
    if m < 12 { assert MDAYS[m] <= MDAYS[m - 1] + 31; }
  }

  lemma StoredAfter(time: nat, year: nat, rest: nat, m: nat, s: nat)
    requires (year, rest) == YearOf(time, 1970) && m == MonthOf(rest, 1) && s == rest - MDAYS[m - 1] * DAY
    ensures StoredStamp(year, m, s) == ToTime(time)
  {
    assert rest < YearSeconds(year);
    MonthRest(rest, year);
    StoredExact(year, m, s);
    assert ToTime(time) == Stamp(year, m, s);
  }

  /** The parts found by the two loops make up the stamp. */
  lemma StampMatches(time: int, year: nat, rest: int, m: nat)
    requires time >= 0 ==> rest >= 0 && (year, rest) == YearOf(time, 1970) && m == MonthOf(rest, 1)
    requires time < 0 ==> year == 1970 && rest == time && m == 1
    requires 1 <= m <= 12
    ensures StoredStamp(year, m, rest - MDAYS[m - 1] * DAY) == ToStamp(time)
  {
    if time >= 0 {
      MonthRest(rest, year);
      StoredAfter(time, year, rest, m, rest - MDAYS[m - 1] * DAY);
    }
  }

  method ToPs2Time(time: int) returns (t: DateTime)
    ensures t == ToStamp(time)
  {
    var year, rest := FindYear(time);
    var i := FindMonth(rest);
    StampMatches(time, year, rest, i);
    t := StoredStamp(year, i, rest - MDAYS[i - 1] * DAY);
  }

  const DAY_BEFORE: int := -86400

  lemma StoredSeconds(s: int)
    ensures var t := StoredStamp(1970, 1, s);
            FromTime(t) == (t.date.day - 1) * DAY + t.hour * 3600 + t.min * 60 + t.sec
  {
  }

  /** Less than a day before 1970 the day is stored as 1. */
  lemma DayStored(time: int)
    requires DAY_BEFORE < time < 0
    ensures Field(Quot(time, DAY) + 1) == 1
  {
    assert (-time) / DAY == 0;
  }

  lemma DayBefore()
    ensures FromTime(StoredStamp(1970, 1, DAY_BEFORE)) == DAY_BEFORE
  {
    StoredSeconds(DAY_BEFORE);
    assert Quot(DAY_BEFORE, DAY) == -1 && Rem(DAY_BEFORE, DAY) == 0 && Rem(DAY_BEFORE, 3600) == 0 && Rem(DAY_BEFORE, 60) == 0;
  }

  /** Before 1970 only one second converts back to itself. */
  lemma BeforeEpoch(time: int)
    requires time < 0
    ensures FromTime(ToStamp(time)) == time <==> time == DAY_BEFORE
  {
    StoredSeconds(time);
    if time == DAY_BEFORE {
      DayBefore();
    } else if time > DAY_BEFORE {
      DayStored(time);
    }
  }

  // --------------------------------------------------------------- round trip

  /** 29 February to the end of a leap year. */
  predicate LateInLeapYear(time: nat) {
    var (year, rest) := YearOf(time, 1970);
    Leap(year) && rest >= 59 * DAY
  }

  lemma {:induction false} YearOfSum(time: nat, year: nat)
    requires 1970 <= year <= 2039 && YearLoop(year) + time < S32
    ensures var (y, rest) := YearOf(time, year);
            year <= y <= 2038 && rest < YearSeconds(y) && YearLoop(y) + rest == YearLoop(year) + time
    decreases time
  {
    YearLoopGrows(year);
    if time >= YearSeconds(year) {
      YearLength(year);
      YearLoopGrows(year + 1);
      YearOfSum(time - YearSeconds(year), year + 1);
    }
  }

  lemma ModHour(k: nat, x: nat)
    ensures (3600 * k + x) % 3600 == x % 3600
  {
  }

  lemma ModMinute(k: nat, x: nat)
    ensures (60 * k + x) % 60 == x % 60
  {
  }

  lemma SameClock(s: nat, q: nat, x: nat)
    requires s == DAY * q + x
    ensures s % 3600 == x % 3600 && s % 60 == x % 60
  {
    assert s == 3600 * (24 * q) + x && s == 60 * (1440 * q) + x;
    ModHour(24 * q, x);
    ModMinute(1440 * q, x);
  }

  lemma HourClock(x: nat)
    ensures x / 3600 * 3600 + x % 3600 / 60 * 60 + x % 60 == x
  {
    var h, y := x / 3600, x % 3600;
    assert x == 3600 * h + y && x == 60 * (60 * h) + y;
    ModMinute(60 * h, y);
  }

  lemma Clock(s: nat)
    ensures s / DAY * DAY + s % DAY / 3600 * 3600 + s % 3600 / 60 * 60 + s % 60 == s
  {
    var q, x := s / DAY, s % DAY;
    assert s == DAY * q + x;
    SameClock(s, q, x);
    HourClock(x);
  }

  lemma StampSeconds(year: nat, m: nat, s: nat)
    requires 1 <= m <= 12
    ensures FromTime(Stamp(year, m, s)) == YearLoop(year) + MDAYS[m - 1] * DAY + (if m > 2 && Leap(year) then DAY else 0) + s
  {
    Clock(s);
  }

  lemma ToTimeParts(time: nat) returns (year: nat, rest: nat, m: nat, s: nat)
    ensures (year, rest) == YearOf(time, 1970) && 1 <= m <= 12 && m == MonthOf(rest, 1)
    ensures s == rest - MDAYS[m - 1] * DAY && ToTime(time) == Stamp(year, m, s)
  {
    year, rest := YearOf(time, 1970).0, YearOf(time, 1970).1;
    m := MonthOf(rest, 1);
    s := rest - MDAYS[m - 1] * DAY;
  }

  /** Converting back gives the same second, except late in a leap year, where it is a day later. */
  lemma RoundTrip(time: nat)
    requires time < S32
    ensures FromTime(ToTime(time)) == time + if LateInLeapYear(time) then DAY else 0
  {
    var year, rest, m, s := ToTimeParts(time);
    YearOfSum(time, 1970);
    LateMonths(rest);
    StampSeconds(year, m, s);
    assert YearLoop(1970) == 0;
  }

  /** From day 59 on, the table gives March or later. */
  lemma LateMonths(rest: nat)
    ensures rest >= 59 * DAY <==> MonthOf(rest, 1) > 2
  {
  }

  /** A day number is determined by the seconds up to it. */
  lemma DayNumber(n: nat, time: nat, h: nat, m: nat, s: nat)
    requires time == n * DAY + h * 3600 + m * 60 + s && h < 24 && m < 60 && s < 60
    ensures time / DAY == n
  {
    assert h * 3600 + m * 60 + s < DAY;
  }

  lemma ToTimeRight(time: nat)
    requires time < S32 && !LateInLeapYear(time)
    ensures ToTime(time).date == DateAt(time / DAY)
  {
    var t := ToTime(time);
    RoundTrip(time);
    ToTimeValid(time);
    var n := FromTimeIsGregorian(t);
    DayNumber(n, time, t.hour, t.min, t.sec);
  }

  lemma ToTimeLate(time: nat)
    requires time < S32 && LateInLeapYear(time)
    ensures ToTime(time).date != DateAt(time / DAY)
  {
    var year, rest, m, s := ToTimeParts(time);
    RoundTrip(time);
    Clock(s);
    DateAtSeconds(time / DAY);
    assert FromTime(ToTime(time)) < FromDate(ToTime(time).date) + DAY;
  }

  /** to_ps2time finds the Gregorian date exactly when the time is not late in a leap year. */
  lemma ToTimeExact(time: nat)
    requires time < S32
    ensures ToTime(time).date == DateAt(time / DAY) <==> !LateInLeapYear(time)
  {
    if LateInLeapYear(time) {
      ToTimeLate(time);
    } else {
      ToTimeRight(time);
    }
  }

  lemma StampValid(year: nat, m: nat, s: nat)
    requires year >= 1970 && 1 <= m <= 12 && s < MonthLength(year, m) * DAY
    ensures ValidTime(Stamp(year, m, s))
  {
    var n := MonthLength(year, m);
    assert s / DAY < n;
    assert s % DAY / 3600 < 24 && s % 3600 / 60 < 60;
  }

  lemma MonthSpan(rest: nat, year: nat)
    requires rest < YearSeconds(year) && !(Leap(year) && rest >= 59 * DAY)
    ensures var m := MonthOf(rest, 1); MDAYS[m - 1] * DAY <= rest < (MDAYS[m - 1] + MonthLength(year, m)) * DAY
  {
    LateMonths(rest);
  }

  lemma ToTimeValid(time: nat)
    requires time < S32 && !LateInLeapYear(time)
    ensures ValidTime(ToTime(time))
  {
    YearOfSum(time, 1970);
    var (year, rest) := YearOf(time, 1970);
    MonthSpan(rest, year);
    var m := MonthOf(rest, 1);
    StampValid(year, m, rest - MDAYS[m - 1] * DAY);
  }

  /** The first second of 29 February 1972 is stamped 1 March. */
  lemma LeapDayIsMissed()
    ensures ToTime(789 * DAY).date == Date(1972, 3, 1) && DateAt(789) == Date(1972, 2, 29)
  {
    YearLength(1970);
    YearLength(1971);
    var n := DateReached(Date(1972, 2, 29));
    assert YearOf(59 * DAY, 1972) == (1972, 59 * DAY);
    assert YearOf(424 * DAY, 1971) == (1972, 59 * DAY);
    assert YearOf(789 * DAY, 1970) == (1972, 59 * DAY);
    LateMonths(59 * DAY);
    assert MonthOf(59 * DAY, 3) == 3;
    assert MonthOf(59 * DAY, 2) == 3;
  }
}
