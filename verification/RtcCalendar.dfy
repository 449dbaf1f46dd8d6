/** Conversion between Unix time and calendar dates in the real-time clock driver. */
module RtcCalendar {
  import opened Bits

  datatype Date = Date(year: int, month: int, day: int)

  /** The time fields of a clock reading; the driver leaves the weekday at zero. */
  datatype Time = Time(date: Date, hour: int, min: int, sec: int)

  function U32(x: int): u32 { x % 0x1_0000_0000 }

  // ----- the Gregorian calendar, day by day

  predicate Leap(y: int) { y % 4 == 0 && (y % 100 != 0 || y % 400 == 0) }

  function MonthLength(y: int, m: int): int {
    if m == 2 then (if Leap(y) then 29 else 28)
    else if m == 4 || m == 6 || m == 9 || m == 11 then 30 else 31
  }

  predicate ValidDate(d: Date) {
    0 < d.year < 0x1_0000 && 1 <= d.month <= 12 && 1 <= d.day <= MonthLength(d.year, d.month)
  }

  predicate ValidTime(t: Time) {
    ValidDate(t.date) && 0 <= t.hour < 24 && 0 <= t.min < 60 && 0 <= t.sec < 60
  }

  function NextDay(d: Date): Date {
    if d.day < MonthLength(d.year, d.month) then Date(d.year, d.month, d.day + 1)
    else if d.month < 12 then Date(d.year, d.month + 1, 1)
    else Date(d.year + 1, 1, 1)
  }

  /** The date n days after 1 January 1970. */
  function CivilDay(n: nat): Date {
    if n == 0 then Date(1970, 1, 1) else NextDay(CivilDay(n - 1))
  }

  predicate Before(a: Date, b: Date) {
    a.year < b.year || (a.year == b.year && (a.month < b.month || (a.month == b.month && a.day < b.day)))
  }

  function SecondOfDay(t: Time): int { 3600 * t.hour + 60 * t.min + t.sec }

  predicate Earlier(a: Time, b: Time) {
    Before(a.date, b.date) || (a.date == b.date && SecondOfDay(a) < SecondOfDay(b))
  }

  // ----- max77620_rtc_date_to_epoch

  function DaysToEpoch(d: Date): int {
    var year, month := if d.month < 3 then d.year - 1 else d.year, if d.month < 3 then d.month + 12 else d.month;
    365 * year + year / 4 - year / 100 + year / 400 + 30 * month + 3 * (month + 1) / 5 + d.day - 719561
  }

  /** The day count as the driver computes it, in 32-bit arithmetic. */
  function DaysWrapped(d: Date): u32 {
    var year, month := U32(if d.month < 3 then d.year - 1 else d.year), if d.month < 3 then d.month + 12 else d.month;
    var epoch := U32(365 * year + year / 4 - year / 100 + year / 400);
    var epoch := U32(epoch + (30 * month + 3 * (month + 1) / 5 + d.day));
    U32(epoch - 719561)
  }

  function Seconds(days: u32, second: int): u32 {
    U32(U32(days * 86400) + second)
  }

  function DateToEpoch(t: Time): u32 {
    Seconds(DaysWrapped(t.date), 3600 * t.hour + 60 * t.min + t.sec)
  }

  // ----- max77620_rtc_epoch_to_date

  function DaysToDate(days: nat): Date {
    var tmp := U32((4 * days + 102032) / 146097 + 15);
    var tmp := U32(days + 2442113 + tmp - tmp / 4);
    var year := U32(U32(20 * tmp) - 2442) / 7305;
    var edays := U32(tmp - 365 * year - year / 4);
    var month := U32(edays * 1000) / 30601;
    var day := U32(edays - month * 30 - U32(month * 601) / 1000);
    if month < 14 then Date(U32(year - 4716) % 0x1_0000, U32(month - 1) % 0x100, day % 0x100)
    else Date(U32(year - 4715) % 0x1_0000, U32(month - 13) % 0x100, day % 0x100)
  }

  function EpochToDate(epoch: u32): Time {
    Time(DaysToDate(epoch / 60 / 60 / 24), epoch / 60 / 60 % 24, epoch / 60 % 60, epoch % 60)
  }

  /** The structure that the driver fills in through a pointer. */
  class RtcTime {
    var weekday: u8
    var sec: u8
    var min: u8
    var hour: u8
    var day: u8
    var month: u8
    var year: u16

    function Value(): Time
      reads this
    {
      Time(Date(year, month, day), hour, min, sec)
    }

    method SetFromEpoch(epoch0: u32)
      modifies this
      ensures Value() == EpochToDate(epoch0) && weekday == 0
    {
      var epoch := epoch0;
      sec := epoch % 60;
      epoch := epoch / 60;
      min := epoch % 60;
      epoch := epoch / 60;
      hour := epoch % 24;
      epoch := epoch / 24;
      SetDate(epoch);
    }

    /** The second half: the remaining quotient is the number of days. */
    method SetDate(epoch: u32)
      modifies `year, `month, `day, `weekday
      ensures Date(year, month, day) == DaysToDate(epoch) && weekday == 0
    {
      var tmp: u32 := U32((4 * epoch + 102032) / 146097 + 15);
      tmp := U32(epoch + 2442113 + tmp - tmp / 4);
      var y: u32 := U32(U32(20 * tmp) - 2442) / 7305;
      var edays := U32(tmp - 365 * y - y / 4);
      var m: u32 := U32(edays * 1000) / 30601;
      var d := U32(edays - m * 30 - U32(m * 601) / 1000);
      if m < 14 {
        y, m := U32(y - 4716), U32(m - 1);
      } else {
        y, m := U32(y - 4715), U32(m - 13);
      }
      year, month, day, weekday := y % 0x1_0000, m % 0x100, d % 0x100, 0;
    }
  }

  // ----- one day later in the calendar is one day later in the count

  function LeapDaysUpTo(y: int): int { y / 4 - y / 100 + y / 400 }

  lemma FourthYears(y: int)
    ensures y / 4 == (y - 1) / 4 + if y % 4 == 0 then 1 else 0
  {
  }

  lemma Centuries(y: int)
    ensures y / 100 == (y - 1) / 100 + if y % 100 == 0 then 1 else 0
    ensures y % 100 == 0 ==> y % 4 == 0
  {
  }

  lemma FourCenturies(y: int)
    ensures y / 400 == (y - 1) / 400 + if y % 400 == 0 then 1 else 0
    ensures y % 400 == 0 ==> y % 100 == 0
  {
  }

  lemma LeapDays(y: int)
    ensures LeapDaysUpTo(y) == LeapDaysUpTo(y - 1) + if Leap(y) then 1 else 0
  {
    FourthYears(y);
    Centuries(y);
    FourCenturies(y);
  }

  /** The count of days with the leap days kept apart. */
  function CountIn(year: int, month: int, day: int): int {
    365 * year + LeapDaysUpTo(year) + 30 * month + 3 * (month + 1) / 5 + day - 719561
  }

  lemma CountParts(d: Date)
    ensures DaysToEpoch(d) ==
            if d.month < 3 then CountIn(d.year - 1, d.month + 12, d.day)
            else CountIn(d.year, d.month, d.day)
  {
  }

  /** The formula for the days before a month, counted as the driver counts it. */
  lemma MonthDays(m: int)
    requires 1 <= m <= 12 && m != 2
    ensures var k := if m < 3 then m + 12 else m;
            30 * (k + 1) + 3 * (k + 2) / 5 == 30 * k + 3 * (k + 1) / 5 + MonthLength(2001, m)
  {
  }

  lemma SameMonth(d: Date)
    requires ValidDate(d) && d.day < MonthLength(d.year, d.month)
    ensures DaysToEpoch(NextDay(d)) == DaysToEpoch(d) + 1
  {
    CountParts(d);
    CountParts(NextDay(d));
  }

  lemma EndOfFebruary(d: Date)
    requires ValidDate(d) && d.month == 2 && d.day == MonthLength(d.year, d.month)
    ensures DaysToEpoch(NextDay(d)) == DaysToEpoch(d) + 1
  {
    CountParts(d);
    CountParts(NextDay(d));
    LeapDays(d.year);
  }

  lemma EndOfMonth(d: Date)
    requires ValidDate(d) && d.month != 2 && d.day == MonthLength(d.year, d.month)
    ensures DaysToEpoch(NextDay(d)) == DaysToEpoch(d) + 1
  {
    CountParts(d);
    CountParts(NextDay(d));
    MonthDays(d.month);
  }

  lemma NextDayCounts(d: Date)
    requires ValidDate(d)
    ensures DaysToEpoch(NextDay(d)) == DaysToEpoch(d) + 1
  {
    if d.day < MonthLength(d.year, d.month) {
      SameMonth(d);
    } else if d.month == 2 {
      EndOfFebruary(d);
    } else {
      EndOfMonth(d);
    }
  }

  const FIRST := Date(1970, 1, 1)
  const LAST := Date(2106, 2, 7)

  predicate InRange(d: Date) {
    ValidDate(d) && !Before(d, FIRST) && !Before(LAST, d)
  }

  // ----- the two formulas are inverse: dates as months of years that start in March

  /** The days that the formula 601 * m / 1000 adds to thirty for each month m, counted from March as 4. */
  function Offset(m: int): int { m * 601 / 1000 }

  /** A date with month m of the shifted year y; m is 4 for March and 15 for February. */
  predicate Shifted(d: Date, y: int, m: int) {
    if d.month < 3 then y == d.year + 4715 && m == d.month + 13 else y == d.year + 4716 && m == d.month + 1
  }

  lemma MonthFromDays(m: int, day: int)
    requires 4 <= m <= 15 && 1 <= day <= MonthLength(2000, if m < 14 then m - 1 else m - 13)
    ensures (30 * m + Offset(m) + day) * 1000 / 30601 == m
  {
  }

  lemma YearFromDays(y: int, e: int)
    requires 6000 <= y < 7000 && 123 <= e <= if (y + 1) % 4 == 0 then 488 else 487
    ensures (20 * (365 * y + y / 4 + e) - 2442) / 7305 == y
  {
    var q, r := y / 4, y % 4;
    assert 20 * (365 * y + q + e) - 2442 == 7305 * y + (20 * e - 2442 - 5 * r);
  }

  /** The day count of the inverse formula, with the century correction folded in. */
  function Shift(days: nat): int { days + if days <= 47540 then 2442125 else 2442126 }

  lemma Century(days: nat)
    requires days <= 49710
    ensures var tmp := (4 * days + 102032) / 146097 + 15; days + 2442113 + tmp - tmp / 4 == Shift(days)
  {
    var c := (4 * days + 102032) / 146097;
    assert c == if days <= 11016 then 0 else if days <= 47540 then 1 else 2;
  }

  lemma MonthTable(m: int)
    requires 4 <= m <= 15
    ensures Offset(m) == 3 * m / 5 == [2, 3, 3, 4, 4, 5, 6, 6, 7, 7, 8, 9][m - 4]
  {
  }

  lemma RangeBounds(d: Date)
    requires InRange(d)
    ensures 1970 <= d.year <= 2106
    ensures LeapDaysUpTo(d.year) == d.year / 4 - if d.year >= 2100 then 16 else 15
    ensures LeapDaysUpTo(d.year - 1) == (d.year - 1) / 4 - if d.year >= 2101 then 16 else 15
  {
  }

  lemma ShiftYears(y: int)
    ensures (y + 4716) / 4 == y / 4 + 1179
  {
  }

  lemma CountOf(d: Date, y: int, m: int)
    requires InRange(d) && Shifted(d, y, m)
    ensures DaysToEpoch(d) == 365 * y + y / 4 + 30 * m + Offset(m) + d.day
              - if d.year > 2100 || (d.year == 2100 && d.month >= 3) then 2442126 else 2442125
  {
    RangeBounds(d);
    CountParts(d);
    MonthTable(m);
    ShiftYears(y - 4716);
  }

  lemma ShiftedCount(d: Date, y: int, m: int)
    requires InRange(d) && Shifted(d, y, m)
    ensures 0 <= DaysToEpoch(d) <= 49710
    ensures Shift(DaysToEpoch(d)) == 365 * y + y / 4 + 30 * m + Offset(m) + d.day
  {
    CountOf(d, y, m);
    MonthTable(m);
  }

  lemma ShiftedSize(d: Date, y: int, m: int, e: int)
    requires InRange(d) && Shifted(d, y, m) && e == 30 * m + Offset(m) + d.day
    ensures 6685 <= y <= 6822 && 123 <= e <= if (y + 1) % 4 == 0 then 488 else 487
    ensures d.day <= MonthLength(2000, d.month)
  {
    MonthTable(m);
  }

  lemma NoWrap(x: int)
    requires 0 <= x < 0x1_0000_0000
    ensures U32(x) == x
  {
  }

  /** The second half of the inverse formula, from the shifted day count on. */
  function FromShift(tmp: u32): Date {
    var year := U32(U32(20 * tmp) - 2442) / 7305;
    var edays := U32(tmp - 365 * year - year / 4);
    FromYear(year, edays)
  }

  function FromYear(year: nat, edays: u32): Date {
    var month := U32(edays * 1000) / 30601;
    var day := U32(edays - month * 30 - U32(month * 601) / 1000);
    if month < 14 then Date(U32(year - 4716) % 0x1_0000, U32(month - 1) % 0x100, day % 0x100)
    else Date(U32(year - 4715) % 0x1_0000, U32(month - 13) % 0x100, day % 0x100)
  }

  lemma FirstHalf(days: nat)
    requires days <= 49710
    ensures 2442125 <= Shift(days) < 2492000 && DaysToDate(days) == FromShift(Shift(days))
  {
    Century(days);
    var q := (4 * days + 102032) / 146097;
    assert 0 <= q <= 2;
    NoWrap(q + 15);
    NoWrap(Shift(days));
  }

  lemma SecondHalf(tmp: u32, y: int, e: int)
    requires tmp < 2492000 && tmp == 365 * y + y / 4 + e
    requires 6685 <= y <= 6822 && 123 <= e <= if (y + 1) % 4 == 0 then 488 else 487
    ensures FromShift(tmp) == FromYear(y, e)
  {
    YearFromDays(y, e);
    NoWrap(20 * tmp);
    NoWrap(20 * tmp - 2442);
    NoWrap(e);
  }

  lemma LastPart(y: int, m: int, e: int)
    requires 6685 <= y <= 6822 && 123 <= e <= 488 && 4 <= m <= 15 && 1 <= e - 30 * m - Offset(m) <= 31
    requires e * 1000 / 30601 == m
    ensures FromYear(y, e) ==
            Date(if m < 14 then y - 4716 else y - 4715, if m < 14 then m - 1 else m - 13, e - 30 * m - Offset(m))
  {
    NoWrap(e * 1000);
    NoWrap(m * 601);
    NoWrap(e - 30 * m - Offset(m));
    NoWrap(if m < 14 then y - 4716 else y - 4715);
    NoWrap(if m < 14 then m - 1 else m - 13);
  }

  /** The inverse formula undoes the count on every date in range. */
  lemma CountUndone(d: Date)
    requires InRange(d)
    ensures 0 <= DaysToEpoch(d) <= 49710 && DaysToDate(DaysToEpoch(d)) == d
  {
    var y, m := if d.month < 3 then d.year + 4715 else d.year + 4716, if d.month < 3 then d.month + 13 else d.month + 1;
    var e := 30 * m + Offset(m) + d.day;
    ShiftedCount(d, y, m);
    ShiftedSize(d, y, m, e);
    MonthFromDays(m, d.day);
    FirstHalf(DaysToEpoch(d));
    SecondHalf(Shift(DaysToEpoch(d)), y, e);
    LastPart(y, m, e);
  }

  /** The last second that 32 bits can count: 7 February 2106, 06:28:15. */
  const LAST_TIME := Time(LAST, 6, 28, 15)

  lemma LastCounts()
    ensures DaysToEpoch(FIRST) == 0 && DaysToEpoch(LAST) == 49710
    ensures 86400 * 49710 + SecondOfDay(LAST_TIME) == 0xffff_ffff
  {
  }

  lemma NextInRange(d: Date)
    requires InRange(d) && d != LAST
    ensures InRange(NextDay(d)) && Before(d, NextDay(d))
  {
  }

  lemma {:induction false} CivilDayCount(n: nat)
    requires n <= 49710
    ensures InRange(CivilDay(n)) && DaysToEpoch(CivilDay(n)) == n
  {
    LastCounts();
    if n != 0 {
      CivilDayCount(n - 1);
      NextDayCounts(CivilDay(n - 1));
      NextInRange(CivilDay(n - 1));
    }
  }

  /** The date of every day number is the date reached by counting days in the Gregorian calendar. */
  lemma DateOfDay(n: nat)
    requires n <= 49710
    ensures DaysToDate(n) == CivilDay(n)
  {
    CivilDayCount(n);
    CountUndone(CivilDay(n));
  }

  // ----- the two conversions

  lemma SplitEpoch(e: u32, m: nat, h: nat, n: nat)
    requires m == e / 60 && h == m / 60 && n == h / 24
    ensures n <= 49710 && e % 86400 == 3600 * (h % 24) + 60 * (m % 60) + e % 60 && e / 86400 == n
  {
    assert e == 86400 * n + (3600 * (h % 24) + 60 * (m % 60) + e % 60);
  }

  /** Every 32-bit epoch gives a valid time, on the Gregorian date that many days after 1 January 1970. */
  lemma EpochToDateValid(e: u32)
    ensures ValidTime(EpochToDate(e)) && InRange(EpochToDate(e).date)
    ensures e / 86400 <= 49710 && EpochToDate(e).date == CivilDay(e / 86400)
    ensures SecondOfDay(EpochToDate(e)) == e % 86400
  {
    SplitEpoch(e, e / 60, e / 60 / 60, e / 60 / 60 / 24);
    DateOfDay(e / 86400);
    CivilDayCount(e / 86400);
  }

  lemma YearBounds(year: int, y: int)
    requires 1969 <= year < 0x1_0000 && y == 365 * year + year / 4 - year / 100 + year / 400
    ensures 719162 <= y < 24_000_000 && (1970 <= year ==> 719527 <= y)
  {
  }

  lemma DaysExact(d: Date)
    requires ValidDate(d) && d.year >= 1970
    ensures 0 <= DaysToEpoch(d) && DaysWrapped(d) == DaysToEpoch(d)
  {
    var year, month := if d.month < 3 then d.year - 1 else d.year, if d.month < 3 then d.month + 12 else d.month;
    var y := 365 * year + year / 4 - year / 100 + year / 400;
    YearBounds(year, y);
    var m := 30 * month + 3 * (month + 1) / 5 + d.day;
    assert 0 <= m < 1000 && (if year < 1970 then 399 <= m else 90 <= m);
    NoWrap(year);
    NoWrap(y);
    NoWrap(y + m);
    NoWrap(y + m - 719561);
  }

  lemma SecondsExact(days: u32, second: nat)
    ensures Seconds(days, second) == U32(86400 * days + second)
  {
  }

  /** On dates from 1970 on, the driver computes the true second count modulo 2^32. */
  lemma DateToEpochExact(t: Time)
    requires ValidTime(t) && t.date.year >= 1970
    ensures DaysToEpoch(t.date) >= 0
    ensures DateToEpoch(t) == U32(86400 * DaysToEpoch(t.date) + SecondOfDay(t))
  {
    DaysExact(t.date);
    SecondsExact(DaysWrapped(t.date), SecondOfDay(t));
  }

  lemma EpochRoundTrip(e: u32)
    ensures DateToEpoch(EpochToDate(e)) == e
  {
    EpochToDateValid(e);
    CivilDayCount(e / 86400);
    DateToEpochExact(EpochToDate(e));
    NoWrap(e);
  }

  // ----- which dates survive the way back

  lemma TimeUndone(t: Time, e: u32)
    requires ValidTime(t) && InRange(t.date) && e == 86400 * DaysToEpoch(t.date) + SecondOfDay(t)
    ensures EpochToDate(e) == t
  {
    CountUndone(t.date);
    var n, s := DaysToEpoch(t.date), SecondOfDay(t);
    Clock(n, t.hour, t.min, t.sec, e);
  }

  lemma Clock(n: nat, hour: nat, min: nat, sec: nat, e: nat)
    requires hour < 24 && min < 60 && sec < 60 && e == 86400 * n + (3600 * hour + 60 * min + sec)
    ensures e % 60 == sec && e / 60 % 60 == min && e / 60 / 60 % 24 == hour && e / 60 / 60 / 24 == n
  {
    assert e / 60 == 1440 * n + 60 * hour + min;
    assert e / 60 / 60 == 24 * n + hour;
  }

  lemma {:induction false} CivilOrder(i: nat, j: nat)
    requires i < j <= 49710
    ensures Before(CivilDay(i), CivilDay(j))
  {
    CivilDayCount(j - 1);
    LastCounts();
    NextInRange(CivilDay(j - 1));
    if i < j - 1 {
      CivilOrder(i, j - 1);
      BeforeTrans(CivilDay(i), CivilDay(j - 1), CivilDay(j));
    }
  }

  lemma BeforeTrans(a: Date, b: Date, c: Date)
    requires Before(a, b) && Before(b, c)
    ensures Before(a, c)
  {
  }

  /** The order of epochs is the order of times. */
  lemma EpochOrder(e: u32, f: u32)
    ensures e < f <==> Earlier(EpochToDate(e), EpochToDate(f))
  {
    EpochToDateValid(e);
    EpochToDateValid(f);
    var i, j := e / 86400, f / 86400;
    if i < j {
      CivilOrder(i, j);
    } else if j < i {
      CivilOrder(j, i);
    }
  }

  lemma DayOrder(m: nat, n: nat)
    requires m <= 49710 && n <= 49710
    ensures Before(CivilDay(m), CivilDay(n)) <==> m < n
  {
    if m < n {
      CivilOrder(m, n);
    } else if n < m {
      CivilOrder(n, m);
    }
  }

  lemma CountOrder(a: Date, b: Date)
    requires InRange(a) && InRange(b)
    ensures Before(a, b) <==> DaysToEpoch(a) < DaysToEpoch(b)
  {
    CountUndone(a);
    CountUndone(b);
    DateOfDay(DaysToEpoch(a));
    DateOfDay(DaysToEpoch(b));
    DayOrder(DaysToEpoch(a), DaysToEpoch(b));
  }

  /** A valid time survives the way to an epoch and back exactly when it lies between 1970 and the last second. */
  lemma DateRoundTrip(t: Time)
    requires ValidTime(t)
    ensures EpochToDate(DateToEpoch(t)) == t <==> t.date.year >= 1970 && !Earlier(LAST_TIME, t)
  {
    var e := DateToEpoch(t);
    EpochToDateValid(e);
    LastCounts();
    if EpochToDate(e) == t {
      EpochRoundTrip(0xffff_ffff);
      TimeUndone(LAST_TIME, 0xffff_ffff);
      EpochOrder(0xffff_ffff, e);
    } else if t.date.year >= 1970 && !Earlier(LAST_TIME, t) {
      DateToEpochExact(t);
      CountOrder(t.date, LAST);
      CountUndone(t.date);
      NoWrap(86400 * DaysToEpoch(t.date) + SecondOfDay(t));
      TimeUndone(t, e);
    }
  }

  // ----- fixed points

  /** Four hundred years are 146097 days, whatever the date. */
  lemma GregorianCycle(d: Date)
    ensures DaysToEpoch(Date(d.year + 400, d.month, d.day)) == DaysToEpoch(d) + 146097
    ensures Leap(d.year + 400) <==> Leap(d.year)
  {
    CountParts(d);
    CountParts(Date(d.year + 400, d.month, d.day));
    CycleOfLeaps(if d.month < 3 then d.year - 1 else d.year);
    LeapAgain(d.year);
  }

  lemma CycleOfLeaps(y: int)
    ensures LeapDaysUpTo(y + 400) == LeapDaysUpTo(y) + 97
  {
    MoreQuarters(y, 100, y + 400, 4);
    MoreQuarters(y, 4, y + 400, 100);
    MoreQuarters(y, 1, y + 400, 400);
  }

  lemma MoreQuarters(y: int, k: int, z: int, d: int)
    requires d > 0 && z == y + k * d
    ensures z / d == y / d + k && z % d == y % d
  {
    assert z == (y / d + k) * d + y % d;
    SameParts(z, y / d + k, d, y % d);
  }

  lemma SameParts(z: int, q: int, d: int, r: int)
    requires d > 0 && z == q * d + r && 0 <= r < d
    ensures z / d == q && z % d == r
  {
    var n := z / d - q;
    assert z == z / d * d + z % d;
    assert n * d == r - z % d;
    MultipleBound(n, d);
  }

  lemma MultipleBound(n: int, d: int)
    requires d > 0
    ensures n >= 1 ==> n * d >= d
    ensures n <= -1 ==> n * d <= -d
  {
    if n >= 1 {
      assert n * d == (n - 1) * d + d;
    } else if n <= -1 {
      assert n * d == (n + 1) * d - d;
    }
  }

  lemma LeapAgain(y: int)
    ensures Leap(y + 400) <==> Leap(y)
  {
    MoreQuarters(y, 100, y + 400, 4);
    MoreQuarters(y, 4, y + 400, 100);
    MoreQuarters(y, 1, y + 400, 400);
  }

  /** The first and the last second of the 32-bit epochs. */
  lemma Landmarks()
    ensures EpochToDate(0) == Time(Date(1970, 1, 1), 0, 0, 0)
    ensures EpochToDate(0xffff_ffff) == Time(Date(2106, 2, 7), 6, 28, 15)
  {
    DateOfDay(0);
    LastSecond();
  }

  lemma LastSecond()
    ensures EpochToDate(0xffff_ffff) == LAST_TIME
  {
    LastCounts();
    TimeUndone(LAST_TIME, 0xffff_ffff);
  }

  /** Of the years that end a century only every fourth has the 29th of February. */
  lemma EndsOfCenturies()
    ensures NextDay(Date(2000, 2, 28)) == Date(2000, 2, 29) && NextDay(Date(2100, 2, 28)) == Date(2100, 3, 1)
    ensures NextDay(Date(2024, 2, 28)) == Date(2024, 2, 29) && NextDay(Date(2023, 2, 28)) == Date(2023, 3, 1)
  {
  }
}
