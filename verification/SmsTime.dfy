/** SMS timestamps (TS 23.040 section 9.2.3.11): civil dates, Unix time and the seven wire
    octets, from sms/src/sms.c. */
module SmsTime {
  import opened Arith
  import opened Basics
  import opened SmsPack

  // ---------- the calendar ----------

  predicate Leap(y: int) { y % 4 == 0 && (y % 100 != 0 || y % 400 == 0) }

  function MonthDays(y: int, m: int): nat {
    if m == 2 then if Leap(y) then 29 else 28
    else if m == 4 || m == 6 || m == 9 || m == 11 then 30
    else 31
  }

  datatype Date = Date(y: int, m: int, d: int)

  predicate IsDate(a: Date) { 1 <= a.m <= 12 && 1 <= a.d <= MonthDays(a.y, a.m) }

  /** The day after. */
  function Tomorrow(a: Date): Date {
    if a.d < MonthDays(a.y, a.m) then a.(d := a.d + 1)
    else if a.m < 12 then Date(a.y, a.m + 1, 1)
    else Date(a.y + 1, 1, 1)
  }

  // ---------- days from the epoch, as the code computes them ----------

  /** C's division, which truncates. */
  function Trunc(a: int, b: int): int
    requires b > 0
  {
    if a >= 0 then a / b else 0 - (0 - a) / b
  }

  lemma TruncFloors(y: int, b: int)
    requires b > 0
    ensures Trunc(if y >= 0 then y else y - (b - 1), b) == y / b
  {
    if y < 0 {
      var q, r := y / b, y % b;
      assert 0 - (y - (b - 1)) == (0 - q) * b + (b - 1 - r) by { assert (0 - q) * b == 0 - q * b; }
      DivModUnique(0 - (y - (b - 1)), b, 0 - q, b - 1 - r);
    }
  }

  /** Days before year yoe of a 400-year era, counting years from March. */
  function YearStart(yoe: int): int { yoe * 365 + yoe / 4 - yoe / 100 }

  /** Days before month mp of a year that starts in March. */
  function MonthStart(mp: int): int { (153 * mp + 2) / 5 }

  /** days_from_civil. */
  function Days(a: Date): int {
    var y := if a.m <= 2 then a.y - 1 else a.y;
    var era := Trunc(if y >= 0 then y else y - 399, 400);
    var yoe := y - era * 400;
    var doy := MonthStart(if a.m > 2 then a.m - 3 else a.m + 9) + a.d - 1;
    era * 146097 + (YearStart(yoe) + doy) - 719468
  }

  /** civil_from_days. */
  function Civil(days: int): Date {
    var z := days + 719468;
    var era := Trunc(if z >= 0 then z else z - 146096, 146097);
    var doe := z - era * 146097;
    var yoe := YearOf(doe);
    var doy := doe - YearStart(yoe);
    var mp := (5 * doy + 2) / 153;
    var m := if mp < 10 then mp + 3 else mp - 9;
    Date(if m <= 2 then yoe + era * 400 + 1 else yoe + era * 400, m, doy - MonthStart(mp) + 1)
  }

  function YearOf(doe: int): int { (doe - doe / 1460 + doe / 36524 - doe / 146096) / 365 }

  // ---------- within an era ----------

  /** A year of an era has 365 days, and 366 when the February at its end is leap. */
  predicate Long(yoe: int) { yoe % 4 == 3 && (yoe % 100 != 99 || yoe == 399) }

  /** Year s of the four-year run b of century c. */
  predicate Parts(c: int, b: int, s: int) { 0 <= c <= 3 && 0 <= b <= 24 && 0 <= s <= 3 }

  lemma YearParts(c: int, b: int, s: int)
    requires Parts(c, b, s)
    ensures var yoe := 100 * c + 4 * b + s;
            && 0 <= yoe <= 399 && YearStart(yoe) == 36524 * c + 1461 * b + 365 * s
            && (Long(yoe) <==> s == 3 && (b != 24 || c == 3))
  {
    var yoe := 100 * c + 4 * b + s;
    DivModUnique(yoe, 4, 25 * c + b, s);
    DivModUnique(yoe, 100, c, 4 * b + s);
  }

  /** The century term of YearOf corrects itself on the last day of the era. */
  lemma CenturyTerm(c: int, r: int)
    requires 0 <= c <= 3 && 0 <= r <= 36524 && (r == 36524 ==> c == 3)
    ensures var doe := 36524 * c + r; doe / 36524 - doe / 146096 == c
  {
    var doe := 36524 * c + r;
    if r < 36524 {
      DivModUnique(doe, 36524, c, r);
      DivModUnique(doe, 146096, 0, doe);
    }
  }

  /** The formula recovers the year from any of its days. */
  lemma YearOfParts(c: int, b: int, s: int, doy: int)
    requires Parts(c, b, s) && 0 <= doy <= 365 && (doy == 365 ==> s == 3 && (b != 24 || c == 3))
    ensures var doe := 36524 * c + 1461 * b + 365 * s + doy;
            0 <= doe < 146097 && YearOf(doe) == 100 * c + 4 * b + s
  {
    var doe, yoe := 36524 * c + 1461 * b + 365 * s + doy, 100 * c + 4 * b + s;
    CenturyTerm(c, 1461 * b + 365 * s + doy);
    var t := 24 * c + b + 365 * s + doy;
    var k := if t < 1460 then 0 else 1;
    DivModUnique(doe, 1460, 25 * c + b + k, t - 1460 * k);
    DivModUnique(doe - doe / 1460 + c, 365, yoe, doy - k);
  }

  /** Every day of an era is a day of some year of it. */
  lemma DayParts(doe: int) returns (c: int, b: int, s: int, doy: int)
    requires 0 <= doe < 146097
    ensures Parts(c, b, s) && 0 <= doy <= 365 && (doy == 365 ==> s == 3 && (b != 24 || c == 3))
    ensures doe == 36524 * c + 1461 * b + 365 * s + doy
  {
    c := if doe < 36524 then 0 else if doe < 73048 then 1 else if doe < 109572 then 2 else 3;
    var r := doe - 36524 * c;
    b := if r / 1461 > 24 then 24 else r / 1461;
    var q := r - 1461 * b;
    s := if q < 365 then 0 else if q < 730 then 1 else if q < 1095 then 2 else 3;
    doy := q - 365 * s;
  }

  /** The months of a year that starts in March. */
  lemma MonthOfDay(mp: int, day: int)
    requires 0 <= mp <= 11 && 0 <= day && MonthStart(mp) + day <= 365
    requires mp < 11 ==> MonthStart(mp) + day < MonthStart(mp + 1)
    ensures (5 * (MonthStart(mp) + day) + 2) / 153 == mp
  {
  }

  lemma MonthOf(doy: int)
    requires 0 <= doy <= 365
    ensures var mp := (5 * doy + 2) / 153;
            0 <= mp <= 11 && MonthStart(mp) <= doy && (mp < 11 ==> doy < MonthStart(mp + 1))
  {
  }

  /** Where each month starts and how long it is. */
  lemma MonthLengths(m: int, y: int)
    requires 1 <= m <= 12
    ensures var mp := if m > 2 then m - 3 else m + 9;
            && 0 <= mp <= 11 && (m != 2 ==> MonthStart(mp + 1) - MonthStart(mp) == MonthDays(y, m))
            && (m == 2 ==> MonthStart(mp) == 337)
  {
  }

  // ---------- both conversions ----------

  /** Days with floor division written out. */
  lemma DaysIs(a: Date)
    requires 1 <= a.m <= 12
    ensures var y := if a.m <= 2 then a.y - 1 else a.y;
            var mp := if a.m > 2 then a.m - 3 else a.m + 9;
            Days(a) == y / 400 * 146097 + YearStart(y % 400) + MonthStart(mp) + a.d - 1 - 719468
  {
    var y := if a.m <= 2 then a.y - 1 else a.y;
    TruncFloors(y, 400);
    assert y - y / 400 * 400 == y % 400;
  }

  lemma CivilIs(days: int)
    ensures var z := days + 719468;
            var doy := z % 146097 - YearStart(YearOf(z % 146097));
            var mp := (5 * doy + 2) / 153;
            var m := if mp < 10 then mp + 3 else mp - 9;
            var y := YearOf(z % 146097) + z / 146097 * 400;
            Civil(days) == Date(if m <= 2 then y + 1 else y, m, doy - MonthStart(mp) + 1)
  {
    hide YearStart, YearOf, MonthStart;
    var z := days + 719468;
    TruncFloors(z, 146097);
    assert z - z / 146097 * 146097 == z % 146097;
  }

  /** The February that ends a March year is leap exactly when the year is long. */
  lemma LongIsLeap(y: int)
    ensures Long(y % 400) <==> Leap(y + 1)
  {
    hide Long;
    var q, r := y / 400, y % 400;
    SmallMods(q, r);
    LongSmall(r);
    assert y + 1 == 400 * q + r + 1;
  }

  lemma LongSmall(r: int)
    requires 0 <= r < 400
    ensures Long(r) <==> (r + 1) % 4 == 0 && ((r + 1) % 100 != 0 || (r + 1) % 400 == 0)
  {
  }

  lemma SmallMods(q: int, r: int)
    requires 0 <= r < 400
    ensures (400 * q + r + 1) % 4 == (r + 1) % 4
    ensures (400 * q + r + 1) % 100 == (r + 1) % 100
    ensures (400 * q + r + 1) % 400 == (r + 1) % 400
  {
    DivModUnique(400 * q + r + 1, 4, 100 * q + (r + 1) / 4, (r + 1) % 4);
    DivModUnique(400 * q + r + 1, 100, 4 * q + (r + 1) / 100, (r + 1) % 100);
    DivModUnique(400 * q + r + 1, 400, q + (r + 1) / 400, (r + 1) % 400);
  }

  /** Turning a day number into a date and back gives the day number. */
  lemma DaysOfCivil(days: int)
    ensures IsDate(Civil(days)) && Days(Civil(days)) == days
  {
    hide YearStart, YearOf, MonthStart, Days, Civil, Leap, Long;
    var z := days + 719468;
    var era, doe := z / 146097, z % 146097;
    var c, b, s, doy := DayParts(doe);
    YearParts(c, b, s);
    YearOfParts(c, b, s, doy);
    var yoe, mp := YearOf(doe), (5 * doy + 2) / 153;
    MonthOf(doy);
    CivilIs(days);
    var a := Civil(days);
    DivModUnique(yoe + era * 400, 400, era, yoe);
    DaysIs(a);
    CivilIsDate(a, yoe + era * 400, mp, doy);
  }

  /** What the parts make is a date. */
  lemma CivilIsDate(a: Date, y: int, mp: int, doy: int)
    requires 0 <= mp <= 11 && 0 <= doy <= 365 && MonthStart(mp) <= doy && (mp < 11 ==> doy < MonthStart(mp + 1))
    requires doy == 365 ==> Long(y % 400)
    requires a.m == (if mp < 10 then mp + 3 else mp - 9) && a.y == (if a.m <= 2 then y + 1 else y)
    requires a.d == doy - MonthStart(mp) + 1
    ensures IsDate(a)
  {
    hide MonthStart, Leap, Long;
    MonthLengths(a.m, a.y);
    LongIsLeap(y);
  }

  /** The day of its March year a date is. */
  lemma DateDay(a: Date)
    requires IsDate(a)
    ensures var y := if a.m <= 2 then a.y - 1 else a.y;
            var mp := if a.m > 2 then a.m - 3 else a.m + 9;
            var doy := MonthStart(mp) + a.d - 1;
            && 0 <= doy <= 365 && (doy == 365 ==> Long(y % 400)) && (5 * doy + 2) / 153 == mp
  {
    hide Leap, Long;
    var y := if a.m <= 2 then a.y - 1 else a.y;
    var mp := if a.m > 2 then a.m - 3 else a.m + 9;
    MonthLengths(a.m, a.y);
    MonthStarts(mp);
    LongIsLeap(y);
    MonthOfDay(mp, a.d - 1);
  }

  lemma MonthStarts(mp: int)
    requires 0 <= mp <= 11
    ensures 0 <= MonthStart(mp) <= 337 && (mp < 11 ==> MonthStart(mp + 1) <= 337)
  {
  }

  lemma YoeParts(yoe: int) returns (c: int, b: int, s: int)
    requires 0 <= yoe < 400
    ensures Parts(c, b, s) && yoe == 100 * c + 4 * b + s
  {
    c, b, s := yoe / 100, yoe % 100 / 4, yoe % 4;
  }

  /** Turning a date into a day number and back gives the date. */
  lemma CivilOfDays(a: Date)
    requires IsDate(a)
    ensures Civil(Days(a)) == a
  {
    hide YearStart, YearOf, MonthStart, Days, Civil, Leap, Long, MonthDays;
    var y := if a.m <= 2 then a.y - 1 else a.y;
    var mp := if a.m > 2 then a.m - 3 else a.m + 9;
    var doy := MonthStart(mp) + a.d - 1;
    DateDay(a);
    var c, b, s := YoeParts(y % 400);
    YearParts(c, b, s);
    YearOfParts(c, b, s, doy);
    DaysIs(a);
    var doe := YearStart(y % 400) + doy;
    DivModUnique(Days(a) + 719468, 146097, y / 400, doe);
    CivilIs(Days(a));
  }

  /** It counts days: the epoch is day 0 and each date is one after the one before. */
  lemma DaysCount(a: Date)
    requires IsDate(a)
    ensures Days(Date(1970, 1, 1)) == 0
    ensures IsDate(Tomorrow(a)) && Days(Tomorrow(a)) == Days(a) + 1
  {
    hide YearStart, MonthStart, Days, Leap, Long;
    Epoch();
    var b := Tomorrow(a);
    DaysIs(a);
    DaysIs(b);
    MonthLengths(a.m, a.y);
    if a.d == MonthDays(a.y, a.m) && a.m == 2 {
      MarchFirst(a.y - 1);
      LongIsLeap(a.y - 1);
      MonthZero();
    }
  }

  lemma Epoch()
    ensures Days(Date(1970, 1, 1)) == 0
  {
  }

  lemma MonthZero()
    ensures MonthStart(0) == 0
  {
  }

  /** From the end of one March year to the start of the next. */
  lemma MarchFirst(y: int)
    ensures (y + 1) / 400 * 146097 + YearStart((y + 1) % 400)
            == y / 400 * 146097 + YearStart(y % 400) + if Long(y % 400) then 366 else 365
  {
    var q, r := y / 400, y % 400;
    if r == 399 {
      DivModUnique(y + 1, 400, q + 1, 0);
    } else {
      DivModUnique(y + 1, 400, q, r + 1);
      NextYear(r);
    }
  }

  lemma NextYear(r: int)
    requires 0 <= r < 399
    ensures YearStart(r + 1) == YearStart(r) + if Long(r) then 366 else 365
  {
    var c, b, s := YoeParts(r);
    YearParts(c, b, s);
    if s < 3 {
      YearParts(c, b, s + 1);
    } else if b < 24 {
      YearParts(c, b + 1, 0);
    } else {
      YearParts(c + 1, 0, 0);
    }
  }

  // ---------- Unix time ----------

  datatype Ts = Ts(year: int, mon: nat, day: nat, hour: nat, min: nat, sec: nat, tz: int)

  function I16(y: int): int { if y % 0x1_0000 < 0x8000 then y % 0x1_0000 else y % 0x1_0000 - 0x1_0000 }

  predicate InRange(t: Ts) {
    1 <= t.mon <= 12 && 1 <= t.day <= 31 && t.hour <= 23 && t.min <= 59 && t.sec <= 59
  }

  /** sms_ts_unix. */
  function Unix(t: Ts): int {
    if !InRange(t) then -1
    else Days(Date(t.year, t.mon, t.day)) * 86400 + t.hour * 3600 + t.min * 60 + t.sec - t.tz * 900
  }

  function Clamp(tz: int): int { if tz < -48 then -48 else if tz > 48 then 48 else tz }

  /** An offset of at most twelve hours is kept, and another one becomes the nearest of them. */
  lemma ClampNearest(tz: int)
    ensures -48 <= Clamp(tz) <= 48
    ensures -48 <= tz <= 48 ==> Clamp(tz) == tz
    ensures tz > 48 ==> Clamp(tz) == 48
    ensures tz < -48 ==> Clamp(tz) == -48
  {
  }

  /** sms_ts_from_unix. */
  function FromUnix(secs: int, tz: int): Ts {
    var local := secs + Clamp(tz) * 900;
    var days0 := Trunc(local, 86400);
    var rem0 := local - days0 * 86400;
    var days := if rem0 < 0 then days0 - 1 else days0;
    var rem := if rem0 < 0 then rem0 + 86400 else rem0;
    SplitSeconds(local);
    var a := Civil(days);
    DaysOfCivil(days);
    Ts(I16(a.y), a.m, a.d, rem / 3600, rem % 3600 / 60, rem % 60, Clamp(tz))
  }

  /** The correction after C's division gives day and second of the day. */
  lemma SplitSeconds(local: int)
    ensures var days0 := Trunc(local, 86400);
            var rem0 := local - days0 * 86400;
            && (if rem0 < 0 then days0 - 1 else days0) == local / 86400
            && (if rem0 < 0 then rem0 + 86400 else rem0) == local % 86400
  {
  }

  /** The local calendar year of an instant. */
  function LocalYear(secs: int, tz: int): int { Civil((secs + Clamp(tz) * 900) / 86400).y }

  lemma ClockParts(rem: int)
    requires 0 <= rem < 86400
    ensures rem / 3600 <= 23 && rem % 3600 / 60 <= 59
    ensures rem / 3600 * 3600 + rem % 3600 / 60 * 60 + rem % 60 == rem
  {
  }

  /** Years are at least 365 days apart. */
  lemma YearsApart(y: int, n: nat, m: int, d: int)
    requires 1 <= m <= 12 && n > 0
    ensures Days(Date(y + n, m, d)) >= Days(Date(y, m, d)) + 365 * n
  {
    hide YearStart, MonthStart, Days, Long;
    DaysIs(Date(y, m, d));
    DaysIs(Date(y + n, m, d));
    MarchYears(if m <= 2 then y - 1 else y, n);
  }

  lemma {:induction false} MarchYears(y: int, n: nat)
    ensures (y + n) / 400 * 146097 + YearStart((y + n) % 400) >= y / 400 * 146097 + YearStart(y % 400) + 365 * n
    decreases n
  {
    hide YearStart, Long;
    if n > 0 {
      MarchYears(y, n - 1);
      MarchFirst(y + n - 1);
    }
  }

  /** Unix time survives the round trip exactly when the local year fits the 16-bit field. */
  lemma UnixInverts(secs: int, tz: int)
    ensures Unix(FromUnix(secs, tz)) == secs <==> -0x8000 <= LocalYear(secs, tz) < 0x8000
  {
    hide Days, Civil;
    var local := secs + Clamp(tz) * 900;
    SplitSeconds(local);
    ClockParts(local % 86400);
    DaysOfCivil(local / 86400);
    var a := Civil(local / 86400);
    assert IsDate(a) && a.d <= 31;
    var y := I16(a.y);
    if y < a.y {
      YearsApart(y, a.y - y, a.m, a.d);
    } else if y > a.y {
      YearsApart(a.y, y - a.y, a.m, a.d);
    }
  }

  /** The sum of an instant and its offset is far from the ends of int64 in all those years. */
  lemma YearsFit64(secs: int, tz: int)
    requires -0x8000 <= LocalYear(secs, tz) < 0x8000
    ensures -0x4000_0000_0000_0000 < secs + Clamp(tz) * 900 < 0x4000_0000_0000_0000
  {
    hide Days, Civil, YearStart, MonthStart;
    var n := (secs + Clamp(tz) * 900) / 86400;
    DaysOfCivil(n);
    var a := Civil(n);
    DaysIs(a);
    MonthStarts(if a.m > 2 then a.m - 3 else a.m + 9);
    var y := if a.m <= 2 then a.y - 1 else a.y;
    YearStarts(y % 400);
    assert -100 <= y / 400 <= 100;
    assert a.d <= 31;
  }

  lemma YearStarts(r: int)
    requires 0 <= r < 400
    ensures 0 <= YearStart(r) <= 146097
  {
  }

  /** The local date on which a clock tz quarter-hours east of GMT shows the second before the
      epoch. */
  function BeforeEpoch(tz: int): Date {
    if tz < -95 then Date(1969, 12, 30) else if tz < 1 then Date(1969, 12, 31)
    else if tz < 97 then Date(1970, 1, 1) else Date(1970, 1, 2)
  }

  /** For every value the fields can hold, -1 means out of range if and only if the timestamp is
      not the second before the epoch, in its own zone. */
  lemma MinusOneExactly(t: Ts)
    requires -128 <= t.tz <= 127
    ensures Unix(t) == -1 <==> || !InRange(t)
                               || (&& Date(t.year, t.mon, t.day) == BeforeEpoch(t.tz)
                                   && t.hour * 3600 + t.min * 60 + t.sec == (t.tz * 900 - 1) % 86400)
  {
    hide Days, Civil, Leap, BeforeEpoch;
    if InRange(t) {
      var a := Date(t.year, t.mon, t.day);
      var days := EpochDay(t.tz);
      DayAndClock(Days(a), t.hour * 3600 + t.min * 60 + t.sec, t.tz * 900 - 1);
      if Days(a) == days { NearEpoch(a, t.tz); }
    }
  }

  lemma DayAndClock(days: int, clock: nat, x: int)
    requires clock < 86400
    ensures days * 86400 + clock == x <==> days == x / 86400 && clock == x % 86400
  {
  }

  lemma EpochDay(tz: int) returns (days: int)
    requires -128 <= tz <= 127
    ensures days == (tz * 900 - 1) / 86400 == Days(BeforeEpoch(tz)) && Civil(days) == BeforeEpoch(tz)
  {
    hide Days, Civil;
    var a := Date(1969, 12, 30);
    DaysCount(a);
    DaysCount(Tomorrow(a));
    DaysCount(Date(1970, 1, 1));
    assert Tomorrow(Date(1970, 1, 1)) == Date(1970, 1, 2) && Tomorrow(a) == Date(1969, 12, 31);
    assert Tomorrow(Date(1969, 12, 31)) == Date(1970, 1, 1);
    CivilOfDays(BeforeEpoch(tz));
    days := Days(BeforeEpoch(tz));
  }

  /** Days past the end of a month are counted on into the next, which never leads to these
      dates. */
  lemma NearEpoch(a: Date, tz: int)
    requires 1 <= a.m <= 12 && 1 <= a.d <= 31 && -128 <= tz <= 127 && Days(a) == (tz * 900 - 1) / 86400
    ensures a == BeforeEpoch(tz)
  {
    hide Days, Civil, Leap;
    var days := EpochDay(tz);
    if IsDate(a) {
      CivilOfDays(a);
    } else {
      var n := MonthDays(a.y, a.m);
      var b := Date(a.y, a.m + 1, a.d - n);
      PastMonth(a);
      CivilOfDays(b);
    }
  }

  lemma PastMonth(a: Date)
    requires 1 <= a.m <= 12 && MonthDays(a.y, a.m) < a.d <= 31
    ensures var b := Date(a.y, a.m + 1, a.d - MonthDays(a.y, a.m)); IsDate(b) && Days(b) == Days(a)
  {
    hide Days, Leap, YearStart, MonthStart;
    var n := MonthDays(a.y, a.m);
    var last, first := a.(d := n), Date(a.y, a.m + 1, 1);
    DaysCount(last);
    assert Tomorrow(last) == first;
    DaysIs(a);
    DaysIs(last);
    DaysIs(first);
    DaysIs(Date(a.y, a.m + 1, a.d - n));
  }

  /** So -1 stands for an instant as well as for a timestamp out of range. */
  lemma MinusOneIsAmbiguous(tz: int)
    ensures InRange(FromUnix(-1, tz)) && Unix(FromUnix(-1, tz)) == -1
  {
    hide Days, Civil, MonthDays;
    var local := -1 + Clamp(tz) * 900;
    SplitSeconds(local);
    ClockParts(local % 86400);
    var days := EpochDay(Clamp(tz));
    DaysOfCivil(days);
    UnixInverts(-1, tz);
  }

  // ---------- the wire ----------

  /** Two digits in swapped nibbles (sms_bcd2, sms_bcd2_enc). */
  function Bcd(o: byte): Option<nat> {
    if o % 16 > 9 || o / 16 > 9 then None else Some(o % 16 * 10 + o / 16)
  }

  function BcdOf(v: nat): byte { v % 10 * 16 + v / 10 % 10 }

  lemma BcdReads(v: nat)
    requires v < 100
    ensures Bcd(BcdOf(v)) == Some(v)
  {
    DivModUnique(v / 10, 10, 0, v / 10);
    DivModUnique(BcdOf(v), 16, v % 10, v / 10);
  }

  lemma BcdWrites(o: byte)
    requires Bcd(o).Some?
    ensures Bcd(o).value < 100 && BcdOf(Bcd(o).value) == o
  {
  }

  /** The zone octet: quarter hours with the sign in bit 3. */
  function Zone(o: byte): Option<int> {
    var qh := o % 8 * 10 + o / 16;
    if o / 16 > 9 || qh > 48 then None else Some(if o / 8 % 2 == 1 then 0 - qh else qh)
  }

  function ZoneOf(tz: int): byte
    requires -48 <= tz <= 48
  {
    var qh := if tz < 0 then 0 - tz else tz;
    qh % 10 * 16 + qh / 10 + if tz < 0 then 8 else 0
  }

  lemma ZoneReads(tz: int)
    requires -48 <= tz <= 48
    ensures Zone(ZoneOf(tz)) == Some(tz)
  {
    var qh, neg := if tz < 0 then 0 - tz else tz, if tz < 0 then 1 else 0;
    ZoneParts(qh % 10, neg, qh / 10);
  }

  lemma ZoneParts(u: int, neg: int, t: int)
    requires 0 <= u <= 9 && 0 <= neg <= 1 && 0 <= t <= 7
    ensures var o := u * 16 + neg * 8 + t; o / 16 == u && o / 8 % 2 == neg && o % 8 == t
  {
    var o := u * 16 + neg * 8 + t;
    DivModUnique(o, 16, u, neg * 8 + t);
    DivModUnique(o, 8, 2 * u + neg, t);
    DivModUnique(2 * u + neg, 2, u, neg);
  }

  lemma ZoneSum(o: int)
    requires 0 <= o < 256
    ensures o == o / 16 * 16 + o / 8 % 2 * 8 + o % 8
  {
  }

  /** Every zone octet but minus zero is written back as it was. */
  lemma ZoneWrites(o: byte)
    requires Zone(o).Some?
    ensures ZoneOf(Zone(o).value) == o <==> o != 8
  {
    ZoneSum(o);
    var u, t, neg := o / 16, o % 8, o / 8 % 2;
    DivModUnique(t * 10 + u, 10, t, u);
  }

  function FullYear(yy: nat): int { if yy < 70 then 2000 + yy else 1900 + yy }

  /** sms_ts_decode on the first seven octets. */
  function TsDecode(b: bytes): Res<Ts> {
    if |b| < 7 then Fail(Short)
    else if Bcd(b[0]).None? || Bcd(b[1]).None? || Bcd(b[2]).None? || Bcd(b[3]).None? || Bcd(b[4]).None? || Bcd(b[5]).None?
    then Fail(Length)
    else if Zone(b[6]).None? then Fail(Length)
    else Ok(Ts(FullYear(Bcd(b[0]).value), Bcd(b[1]).value, Bcd(b[2]).value,
               Bcd(b[3]).value, Bcd(b[4]).value, Bcd(b[5]).value, Zone(b[6]).value))
  }

  predicate Writable(t: Ts) {
    1970 <= t.year <= 2069 && t.mon <= 12 && t.day <= 31 && t.hour <= 23 && t.min <= 59 && t.sec <= 59 && -48 <= t.tz <= 48
  }

  /** sms_ts_encode into cap octets. */
  function TsEncode(t: Ts, cap: nat): (r: Res<bytes>)
    ensures r.Ok? ==> |r.val| == 7
  {
    if cap < 7 then Fail(Overflow)
    else if !Writable(t) then Fail(Inval)
    else Ok([BcdOf(t.year % 100), BcdOf(t.mon), BcdOf(t.day), BcdOf(t.hour), BcdOf(t.min), BcdOf(t.sec), ZoneOf(t.tz)])
  }

  lemma YearDigits(y: int)
    requires 1970 <= y <= 2069
    ensures FullYear(y % 100) == y
  {
  }

  lemma DigitYear(yy: nat)
    requires yy < 100
    ensures 1970 <= FullYear(yy) <= 2069 && FullYear(yy) % 100 == yy
  {
  }

  /** A timestamp of 1970 to 2069 survives the wire, its zone included. */
  lemma TsRoundTrip(t: Ts, cap: nat, rest: bytes)
    requires Writable(t) && cap >= 7
    ensures TsEncode(t, cap).Ok? && TsDecode(TsEncode(t, cap).val + rest) == Ok(t)
  {
    hide Bcd, BcdOf, Zone, ZoneOf, FullYear;
    YearDigits(t.year);
    BcdReads(t.year % 100);
    BcdReads(t.mon);
    BcdReads(t.day);
    BcdReads(t.hour);
    BcdReads(t.min);
    BcdReads(t.sec);
    ZoneReads(t.tz);
  }

  /** Seven octets that decode are written back as they were, exactly when the fields are within
      their ranges and the zone is not minus zero. */
  lemma TsWritesBack(b: bytes)
    requires |b| == 7 && TsDecode(b).Ok?
    ensures var t := TsDecode(b).val;
            TsEncode(t, 7) == Ok(b) <==>
              t.mon <= 12 && t.day <= 31 && t.hour <= 23 && t.min <= 59 && t.sec <= 59 && b[6] != 8
  {
    hide Bcd, BcdOf, Zone, ZoneOf, FullYear;
    DigitYearOf(b[0]);
    BcdWrites(b[0]);
    BcdWrites(b[1]);
    BcdWrites(b[2]);
    BcdWrites(b[3]);
    BcdWrites(b[4]);
    BcdWrites(b[5]);
    ZoneBounds(b[6]);
    ZoneWrites(b[6]);
    var t := TsDecode(b).val;
    if TsEncode(t, 7).Ok? { assert TsEncode(t, 7).val == b <==> ZoneOf(t.tz) == b[6]; }
  }

  /** 2000-01-01 00:00:00 at minus zero is not written back. */
  lemma MinusZeroChanges()
    ensures var b := [0, 0x10, 0x10, 0, 0, 0, 8];
            TsDecode(b).Ok? && TsDecode(b).val.tz == 0 && TsEncode(TsDecode(b).val, 7) != Ok(b)
  {
    var b := [0, 0x10, 0x10, 0, 0, 0, 8];
    assert Bcd(b[0]) == Bcd(b[3]) == Bcd(b[4]) == Bcd(b[5]) == Some(0) && Bcd(b[1]) == Bcd(b[2]) == Some(1);
    assert Zone(b[6]) == Some(0);
    hide Bcd, Zone, TsEncode;
    TsWritesBack(b);
  }

  lemma DigitYearOf(o: byte)
    requires Bcd(o).Some?
    ensures 1970 <= FullYear(Bcd(o).value) <= 2069 && FullYear(Bcd(o).value) % 100 == Bcd(o).value
  {
    BcdWrites(o);
    DigitYear(Bcd(o).value);
  }

  lemma ZoneBounds(o: byte)
    requires Zone(o).Some?
    ensures -48 <= Zone(o).value <= 48
  {
  }

  /** For local years 1970 to 2069 an instant survives the wire. */
  lemma InstantRoundTrip(secs: int, tz: int, rest: bytes)
    requires 1970 <= LocalYear(secs, tz) <= 2069
    ensures TsEncode(FromUnix(secs, tz), 7).Ok?
    ensures TsDecode(TsEncode(FromUnix(secs, tz), 7).val + rest) == Ok(FromUnix(secs, tz))
    ensures Unix(FromUnix(secs, tz)) == secs
  {
    hide Days, Civil;
    var local := secs + Clamp(tz) * 900;
    UnixInverts(secs, tz);
    SplitSeconds(local);
    ClockParts(local % 86400);
    DaysOfCivil(local / 86400);
    assert Civil(local / 86400).d <= 31;
    assert Writable(FromUnix(secs, tz));
    hide FromUnix, Unix, TsEncode, TsDecode;
    TsRoundTrip(FromUnix(secs, tz), 7, rest);
  }
}
