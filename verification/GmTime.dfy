/** Shifting and comparing broken-down times, crypto/o_time.c:OPENSSL_gmtime_adj,
    OPENSSL_gmtime_diff and julian_adj.  `long` has 64 bits and `int` 32. */
module GmTime {
  import opened JulianDay

  const SECS_PER_DAY: int := 86400

  datatype Time = Time(date: Date, hour: int, min: int, sec: int)

  /** Valid times, leap seconds included. */
  predicate ValidTime(t: Time) {
    ValidDate(t.date) && t.date.y <= MAX_YEAR && 0 <= t.hour < 24 && 0 <= t.min < 60 && 0 <= t.sec <= 60
  }

  function ClockSeconds(t: Time): int {
    t.hour * 3600 + t.min * 60 + t.sec
  }

  /** Times that `julian_adj` takes in without an overflow.  Whether the fields are in their usual
      ranges is not looked at. */
  predicate Readable(t: Time) {
    && Computable(t.date) && Int32(t.date.y - 1900)
    && Int32(t.hour * 3600) && Int32(t.min * 60) && Int32(t.hour * 3600 + t.min * 60) && Int32(ClockSeconds(t))
  }

  /** The clock fields make up at most a day, as they do when each is in its range, a leap second
      included. */
  predicate WithinADay(t: Time) {
    0 <= ClockSeconds(t) <= SECS_PER_DAY
  }

  /** Seconds since noon-less Julian day 0: every day has 86400 of them. */
  function Instant(t: Time): int {
    Julian(t.date) * SECS_PER_DAY + ClockSeconds(t)
  }

  /** The time at an instant. */
  function At(s: int): Time
    requires s >= 0
  {
    var day, sec := s / SECS_PER_DAY, s % SECS_PER_DAY;
    Time(JulianToDate(day), sec / 3600, (sec / 60) % 60, sec % 60)
  }

  /** `At` undoes `Instant`. */
  lemma AtInstant(s: int)
    requires s >= 0
    ensures Instant(At(s)) == s && ValidDate(At(s).date)
    ensures 0 <= At(s).hour < 24 && 0 <= At(s).min < 60 && 0 <= At(s).sec < 60
  {
    JulianOfDate(s / SECS_PER_DAY);
    hide JulianToDate, DateToJulian, Leap;
    Clock(s % SECS_PER_DAY);
  }

  lemma Clock(sec: int)
    requires 0 <= sec < SECS_PER_DAY
    ensures (sec / 3600) * 3600 + ((sec / 60) % 60) * 60 + sec % 60 == sec
  {
  }

  /** Different times of day are different instants: without leap seconds `Instant` is injective. */
  lemma InstantAt(t: Time)
    requires ValidTime(t) && t.sec < 60 && Instant(t) >= 0
    ensures At(Instant(t)) == t
  {
    hide JulianToDate, Julian, Leap, Instant;
    var sec := ClockSeconds(t);
    DayAndSecond(t);
    ClockFields(t.hour, t.min, t.sec);
    DateOfJulian(t.date);
  }

  lemma DayAndSecond(t: Time)
    requires 0 <= ClockSeconds(t) < SECS_PER_DAY
    ensures Instant(t) / SECS_PER_DAY == Julian(t.date) && Instant(t) % SECS_PER_DAY == ClockSeconds(t)
  {
    hide Julian;
  }

  lemma ClockFields(hour: int, min: int, sec: int)
    requires 0 <= hour < 24 && 0 <= min < 60 && 0 <= sec < 60
    ensures var s := hour * 3600 + min * 60 + sec; s / 3600 == hour && (s / 60) % 60 == min && s % 60 == sec
    ensures 0 <= hour * 3600 + min * 60 + sec < SECS_PER_DAY
  {
  }

  // ---------- What the shifted time becomes ----------

  /** The year is stored in an `int`. */
  function Landed(s: int): Time
    requires s >= 0
  {
    var t := At(s);
    t.(date := t.date.(y := ToInt32(t.date.y)))
  }

  /** When `OPENSSL_gmtime_adj` succeeds with the instant `s` as its target. */
  predicate Accepted(s: int) {
    s >= 0 && 1900 <= Landed(s).date.y <= 9999
  }

  const FIRST_DAY: int := 2415021
  const LAST_DAY: int := 5373484

  /** From the start of 1900 to the end of 9999. */
  predicate InRange(s: int) {
    FIRST_DAY * SECS_PER_DAY <= s < (LAST_DAY + 1) * SECS_PER_DAY
  }

  lemma RangeOfDays(s: int)
    requires s >= 0
    ensures InRange(s) <==> FIRST_DAY <= s / SECS_PER_DAY <= LAST_DAY
  {
  }

  lemma FirstAndLast()
    ensures Julian(Date(1900, 1, 1)) == FIRST_DAY && Julian(Date(9999, 12, 31)) == LAST_DAY
  {
  }

  lemma RangeOfDates(x: Date)
    requires ValidDate(x)
    ensures FIRST_DAY <= Julian(x) <= LAST_DAY <==> 1900 <= x.y <= 9999
  {
    FirstAndLast();
    hide Julian, Leap;
    var first, last := Date(1900, 1, 1), Date(9999, 12, 31);
    JulianInOrder(x, first);
    JulianInOrder(last, x);
  }

  lemma RangeOfYears(s: int)
    requires s >= 0
    ensures InRange(s) <==> 1900 <= At(s).date.y <= 9999
  {
    hide JulianToDate, Julian, InRange;
    RangeOfDays(s);
    JulianOfDate(s / SECS_PER_DAY);
    RangeOfDates(At(s).date);
  }

  /** Every target in the range is accepted and reached exactly; an accepted target is reached
      exactly only in the range. */
  lemma ExactlyInRange(s: int)
    ensures InRange(s) ==> Accepted(s) && Landed(s) == At(s) && ValidTime(At(s))
    ensures Accepted(s) ==> (Instant(Landed(s)) == s <==> InRange(s))
  {
    if InRange(s) {
      WhenInRange(s);
    } else if Accepted(s) {
      WrongYear(s);
    }
  }

  lemma WhenInRange(s: int)
    requires InRange(s)
    ensures Accepted(s) && Landed(s) == At(s) && ValidTime(At(s)) && Instant(At(s)) == s
  {
    assert s >= 0;
    AtInstant(s);
    RangeOfYears(s);
    hide JulianToDate, Julian, At, Instant, InRange, Leap;
    SameInt(At(s).date.y);
  }

  lemma SameInt(y: int)
    requires Int32(y)
    ensures ToInt32(y) == y
  {
  }

  /** Outside the range an accepted time has lost a multiple of 2^32 years, more than 1.3 * 10^17
      seconds. */
  lemma WrongYear(s: int)
    requires Accepted(s) && !InRange(s)
    ensures Instant(Landed(s)) < s && s > 130_000_000_000_000_000
  {
    AtInstant(s);
    RangeOfYears(s);
    hide JulianToDate, At, Julian, InRange;
    WrappedYear(At(s).date.y);
    JulianBounds(At(s).date);
    SmallYear(Landed(s).date);
  }

  lemma WrappedYear(y: int)
    requires y >= FIRST_YEAR && 1900 <= ToInt32(y) <= 9999 && !(1900 <= y <= 9999)
    ensures y >= 0x1_0000_0000
  {
  }

  lemma SmallYear(x: Date)
    requires 1900 <= x.y <= 9999 && 1 <= x.m <= 12 && 1 <= x.d <= 31
    ensures Julian(x) <= 366 * 14800
  {
    JulianBounds(Date(x.y, x.m, 1));
    hide ValidDate;
    assert Julian(x) == Julian(Date(x.y, x.m, 1)) + x.d - 1;
  }

  // ---------- The operations on broken-down times ----------

  /** `struct tm`: years count from 1900, months from 0. */
  class Tm {
    var tmYear: int
    var tmMon: int
    var tmMday: int
    var tmHour: int
    var tmMin: int
    var tmSec: int

    constructor (year: int, mon: int, mday: int, hour: int, min: int, sec: int)
      ensures tmYear == year && tmMon == mon && tmMday == mday && tmHour == hour && tmMin == min && tmSec == sec
    {
      tmYear, tmMon, tmMday := year, mon, mday;
      tmHour, tmMin, tmSec := hour, min, sec;
    }

    ghost function Value(): Time
      reads this
    {
      Time(Date(tmYear + 1900, tmMon + 1, tmMday), tmHour, tmMin, tmSec)
    }
  }

  /** `date_to_julian`, whose intermediate results must be `int`s. */
  method DateToJulianChecked(y: int, m: int, d: int) returns (jd: int)
    requires Computable(Date(y, m, d))
    ensures jd == Julian(Date(y, m, d)) && Int32(jd)
  {
    hide Computable, Div;
    ComputableDay(Date(y, m, d));
    jd := Div(1461 * (y + 4800 + Div(m - 14, 12)), 4)
    + Div(367 * (m - 2 - 12 * Div(m - 14, 12)), 12)
    - Div(3 * Div(y + 4900 + Div(m - 14, 12), 100), 4)
    + d - 32075;
  }

  lemma ComputableDay(x: Date)
    requires Computable(x)
    ensures Int32(Julian(x))
  {
    hide Julian, Div;
  }

  /** `julian_to_date`: the year is cut to an `int`. */
  method JulianToDateStored(jd: int) returns (y: int, m: int, d: int)
    requires 0 <= jd < 0x8000_0000_0000
    ensures var x := JulianToDate(jd); y == ToInt32(x.y) && m == x.m && d == x.d
  {
    hide ToInt32;
    var L := jd + 68569;
    ConversionFits(L);
    var n := Div(4 * L, 146097);
    L := L - Div(146097 * n + 3, 4);
    var i := Div(4000 * (L + 1), 1461001);
    L := L - Div(1461 * i, 4) + 31;
    var j := Div(80 * L, 2447);
    d := L - Div(2447 * j, 80);
    L := Div(j, 11);
    m := j + 2 - 12 * L;
    y := ToInt32(100 * (n - 49) + i + L);
  }

  /** The largest products of the conversion fit a `long`. */
  lemma ConversionFits(L: int)
    requires 0 <= L < 0x8000_0002_0000
    ensures Int64(4 * L) && Int64(146097 * Div(4 * L, 146097) + 3) && Int64(4000 * (L + 1))
  {
  }

  /** C's `a % b`. */
  function Rem(a: int, b: int): int
    requires b > 0
  {
    a - Div(a, b) * b
  }

  /** The second of the day before a day is carried. */
  function Uncarried(t: Time, offsetSec: int): int {
    Rem(offsetSec, SECS_PER_DAY) + ClockSeconds(t)
  }

  /** `julian_adj` carries one day at most. */
  function Carried(c: int): int {
    if c >= SECS_PER_DAY then c - SECS_PER_DAY else if c < 0 then c + SECS_PER_DAY else c
  }

  function Target(t: Time, offDay: int, offsetSec: int): int {
    Instant(t) + offDay * SECS_PER_DAY + offsetSec
  }

  /** `julian_adj`: whole days and the seconds left over, which together are the shifted time. */
  method JulianAdj(tm: Tm, offDay: int, offsetSec: int) returns (ok: bool, day: int, sec: int)
    requires Readable(tm.Value()) && Int32(offDay) && Int64(offsetSec) && Int32(Uncarried(tm.Value(), offsetSec))
    ensures var s, r := Target(tm.Value(), offDay, offsetSec), Carried(Uncarried(tm.Value(), offsetSec));
            ok == (s >= r) && (ok ==> sec == r && day * SECS_PER_DAY + sec == s)
  {
    hide Julian, Computable, Div;
    ghost var s := Target(tm.Value(), offDay, offsetSec);
    ok, day, sec := false, 0, 0;
    var offsetDay := Div(offsetSec, SECS_PER_DAY);
    var offsetHms := offsetSec - offsetDay * SECS_PER_DAY;
    offsetDay := offsetDay + offDay;
    offsetHms := offsetHms + (tm.tmHour * 3600 + tm.tmMin * 60 + tm.tmSec);
    if offsetHms >= SECS_PER_DAY {
      offsetDay := offsetDay + 1;
      offsetHms := offsetHms - SECS_PER_DAY;
    } else if offsetHms < 0 {
      offsetDay := offsetDay - 1;
      offsetHms := offsetHms + SECS_PER_DAY;
    }
    var timeJd := DateToJulianChecked(tm.tmYear + 1900, tm.tmMon + 1, tm.tmMday);
    timeJd := timeJd + offsetDay;
    assert s == timeJd * SECS_PER_DAY + offsetHms;
    if timeJd < 0 {
      return;
    }
    ok, day, sec := true, timeJd, offsetHms;
  }

  /** What is left over is the second of the day exactly when one day is enough to carry. */
  lemma OneDay(t: Time, offDay: int, offsetSec: int)
    ensures var s, c := Target(t, offDay, offsetSec), Uncarried(t, offsetSec);
            var r := Carried(c);
            && (s - r) % SECS_PER_DAY == 0
            && (WithinADay(t) ==> -SECS_PER_DAY <= c < 2 * SECS_PER_DAY)
            && (-SECS_PER_DAY <= c < 2 * SECS_PER_DAY <==> r == s % SECS_PER_DAY)
  {
    hide Julian, Div;
    var s, c := Target(t, offDay, offsetSec), Uncarried(t, offsetSec);
    var carry := if c >= SECS_PER_DAY then 1 else if c < 0 then -1 else 0;
    RemRange(offsetSec);
    assert s - Carried(c) == (Julian(t.date) + offDay + Div(offsetSec, SECS_PER_DAY) + carry) * SECS_PER_DAY;
    WholeMultiple(s, Julian(t.date) + offDay + Div(offsetSec, SECS_PER_DAY) + carry, Carried(c));
  }

  lemma RemRange(a: int)
    ensures -SECS_PER_DAY < Rem(a, SECS_PER_DAY) < SECS_PER_DAY
  {
  }

  lemma WholeMultiple(s: int, day: int, r: int)
    requires s - r == day * SECS_PER_DAY
    ensures (s - r) % SECS_PER_DAY == 0 && (0 <= r < SECS_PER_DAY <==> r == s % SECS_PER_DAY)
  {
  }

  /** What is stored for the day at which `s - r` starts and the seconds `r`. */
  function LandedAt(s: int, r: int): Time
    requires s >= r
  {
    var x := JulianToDate((s - r) / SECS_PER_DAY);
    Time(x.(y := ToInt32(x.y)), Div(r, 3600), Rem(Div(r, 60), 60), Rem(r, 60))
  }

  predicate AcceptedAt(s: int, r: int) {
    s >= r && 1900 <= LandedAt(s, r).date.y <= 9999
  }

  /** With at most one day to carry, the stored time depends on the target only. */
  lemma UsualTarget(s: int)
    ensures AcceptedAt(s, s % SECS_PER_DAY) <==> Accepted(s)
    ensures Accepted(s) ==> s >= s % SECS_PER_DAY && LandedAt(s, s % SECS_PER_DAY) == Landed(s)
  {
    hide JulianToDate, ToInt32;
    var r := s % SECS_PER_DAY;
    assert s - r == (s / SECS_PER_DAY) * SECS_PER_DAY;
    if s >= r {
      assert (s - r) / SECS_PER_DAY == s / SECS_PER_DAY;
      PositiveFields(r);
    }
  }

  lemma PositiveFields(r: nat)
    ensures Div(r, 3600) == r / 3600 && Rem(Div(r, 60), 60) == (r / 60) % 60 && Rem(r, 60) == r % 60
  {
    var m := r / 60;
    assert m - (m / 60) * 60 == m % 60;
  }

  /** `OPENSSL_gmtime_adj`: succeeds exactly when the target is accepted, and then stores it;
      a failure changes nothing. */
  method GmtimeAdj(tm: Tm, offDay: int, offsetSec: int) returns (ok: bool)
    requires Readable(tm.Value()) && Int32(offDay) && Int64(offsetSec) && Int32(Uncarried(tm.Value(), offsetSec))
    modifies tm
    ensures var s, r := Target(old(tm.Value()), offDay, offsetSec), Carried(Uncarried(old(tm.Value()), offsetSec));
            ok == AcceptedAt(s, r) && tm.Value() == if ok then LandedAt(s, r) else old(tm.Value())
    ensures WithinADay(old(tm.Value())) ==>
              var s := Target(old(tm.Value()), offDay, offsetSec);
              ok == Accepted(s) && tm.Value() == if ok then Landed(s) else old(tm.Value())
  {
    hide Target, Uncarried, Carried, Readable, JulianToDate, ToInt32, Accepted, Landed, Div, WithinADay;
    ghost var s, r := Target(tm.Value(), offDay, offsetSec), Carried(Uncarried(tm.Value(), offsetSec));
    ghost var t := tm.Value();
    OneDay(t, offDay, offsetSec);
    UsualTarget(s);
    var found, timeJd, timeSec := JulianAdj(tm, offDay, offsetSec);
    if !found {
      return false;
    }
    TargetBound(t, offDay, offsetSec, timeJd, timeSec);
    var timeYear, timeMonth, timeDay := JulianToDateStored(timeJd);
    assert (s - r) / SECS_PER_DAY == timeJd;
    if timeYear < 1900 || timeYear > 9999 {
      return false;
    }
    tm.tmYear := timeYear - 1900;
    tm.tmMon := timeMonth - 1;
    tm.tmMday := timeDay;
    tm.tmHour := Div(timeSec, 3600);
    tm.tmMin := Rem(Div(timeSec, 60), 60);
    tm.tmSec := Rem(timeSec, 60);
    return true;
  }

  lemma TargetBound(t: Time, offDay: int, offsetSec: int, day: int, sec: int)
    requires Readable(t) && Int32(offDay) && Int64(offsetSec) && Int32(Uncarried(t, offsetSec))
    requires sec == Carried(Uncarried(t, offsetSec)) && day * SECS_PER_DAY + sec == Target(t, offDay, offsetSec) >= sec
    ensures 0 <= day < 0x8000_0000_0000
  {
    ReadableDay(t);
    hide Julian, Readable, Uncarried;
  }

  lemma ReadableDay(t: Time)
    requires Readable(t)
    ensures -0x8000_0000 <= Julian(t.date) < 0x8000_0000 - 32075 && Int32(ClockSeconds(t))
  {
    hide Julian, Div;
  }

  /** Whatever the clock fields, an accepted shift is exact if and only if the day it comes to lies
      from 1900 to 9999. */
  lemma AnyClockExactly(s: int, r: int)
    requires (s - r) % SECS_PER_DAY == 0 && AcceptedAt(s, r)
    ensures Instant(LandedAt(s, r)) == s <==> InRange(s - r)
  {
    hide JulianToDate, Julian, InRange, ToInt32, Div;
    var start := s - r;
    ExactlyInRange(start);
    FieldsAddUp(r);
    FieldsAddUp(0);
    assert Landed(start).date == LandedAt(s, r).date;
  }

  lemma FieldsAddUp(r: int)
    ensures Div(r, 3600) * 3600 + Rem(Div(r, 60), 60) * 60 + Rem(r, 60) == r
  {
    DivTwice(r);
  }

  lemma DivTwice(r: int)
    ensures Div(Div(r, 60), 60) == Div(r, 3600)
  {
  }

  /** The clock fields stored are in their ranges if and only if one day is enough to carry. */
  lemma NormalExactly(t: Time, offDay: int, offsetSec: int)
    requires var s, r := Target(t, offDay, offsetSec), Carried(Uncarried(t, offsetSec)); AcceptedAt(s, r)
    ensures var s, c := Target(t, offDay, offsetSec), Uncarried(t, offsetSec);
            var x := LandedAt(s, Carried(c));
            0 <= x.hour < 24 && 0 <= x.min < 60 && 0 <= x.sec < 60 <==> -SECS_PER_DAY <= c < 2 * SECS_PER_DAY
  {
    hide Target, Uncarried, JulianToDate, ToInt32, Div;
    var r := Carried(Uncarried(t, offsetSec));
    FieldsAddUp(r);
    if 0 <= r < SECS_PER_DAY {
      FieldRanges(r);
    }
  }

  /** An instance: 48 hours on 2000-01-01 come out as 24 hours on the next day. */
  lemma HoursLeft()
    ensures var t := Time(Date(2000, 1, 1), 48, 0, 0);
            var s, r := Target(t, 0, 0), Carried(Uncarried(t, 0));
            Readable(t) && AcceptedAt(s, r) && LandedAt(s, r) == Time(Date(2000, 1, 2), 24, 0, 0)
  {
    hide Julian, JulianToDate, Computable;
    DateToJulianFits(Date(2000, 1, 1));
    JulianOfNextDay(Date(2000, 1, 1));
    JulianDayOf2000();
    DateOfJulian(Date(2000, 1, 2));
    SameInt(2000);
  }

  lemma JulianDayOf2000()
    ensures Julian(Date(2000, 1, 1)) == 2451545
  {
  }

  lemma FieldRanges(r: int)
    requires 0 <= r < SECS_PER_DAY
    ensures 0 <= Div(r, 3600) < 24 && 0 <= Rem(Div(r, 60), 60) < 60 && 0 <= Rem(r, 60) < 60
  {
    PositiveFields(r);
  }

  /** `OPENSSL_gmtime_diff`: the seconds between two times as days and a remainder, of the same sign
      and below a day if each time has at most one day to carry.  The conversion of the days to `int`
      loses nothing. */
  method GmtimeDiff(from: Tm, to: Tm) returns (ok: bool, day: int, sec: int)
    requires Readable(from.Value()) && Readable(to.Value())
    requires Int32(Carried(ClockSeconds(to.Value())) - Carried(ClockSeconds(from.Value())))
    ensures ok <==> Instant(from.Value()) >= Carried(ClockSeconds(from.Value())) &&
                    Instant(to.Value()) >= Carried(ClockSeconds(to.Value()))
    ensures ok ==> day * SECS_PER_DAY + sec == Instant(to.Value()) - Instant(from.Value())
    ensures WithinADay(from.Value()) && WithinADay(to.Value()) ==>
              && ok == (Instant(from.Value()) >= 0 && Instant(to.Value()) >= 0)
              && (ok ==> IsSpan(Instant(to.Value()) - Instant(from.Value()), day, sec))
  {
    hide Readable, Julian, Div, ToInt32, WithinADay;
    ok, day, sec := false, 0, 0;
    NoOffset(from.Value());
    NoOffset(to.Value());
    var fromOk, fromJd, fromSec := JulianAdj(from, 0, 0);
    if !fromOk {
      return;
    }
    var toOk, toJd, toSec := JulianAdj(to, 0, 0);
    if !toOk {
      return;
    }
    var diffDay := toJd - fromJd;
    var diffSec := toSec - fromSec;
    if diffDay > 0 && diffSec < 0 {
      diffDay := diffDay - 1;
      diffSec := diffSec + SECS_PER_DAY;
    }
    if diffDay < 0 && diffSec > 0 {
      diffDay := diffDay + 1;
      diffSec := diffSec - SECS_PER_DAY;
    }
    SameInt(diffDay);
    ok, day, sec := true, ToInt32(diffDay), diffSec;
  }

  /** What `OPENSSL_gmtime_diff` relies on about each time. */
  lemma NoOffset(t: Time)
    requires Readable(t)
    ensures Uncarried(t, 0) == ClockSeconds(t) && Int32(ClockSeconds(t)) && Target(t, 0, 0) == Instant(t)
    ensures Instant(t) - Carried(ClockSeconds(t)) < (0x8000_0000 - 32000) * SECS_PER_DAY
    ensures WithinADay(t) ==>
              && 0 <= Carried(ClockSeconds(t)) < SECS_PER_DAY
              && (Instant(t) >= 0 <==> Instant(t) >= Carried(ClockSeconds(t)))
  {
    ReadableDay(t);
    OneDay(t, 0, 0);
    hide Julian, Readable;
  }

  /** A span of seconds as days and seconds of the same sign. */
  predicate IsSpan(total: int, day: int, sec: int) {
    && total == day * SECS_PER_DAY + sec && -SECS_PER_DAY < sec < SECS_PER_DAY
    && (day > 0 ==> sec >= 0) && (day < 0 ==> sec <= 0)
  }

  /** There is only one way to write a span. */
  lemma SpanIsUnique(total: int, day: int, sec: int, day': int, sec': int)
    requires IsSpan(total, day, sec) && IsSpan(total, day', sec')
    ensures day == day' && sec == sec'
  {
    assert (day - day') * SECS_PER_DAY == sec' - sec;
  }

  // ---------- Laws of shifting ----------

  datatype Shift = Shifted(t: Time) | Refused

  /** What `OPENSSL_gmtime_adj` makes of a time whose clock fields make up at most a day. */
  function Adj(t: Time, total: int): Shift {
    if Accepted(Instant(t) + total) then Shifted(Landed(Instant(t) + total)) else Refused
  }

  /** A shift whose target lies from 1900 to 9999 succeeds, moves the time by exactly that many
      seconds, and `OPENSSL_gmtime_diff` reports just that span. */
  lemma AdjMoves(t: Time, total: int)
    requires InRange(Instant(t) + total)
    ensures Adj(t, total).Shifted? && ValidTime(Adj(t, total).t)
    ensures Instant(Adj(t, total).t) == Instant(t) + total
    ensures forall day, sec :: IsSpan(Instant(Adj(t, total).t) - Instant(t), day, sec) <==> IsSpan(total, day, sec)
  {
    hide Instant, ValidTime, Accepted, Landed, InRange, At;
    ExactlyInRange(Instant(t) + total);
  }

  /** Successive shifts compose by addition. */
  lemma AdjComposes(t: Time, a: int, b: int)
    requires InRange(Instant(t) + a)
    ensures Adj(t, a).Shifted? && Adj(Adj(t, a).t, b) == Adj(t, a + b)
  {
    AdjMoves(t, a);
    SameInstant(Adj(t, a).t, b, t, a + b);
  }

  lemma SameInstant(t: Time, a: int, t': Time, a': int)
    requires Instant(t) + a == Instant(t') + a'
    ensures Adj(t, a) == Adj(t', a')
  {
    hide Instant, Accepted, Landed;
  }

  /** Shifting back restores a time if and only if it is not a leap second and its year is one that
      can be stored. */
  lemma AdjUndone(t: Time, total: int)
    requires ValidTime(t) && InRange(Instant(t) + total)
    ensures Adj(t, total).Shifted?
    ensures Adj(Adj(t, total).t, -total) == Shifted(t) <==> t.sec < 60 && 1900 <= t.date.y <= 9999
  {
    hide *;
    AdjComposes(t, total, -total);
    AdjNothing(t);
  }

  lemma AdjNothing(t: Time)
    requires ValidTime(t)
    ensures Adj(t, 0) == Shifted(t) <==> t.sec < 60 && 1900 <= t.date.y <= 9999
  {
    hide Instant, Landed, At, ValidTime, InRange, Accepted;
    var s := Instant(t);
    if t.sec < 60 && 1900 <= t.date.y <= 9999 {
      InstantRange(t);
      ExactlyInRange(s);
      AcceptedFirst(s);
      InstantAt(t);
    } else if Accepted(s) {
      AcceptedFields(s);
    }
  }

  lemma AcceptedFields(s: int)
    requires Accepted(s)
    ensures s >= 0 && Landed(s).sec < 60 && 1900 <= Landed(s).date.y <= 9999
  {
    hide JulianToDate, ToInt32;
  }

  /** An instance: shifted by any span and back, the leap second at the end of 2016 has become the
      midnight after it. */
  lemma LeapSecondLost(total: int)
    requires InRange(Instant(Time(Date(2016, 12, 31), 23, 59, 60)) + total)
    ensures var t := Time(Date(2016, 12, 31), 23, 59, 60);
            && ValidTime(t) && Adj(t, total).Shifted?
            && Adj(Adj(t, total).t, -total) == Shifted(Time(Date(2017, 1, 1), 0, 0, 0))
  {
    hide Instant, Adj, InRange;
    var t, midnight := Time(Date(2016, 12, 31), 23, 59, 60), Time(Date(2017, 1, 1), 0, 0, 0);
    AdjComposes(t, total, -total);
    SameMidnight(Date(2016, 12, 31));
    SameInstant(t, 0, midnight, 0);
    AdjNothing(midnight);
  }

  lemma SameMidnight(x: Date)
    requires ValidDate(x)
    ensures Instant(Time(x, 23, 59, 60)) == Instant(Time(NextDay(x), 0, 0, 0))
  {
    hide Julian;
    JulianOfNextDay(x);
  }

  lemma AcceptedFirst(s: int)
    requires Accepted(s)
    ensures s >= 0
  {
  }

  lemma InstantRange(t: Time)
    requires ValidTime(t) && t.sec < 60 && 1900 <= t.date.y <= 9999
    ensures InRange(Instant(t))
  {
    RangeOfDates(t.date);
    hide Julian;
  }

  /** For offsets up to 10^17 seconds, success means the target lies from 1900 to 9999, and the
      move is exact. */
  lemma AdjIsExact(t: Time, offDay: int, offsetSec: int)
    requires Readable(t) && Int32(offDay) && offsetSec <= 100_000_000_000_000_000
    ensures var total := offDay * SECS_PER_DAY + offsetSec;
            && (Adj(t, total).Shifted? <==> InRange(Instant(t) + total))
            && (Adj(t, total).Shifted? ==> Instant(Adj(t, total).t) == Instant(t) + total)
  {
    var s := Instant(t) + (offDay * SECS_PER_DAY + offsetSec);
    ExactlyInRange(s);
    if Accepted(s) && !InRange(s) {
      WrongYear(s);
      ReadableDay(t);
      hide Julian, Accepted, InRange, Readable;
      assert false;
    }
  }

  /** An accepted target is hit exactly when it lies from 1900 to 9999: for a larger offset the
      stored year can be wrong. */
  lemma AdjExactness(t: Time, total: int)
    requires Adj(t, total).Shifted?
    ensures Instant(Adj(t, total).t) == Instant(t) + total <==> InRange(Instant(t) + total)
  {
    hide Instant, ValidTime, Accepted, Landed, InRange, At;
    ExactlyInRange(Instant(t) + total);
  }

  /** The seconds from 2000-01-01 to the same day of the year 2^32 + 2000. */
  const WRAP: int := 86400 * 1568704592610

  /** Shifting 2000-01-01 by 2^32 years succeeds and changes nothing. */
  lemma WrappedShift()
    ensures var t := Time(Date(2000, 1, 1), 0, 0, 0);
            ValidTime(t) && Int64(WRAP) && Adj(t, WRAP) == Shifted(t)
  {
    hide JulianToDate, Julian, Accepted, Landed, Instant;
    FarDay();
    DateOfJulian(Date(4294969296, 1, 1));
    LandsIn2000();
    Midnight(Date(2000, 1, 1));
  }

  lemma Midnight(x: Date)
    ensures Instant(Time(x, 0, 0, 0)) == Julian(x) * SECS_PER_DAY
  {
    hide Julian;
  }

  lemma LandsIn2000()
    requires JulianToDate(2451545 + 1568704592610) == Date(4294969296, 1, 1)
    ensures var s := 2451545 * SECS_PER_DAY + WRAP; Accepted(s) && Landed(s) == Time(Date(2000, 1, 1), 0, 0, 0)
  {
    hide JulianToDate;
  }

  lemma FarDay()
    ensures Julian(Date(2000, 1, 1)) == 2451545 && Julian(Date(4294969296, 1, 1)) == 2451545 + 1568704592610
  {
  }
}
