/** Dates and times worked out by hand (crypto/o_time.c), in the fields of `struct tm`: years from
    1900, months from 0. */
module KnownTimes {
  import opened JulianDay
  import opened GmTime

  /** The lengths of the months, and the years with a long February. */
  lemma Months()
    ensures DaysIn(2015, 1) == DaysIn(2015, 3) == DaysIn(2015, 5) == DaysIn(2015, 7) == 31
    ensures DaysIn(2015, 8) == DaysIn(2015, 10) == DaysIn(2015, 12) == 31
    ensures DaysIn(2015, 4) == DaysIn(2015, 6) == DaysIn(2015, 9) == DaysIn(2015, 11) == 30
    ensures DaysIn(2015, 2) == DaysIn(1900, 2) == DaysIn(2100, 2) == 28
    ensures DaysIn(2016, 2) == DaysIn(2000, 2) == 29
  {
  }

  /** The first day of Unix time, a leap day, and the days around a new year. */
  lemma Days()
    ensures Julian(Date(1970, 1, 1)) == 2440588 && Julian(Date(2000, 2, 29)) == 2451604
    ensures Julian(Date(2016, 12, 31)) == 2457754 && Julian(Date(2017, 1, 1)) == 2457755
  {
    hide Julian;
    Day(Date(1970, 1, 1), 2440588);
    Day(Date(2000, 2, 29), 2451604);
    Day(Date(2016, 12, 31), 2457754);
    Day(Date(2017, 1, 1), 2457755);
  }

  /** The number of a day by the formula of the calendar from March. */
  lemma Day(x: Date, jd: int)
    requires ValidDate(x)
    requires jd == YearDays(MarchYear(x.y, x.m)) + (367 * MarchMonth(x.m)) / 12 + x.d - 32075
    ensures Julian(x) == jd
  {
    JulianByMarch(x);
  }

  /** Back from the days to the dates. */
  lemma DaysBack()
    ensures JulianToDate(2440588) == Date(1970, 1, 1) && JulianToDate(2451604) == Date(2000, 2, 29)
    ensures JulianToDate(2457754) == Date(2016, 12, 31) && JulianToDate(2457755) == Date(2017, 1, 1)
  {
    hide JulianToDate, Julian, DateToJulian;
    Days();
    DateOfJulian(Date(1970, 1, 1));
    DateOfJulian(Date(2000, 2, 29));
    DateOfJulian(Date(2016, 12, 31));
    DateOfJulian(Date(2017, 1, 1));
  }

  lemma CanBeRead(t: Time)
    requires ValidTime(t) && t.date.y >= 1900
    ensures Readable(t) && WithinADay(t)
  {
    DateToJulianFits(t.date);
  }

  lemma LandsAt(t: Time)
    requires ValidTime(t) && t.sec < 60 && 1900 <= t.date.y <= 9999 && Instant(t) >= 0
    ensures Accepted(Instant(t)) && Landed(Instant(t)) == t
  {
    hide At, Instant;
    InstantAt(t);
  }

  const OLD_YEAR: Time := Time(Date(2016, 12, 31), 23, 59, 59)
  const NEW_YEAR: Time := Time(Date(2017, 1, 1), 0, 0, 0)
  const EPOCH: Time := Time(Date(1970, 1, 1), 0, 0, 0)
  const LEAP_DAY: Time := Time(Date(2000, 2, 29), 12, 0, 0)

  lemma InstantIs(t: Time, day: int, clock: int)
    requires Julian(t.date) == day && ClockSeconds(t) == clock
    ensures Instant(t) == day * 86400 + clock
  {
    hide Julian;
  }

  lemma OldYear()
    ensures Instant(OLD_YEAR) == 2457754 * 86400 + 86399
  {
    hide Julian, Instant;
    Days();
    InstantIs(OLD_YEAR, 2457754, 86399);
  }

  lemma NewYearDay()
    ensures Instant(NEW_YEAR) == 2457755 * 86400
  {
    hide Julian, Instant;
    Days();
    InstantIs(NEW_YEAR, 2457755, 0);
  }

  lemma Epoch()
    ensures Instant(EPOCH) == 2440588 * 86400
  {
    hide Julian, Instant;
    Days();
    InstantIs(EPOCH, 2440588, 0);
  }

  lemma LeapDay()
    ensures Instant(LEAP_DAY) == 2451604 * 86400 + 43200
  {
    hide Julian, Instant;
    Days();
    InstantIs(LEAP_DAY, 2451604, 43200);
  }

  lemma OnlySpan(total: int, day: int, sec: int, day': int, sec': int)
    requires IsSpan(total, day, sec) && total == day' * 86400 + sec' && -86400 < sec' < 86400
    requires (day' > 0 ==> sec' >= 0) && (day' < 0 ==> sec' <= 0)
    ensures day == day' && sec == sec'
  {
    SpanIsUnique(total, day, sec, day', sec');
  }

  /** A second after the last of 2016, the year is 117, the month 0 and the day 1. */
  method NewYear() returns (ok: bool, tm: Tm)
    ensures ok && fresh(tm) && tm.tmYear == 117 && tm.tmMon == 0 && tm.tmMday == 1
    ensures tm.tmHour == 0 && tm.tmMin == 0 && tm.tmSec == 0
  {
    hide Instant, Readable, Accepted, Landed, AcceptedAt, LandedAt, WithinADay;
    tm := new Tm(116, 11, 31, 23, 59, 59);
    assert tm.Value() == OLD_YEAR;
    CanBeRead(OLD_YEAR);
    NoOffset(OLD_YEAR);
    OldYear();
    NewYearDay();
    LandsAt(NEW_YEAR);
    ok := GmtimeAdj(tm, 0, 1);
    assert tm.Value() == NEW_YEAR;
  }

  lemma CarriedSmall(t: Time)
    requires ValidTime(t) && t.date.y >= 1900
    ensures Readable(t) && 0 <= Carried(ClockSeconds(t)) < 86400
  {
    hide Readable;
    CanBeRead(t);
  }

  method Between(from: Tm, to: Tm, ghost span: int) returns (ok: bool, day: int, sec: int)
    requires ValidTime(from.Value()) && from.Value().date.y >= 1900 && Instant(from.Value()) >= 0
    requires ValidTime(to.Value()) && to.Value().date.y >= 1900 && Instant(to.Value()) == Instant(from.Value()) + span
    requires Instant(to.Value()) >= 0
    ensures ok && IsSpan(span, day, sec)
  {
    hide Instant, Readable, Carried, ClockSeconds, IsSpan;
    CanBeRead(from.Value());
    CanBeRead(to.Value());
    CarriedSmall(from.Value());
    CarriedSmall(to.Value());
    ok, day, sec := GmtimeDiff(from, to);
  }

  /** From the start of Unix time to noon of the leap day of 2000. */
  method SinceEpoch() returns (ok: bool, day: int, sec: int)
    ensures ok && day == 11016 && sec == 43200
  {
    hide Instant, IsSpan;
    var from := new Tm(70, 0, 1, 0, 0, 0);
    var to := new Tm(100, 1, 29, 12, 0, 0);
    assert from.Value() == EPOCH && to.Value() == LEAP_DAY;
    Epoch();
    LeapDay();
    ok, day, sec := Between(from, to, 11016 * 86400 + 43200);
    OnlySpan(11016 * 86400 + 43200, day, sec, 11016, 43200);
  }

  /** Back over a new year by a second. */
  method OneSecondBack() returns (ok: bool, day: int, sec: int)
    ensures ok && day == 0 && sec == 0 - 1
  {
    hide Instant, IsSpan;
    var from := new Tm(117, 0, 1, 0, 0, 0);
    var to := new Tm(116, 11, 31, 23, 59, 59);
    assert from.Value() == NEW_YEAR && to.Value() == OLD_YEAR;
    OldYear();
    NewYearDay();
    ok, day, sec := Between(from, to, 0 - 1);
    OnlySpan(0 - 1, day, sec, 0, 0 - 1);
  }
}
