/** Dates and Julian day numbers, crypto/o_time.c:date_to_julian and julian_to_date (the formulas
    of Fliegel and Van Flandern), against the rules of the Gregorian calendar. */
module JulianDay {

  /** C division, which rounds towards zero. */
  function Div(a: int, b: int): int
    requires b > 0
  {
    if a >= 0 then a / b else -((-a) / b)
  }

  // ---------- The calendar ----------

  datatype Date = Date(y: int, m: int, d: int)

  predicate Leap(y: int) {
    y % 4 == 0 && (y % 100 != 0 || y % 400 == 0)
  }

  function DaysIn(y: int, m: int): int {
    if m == 2 then (if Leap(y) then 29 else 28)
    else if m == 4 || m == 6 || m == 9 || m == 11 then 30
    else 31
  }

  /** The first year for which the year counted from March in the formulas is not negative. */
  const FIRST_YEAR: int := -4799

  predicate ValidDate(x: Date) {
    FIRST_YEAR <= x.y && 1 <= x.m <= 12 && 1 <= x.d <= DaysIn(x.y, x.m)
  }

  function NextDay(x: Date): Date {
    if x.d < DaysIn(x.y, x.m) then Date(x.y, x.m, x.d + 1)
    else if x.m < 12 then Date(x.y, x.m + 1, 1)
    else Date(x.y + 1, 1, 1)
  }

  // ---------- Date to Julian day ----------

  function DateToJulian(y: int, m: int, d: int): int {
    Div(1461 * (y + 4800 + Div(m - 14, 12)), 4)
    + Div(367 * (m - 2 - 12 * Div(m - 14, 12)), 12)
    - Div(3 * Div(y + 4900 + Div(m - 14, 12), 100), 4)
    + d - 32075
  }

  function Julian(x: Date): int {
    DateToJulian(x.y, x.m, x.d)
  }

  /** Days before March 1 of the year numbered `Y` from March to March. */
  function YearDays(Y: int): int {
    (1461 * Y) / 4 - (3 * ((Y + 100) / 100)) / 4
  }

  /** Months numbered from March = 1 to February = 12. */
  function MarchMonth(m: int): int {
    if m <= 2 then m + 10 else m - 2
  }

  function MarchYear(y: int, m: int): int {
    if m <= 2 then y + 4799 else y + 4800
  }

  lemma JulianByMarch(x: Date)
    requires ValidDate(x)
    ensures Julian(x) == YearDays(MarchYear(x.y, x.m)) + (367 * MarchMonth(x.m)) / 12 + x.d - 32075
  {
    var a := Div(x.m - 14, 12);
    assert a == if x.m <= 2 then -1 else 0;
  }

  /** A year from March to March has 366 days exactly when the February at its end is long. */
  lemma YearLength(Y: int)
    requires Y >= 0
    ensures YearDays(Y + 1) - YearDays(Y) == if Leap(Y + 1) then 366 else 365
  {
    CenturyStep(Y);
    FourYears(Y);
    LeapCases(Y + 1, YearDays(Y + 1) - YearDays(Y));
  }

  lemma LeapCases(y: int, days: int)
    requires days == (if y % 4 == 0 then 366 else 365) - (if y % 100 == 0 && y % 400 != 0 then 1 else 0)
    ensures days == if Leap(y) then 366 else 365
  {
    assert y % 400 == 0 ==> y % 100 == 0;
    assert y % 100 == 0 ==> y % 4 == 0;
  }

  lemma FourYears(Y: int)
    requires Y >= 0
    ensures (1461 * (Y + 1)) / 4 - (1461 * Y) / 4 == if (Y + 1) % 4 == 0 then 366 else 365
  {
  }

  lemma CenturyStep(Y: int)
    requires Y >= 0
    ensures (3 * ((Y + 101) / 100)) / 4 - (3 * ((Y + 100) / 100)) / 4
            == if (Y + 1) % 100 == 0 && (Y + 1) % 400 != 0 then 1 else 0
  {
    var c, r := (Y + 100) / 100, (Y + 100) % 100;
    assert Y + 1 == 100 * (c - 1) + r + 1;
    if r == 99 {
      assert Y + 1 == 100 * c && (Y + 101) / 100 == c + 1;
      ThreeQuarters(c);
    } else {
      assert (Y + 101) / 100 == c && (Y + 1) % 100 == r + 1;
    }
  }

  lemma ThreeQuarters(c: int)
    requires c >= 0
    ensures (3 * (c + 1)) / 4 - (3 * c) / 4 == if c % 4 == 0 then 0 else 1
    ensures (100 * c) % 100 == 0 && ((100 * c) % 400 == 0 <==> c % 4 == 0)
  {
    var k, r := c / 4, c % 4;
    QuarterParts(k, r);
  }

  lemma QuarterParts(k: int, r: int)
    requires k >= 0 && 0 <= r < 4
    ensures (3 * (4 * k + r)) / 4 == 3 * k + (3 * r) / 4
    ensures (3 * (4 * k + r + 1)) / 4 == 3 * k + (3 * r + 3) / 4
    ensures (100 * (4 * k + r)) % 100 == 0 && (100 * (4 * k + r)) % 400 == 100 * r
  {
  }

  lemma LeapShift(y: int)
    ensures Leap(y + 4800) <==> Leap(y)
  {
  }

  /** The number of the first day of a month. */
  function MonthStart(y: int, m: int): int {
    DateToJulian(y, m, 1)
  }

  /** A month starts where the month before it ends. */
  lemma MonthLength(y: int, m: int)
    requires FIRST_YEAR <= y && 1 <= m <= 12
    ensures (if m < 12 then MonthStart(y, m + 1) else MonthStart(y + 1, 1)) == MonthStart(y, m) + DaysIn(y, m)
  {
    hide DateToJulian, YearDays, Leap, Div;
    JulianByMarch(Date(y, m, 1));
    if m < 12 {
      JulianByMarch(Date(y, m + 1, 1));
    } else {
      JulianByMarch(Date(y + 1, 1, 1));
    }
    YearLength(y + 4799);
    LeapShift(y);
    if m != 2 {
      MarchMonthLength(m);
    }
  }

  /** The month lengths hidden in 367 / 12. */
  lemma MarchMonthLength(m: int)
    requires 1 <= m <= 12 && m != 2
    ensures (367 * MarchMonth(if m < 12 then m + 1 else 1)) / 12 - (367 * MarchMonth(m)) / 12
            == if m == 4 || m == 6 || m == 9 || m == 11 then 30 else 31
  {
  }

  /** The Julian day number advances by exactly one per calendar day. */
  lemma JulianOfNextDay(x: Date)
    requires ValidDate(x)
    ensures ValidDate(NextDay(x)) && Julian(NextDay(x)) == Julian(x) + 1
  {
    hide Julian, MonthStart, Leap;
    MonthLength(x.y, x.m);
    var next := NextDay(x);
    JulianInMonth(x.y, x.m, x.d);
    JulianInMonth(next.y, next.m, next.d);
  }

  lemma JulianInMonth(y: int, m: int, d: int)
    ensures Julian(Date(y, m, d)) == MonthStart(y, m) + d - 1
  {
  }

  predicate Earlier(a: Date, b: Date) {
    a.y < b.y || (a.y == b.y && (a.m < b.m || (a.m == b.m && a.d < b.d)))
  }

  /** Month starts increase with the month, and the months between are never shorter than 28 days. */
  lemma {:induction false} MonthsInOrder(y: int, m: int, y': int, m': int)
    requires FIRST_YEAR <= y && 1 <= m <= 12 && 1 <= m' <= 12 && 12 * y + m < 12 * y' + m'
    ensures MonthStart(y, m) + DaysIn(y, m) <= MonthStart(y', m')
    decreases 12 * y' + m' - (12 * y + m)
  {
    MonthLength(y, m);
    var ny, nm := if m < 12 then y else y + 1, if m < 12 then m + 1 else 1;
    if 12 * ny + nm < 12 * y' + m' {
      MonthsInOrder(ny, nm, y', m');
    } else {
      assert ny == y' && nm == m';
    }
  }

  /** Earlier dates have smaller numbers, so different dates have different numbers. */
  lemma JulianInOrder(a: Date, b: Date)
    requires ValidDate(a) && ValidDate(b)
    ensures Earlier(a, b) <==> Julian(a) < Julian(b)
    ensures a == b <==> Julian(a) == Julian(b)
  {
    OneWay(a, b);
    OneWay(b, a);
  }

  lemma OneWay(a: Date, b: Date)
    requires ValidDate(a) && ValidDate(b)
    ensures Earlier(a, b) ==> Julian(a) < Julian(b)
  {
    assert Julian(a) == MonthStart(a.y, a.m) + a.d - 1 && Julian(b) == MonthStart(b.y, b.m) + b.d - 1;
    if Earlier(a, b) && (a.y != b.y || a.m != b.m) {
      MonthsInOrder(a.y, a.m, b.y, b.m);
    }
  }

  // ---------- Julian day to date ----------

  /** The date the formulas of `julian_to_date` describe, before its year is stored in an `int`. */
  function JulianToDate(jd: int): Date {
    var L := jd + 68569;
    var n := Div(4 * L, 146097);
    var L2 := L - Div(146097 * n + 3, 4);
    var i := Div(4000 * (L2 + 1), 1461001);
    var L3 := L2 - Div(1461 * i, 4) + 31;
    var j := Div(80 * L3, 2447);
    var L4 := Div(j, 11);
    Date(100 * (n - 49) + i + L4, j + 2 - 12 * L4, L3 - Div(2447 * j, 80))
  }

  /** The intermediate values of the conversion: century `n`, year `i` of it, month `j` of that,
      the day of the month and the length of the year. */
  lemma Century(L: int) returns (n: int, L2: int)
    requires L >= 0
    ensures n == (4 * L) / 146097 && n >= 0 && L2 == L - (146097 * n + 3) / 4
    ensures 0 <= L2 < 36524 + (if n % 4 == 0 then 1 else 0)
  {
    n := (4 * L) / 146097;
    L2 := L - (146097 * n + 3) / 4;
    assert (146097 * n + 3) / 4 == 36524 * n + (n + 3) / 4;
    assert (146097 * (n + 1) + 3) / 4 == 36524 * (n + 1) + (n + 4) / 4;
  }

  lemma YearOfCentury(L2: int) returns (i: int, r: int)
    requires 0 <= L2 < 36525
    ensures i == (4000 * (L2 + 1)) / 1461001 && 0 <= i <= 99
    ensures r == L2 - (1461 * i) / 4 && 0 <= r <= (if i % 4 == 3 then 365 else 364)
  {
    i := (4000 * (L2 + 1)) / 1461001;
    r := L2 - (1461 * i) / 4;
    assert 0 <= i <= 99;
    assert (1461 * (i + 1)) / 4 - (1461 * i) / 4 == if i % 4 == 3 then 366 else 365;
  }

  lemma MonthOfYear(r: int) returns (j: int, d: int)
    requires 0 <= r <= 365
    ensures j == (80 * (r + 31)) / 2447 && 1 <= j <= 12
    ensures d == r + 31 - (2447 * j) / 80
    ensures (2447 * j) / 80 == (367 * j) / 12
    ensures 1 <= d <= (if j == 12 then 29 else if j == 2 || j == 4 || j == 7 || j == 9 then 30 else 31)
    ensures j == 12 && d == 29 ==> r == 365
  {
    j := (80 * (r + 31)) / 2447;
    d := r + 31 - (2447 * j) / 80;
  }

  lemma DivNat(a: nat, b: nat)
    requires b > 0
    ensures Div(a, b) == a / b
  {
  }

  /** `julian_to_date` in terms of the quantities above. */
  lemma DateByParts(jd: int, n: int, L2: int, i: int, r: int, j: int, d: int)
    requires jd >= 0 && n == (4 * (jd + 68569)) / 146097 && L2 == jd + 68569 - (146097 * n + 3) / 4
    requires n >= 0 && L2 >= 0 && i == (4000 * (L2 + 1)) / 1461001 && r == L2 - (1461 * i) / 4
    requires i >= 0 && r >= 0 && j == (80 * (r + 31)) / 2447 && j >= 1 && d == r + 31 - (2447 * j) / 80
    ensures JulianToDate(jd) == Date(100 * (n - 49) + i + j / 11, j + 2 - 12 * (j / 11), d)
  {
    hide Div;
    DivNat(4 * (jd + 68569), 146097);
    DivNat(146097 * n + 3, 4);
    DivNat(4000 * (L2 + 1), 1461001);
    DivNat(1461 * i, 4);
    DivNat(80 * (r + 31), 2447);
    DivNat(j, 11);
    DivNat(2447 * j, 80);
  }

  /** Non-negative numbers lie late enough in their first century. */
  lemma FirstCentury(jd: int, n: int, L2: int, i: int)
    requires jd >= 0 && n == (4 * (jd + 68569)) / 146097 && L2 == jd + 68569 - (146097 * n + 3) / 4
    requires 0 <= L2 && i == (4000 * (L2 + 1)) / 1461001
    ensures n >= 1 && i >= 0 && 100 * (n - 49) + i >= FIRST_YEAR
  {
    if n == 1 {
      assert L2 == jd + 32044;
    }
  }

  /** `julian_to_date` yields a valid date whose number is the one it was given. */
  lemma JulianOfDate(jd: int)
    requires jd >= 0
    ensures ValidDate(JulianToDate(jd)) && Julian(JulianToDate(jd)) == jd
  {
    var n, L2 := Century(jd + 68569);
    var i, r := YearOfCentury(L2);
    var j, d := MonthOfYear(r);
    DateByParts(jd, n, L2, i, r, j, d);
    FirstCentury(jd, n, L2, i);
    hide JulianToDate, Div, Leap, YearDays, DateToJulian;
    ByParts(JulianToDate(jd), n, L2, i, r, j, d);
  }

  lemma ByParts(x: Date, n: int, L2: int, i: int, r: int, j: int, d: int)
    requires n >= 1 && 0 <= i <= 99 && 1 <= j <= 12 && 100 * (n - 49) + i >= FIRST_YEAR
    requires x == Date(100 * (n - 49) + i + j / 11, j + 2 - 12 * (j / 11), d)
    requires 0 <= L2 < 36524 + (if n % 4 == 0 then 1 else 0)
    requires r == L2 - (1461 * i) / 4 && 0 <= r <= (if i % 4 == 3 then 365 else 364)
    requires d == r + 31 - (2447 * j) / 80 && (2447 * j) / 80 == (367 * j) / 12
    requires 1 <= d <= (if j == 12 then 29 else if j == 2 || j == 4 || j == 7 || j == 9 then 30 else 31)
    requires j == 12 && d == 29 ==> r == 365
    ensures ValidDate(x) && Julian(x) == L2 + (146097 * n + 3) / 4 - 68569
  {
    DateParts(n, i, j, d, x);
    if j == 12 && d == 29 {
      LastOfFebruary(n, L2, i, r);
    }
    YearDaysSplit(n, i);
    hide Leap, YearDays, DateToJulian, Div;
    JulianByMarch(x);
  }

  /** Month and year of a date from the month and year counted from March. */
  lemma DateParts(n: int, i: int, j: int, d: int, x: Date)
    requires n >= 1 && 0 <= i <= 99 && 1 <= j <= 12
    requires x == Date(100 * (n - 49) + i + j / 11, j + 2 - 12 * (j / 11), d)
    ensures 1 <= x.m <= 12 && MarchMonth(x.m) == j && MarchYear(x.y, x.m) == 100 * (n - 1) + i
    ensures x.y >= 100 * (n - 49) + i
    ensures x.m == 2 <==> j == 12
    ensures x.m == 4 || x.m == 6 || x.m == 9 || x.m == 11 <==> j == 2 || j == 4 || j == 7 || j == 9
    ensures j == 12 ==> x.y == 100 * (n - 49) + i + 1
  {
  }

  lemma YearDaysSplit(n: int, i: int)
    requires n >= 1 && 0 <= i <= 99
    ensures YearDays(100 * (n - 1) + i) == (1461 * i) / 4 + (146097 * n + 3) / 4 - 36525
  {
    assert (100 * (n - 1) + i + 100) / 100 == n;
    assert (1461 * (100 * (n - 1) + i)) / 4 == 36525 * (n - 1) + (1461 * i) / 4;
  }

  lemma LeapMultiple(k: int)
    ensures Leap(400 * k)
  {
  }

  lemma LeapInCentury(c: int, t: int)
    requires 0 <= t < 24
    ensures Leap(100 * c + 4 * t + 4)
  {
    var y := 100 * c + 4 * t + 4;
    assert y == 4 * (25 * c + t + 1);
  }

  /** A 29th of February occurs only in leap years. */
  lemma LastOfFebruary(n: int, L2: int, i: int, r: int)
    requires n >= 1 && 0 <= L2 < 36524 + (if n % 4 == 0 then 1 else 0)
    requires 0 <= i <= 99 && r == L2 - (1461 * i) / 4 == 365 && i % 4 == 3
    ensures Leap(100 * (n - 49) + i + 1)
  {
    hide Leap;
    if i == 99 {
      assert n == 4 * (n / 4);
      LeapMultiple(n / 4 - 12);
    } else {
      LeapInCentury(n - 49, i / 4);
    }
  }

  /** `julian_to_date` undoes `date_to_julian`. */
  lemma DateOfJulian(x: Date)
    requires ValidDate(x) && Julian(x) >= 0
    ensures JulianToDate(Julian(x)) == x
  {
    JulianOfDate(Julian(x));
    JulianInOrder(JulianToDate(Julian(x)), x);
  }

  // ---------- Machine integers ----------

  predicate Int32(x: int) {
    -0x8000_0000 <= x < 0x8000_0000
  }

  predicate Int64(x: int) {
    -0x8000_0000_0000_0000 <= x < 0x8000_0000_0000_0000
  }

  /** Conversion of a wider integer to `int`. */
  function ToInt32(x: int): (r: int)
    ensures Int32(r)
  {
    (x + 0x8000_0000) % 0x1_0000_0000 - 0x8000_0000
  }

  /** `date_to_julian` can be computed: no intermediate result leaves the range of `int`. */
  predicate Computable(x: Date) {
    && Int32(x.m - 14) && Int32(x.y + 4900) && Int32(x.d)
    && var a := Div(x.m - 14, 12);
       && Int32(1461 * (x.y + 4800 + a)) && Int32(367 * (x.m - 2 - 12 * a)) && Int32(3 * Div(x.y + 4900 + a, 100))
       && var years, months := Div(1461 * (x.y + 4800 + a), 4), Div(367 * (x.m - 2 - 12 * a), 12);
          && Int32(years + months) && Int32(Julian(x) + 32075 - x.d) && Int32(Julian(x) + 32075)
          && Int32(Julian(x))
  }

  /** The last year for which 1461 * (y + 4800) is an `int`. */
  const MAX_YEAR: int := 1_465_071

  /** Up to that year `date_to_julian` can be computed for every date of the calendar. */
  lemma DateToJulianFits(x: Date)
    requires ValidDate(x) && x.y <= MAX_YEAR
    ensures Computable(x)
  {
    JulianByMarch(x);
  }

  /** A year has at least 365 days, and four years at most 1461. */
  lemma JulianBounds(x: Date)
    requires ValidDate(x)
    ensures 365 * (x.y + 4799) - 32077 <= Julian(x) <= 366 * (x.y + 4800)
  {
    JulianByMarch(x);
    YearDaysBounds(MarchYear(x.y, x.m));
    hide DateToJulian, YearDays, Leap;
  }

  lemma YearDaysBounds(Y: int)
    requires Y >= 0
    ensures 365 * Y - 2 <= YearDays(Y) <= 366 * Y
  {
    var c := (Y + 100) / 100;
    assert 100 * c <= Y + 100;
  }
}
