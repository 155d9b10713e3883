/** Calendar arithmetic (kernel/lib/src/time.c) against the weekday formula of the clock
    driver (kernel/src/arch/x86_64/RTC.cpp). */
module Calendar {
  predicate Divides(n: int, y: int)
    requires n > 0
  {
    y % n == 0
  }

  predicate IsLeapYear(year: int)
  {
    if !Divides(4, year) then false
    else if !Divides(100, year) then true
    else if !Divides(400, year) then false
    else true
  }

  function Leap(year: int): int
  {
    if IsLeapYear(year) then 1 else 0
  }

  /** The quotient rounded down. */
  function Floor(y: int, n: int): int
    requires n > 0
  {
    y / n
  }

  /** Leap years from 1 to `y`, continued below 1. */
  function Leaps(y: int): int
  {
    Floor(y, 4) - Floor(y, 100) + Floor(y, 400)
  }

  lemma LeapsNext(y: int)
    ensures Leaps(y) == Leaps(y - 1) + Leap(y)
  {
    hide Floor, Divides;
    FloorNext(y, 4);
    FloorNext(y, 100);
    FloorNext(y, 400);
    Multiples(y);
  }

  lemma FloorNext(y: int, n: int)
    requires n in {4, 100, 400}
    ensures Floor(y, n) == Floor(y - 1, n) + if Divides(n, y) then 1 else 0
  {
  }

  lemma Multiples(y: int)
    ensures Divides(400, y) ==> Divides(100, y)
    ensures Divides(100, y) ==> Divides(4, y)
  {
  }

  /** Days from 1 January 1970 to 1 January of a year, in closed form. */
  function YearDays(year: int): int
  {
    365 * (year - 1970) + Leaps(year - 1) - Leaps(1969)
  }

  /** Counting years one by one gives the closed form, before and after 1970. */
  method YearsToDaysSinceEpoch(year: int) returns (days: int)
    ensures days == YearDays(year)
  {
    var begin, end, sign := 1970, year, false;
    if year < 1970 {
      begin, end, sign := year, 1970, true;
    }
    days := 0;
    for i := begin to end
      invariant days == YearDays(i) - YearDays(begin)
    {
      LeapsNext(i);
      days := days + 365;
      if IsLeapYear(i) {
        days := days + 1;
      }
    }
    if sign {
      days := days * -1;
    }
  }

  const SEEK: seq<int> := [0, 31, 59, 90, 120, 151, 181, 212, 243, 273, 304, 334]

  /** Day of the year, counted from 0; months out of range are clamped. */
  function DayOfYear(year: int, month: int, day: int): int
  {
    var m := if month < 1 then 1 else if month > 12 then 12 else month;
    SEEK[m - 1] + day - 1 + if IsLeapYear(year) && m >= 3 then 1 else 0
  }

  function Days(year: int, month: int, day: int): int
  {
    YearDays(year) + DayOfYear(year, month, day)
  }

  method DaysSinceEpoch(year: int, month: int, day: int) returns (days: int)
    ensures days == Days(year, month, day)
  {
    var years := YearsToDaysSinceEpoch(year);
    days := years + DayOfYear(year, month, day);
  }

  // ---- The calendar the count is for ---------------------------------------------------

  datatype Date = Date(year: int, month: int, day: int)

  function MonthLength(year: int, month: int): int
  {
    if month == 2 then 28 + Leap(year) else if month in {4, 6, 9, 11} then 30 else 31
  }

  predicate Valid(d: Date)
  {
    1 <= d.month <= 12 && 1 <= d.day <= MonthLength(d.year, d.month)
  }

  function Next(d: Date): Date
  {
    if d.day < MonthLength(d.year, d.month) then d.(day := d.day + 1)
    else if d.month < 12 then Date(d.year, d.month + 1, 1)
    else Date(d.year + 1, 1, 1)
  }

  function Count(d: Date): int
  {
    Days(d.year, d.month, d.day)
  }

  /** The day after is one day later, in every year. */
  lemma NextIsOneLater(d: Date)
    requires Valid(d)
    ensures Valid(Next(d)) && Count(Next(d)) == Count(d) + 1
  {
    if d.day == MonthLength(d.year, d.month) && d.month == 12 {
      LeapsNext(d.year);
    }
  }

  /** Day 0 is 1 January 1970, and a month out of range counts as the nearest in range. */
  lemma Epoch(year: int, month: int, day: int)
    ensures Count(Date(1970, 1, 1)) == 0
    ensures month < 1 ==> Days(year, month, day) == Days(year, 1, day)
    ensures month > 12 ==> Days(year, month, day) == Days(year, 12, day)
  {
  }

  /** Later dates have later counts, so no two dates share one. */
  predicate Earlier(a: Date, b: Date)
  {
    a.year < b.year || (a.year == b.year && (a.month < b.month || (a.month == b.month && a.day < b.day)))
  }

  lemma CountIsStrict(a: Date, b: Date)
    requires Valid(a) && Valid(b) && Earlier(a, b)
    ensures Count(a) < Count(b)
  {
    InYear(a);
    InYear(b);
    if a.year < b.year {
      YearsGrow(a.year + 1, b.year);
      LeapsNext(a.year);
    } else if a.month < b.month {
      MonthsGrow(a.year, a.month, b.month);
    }
  }

  lemma InYear(d: Date)
    requires Valid(d)
    ensures 0 <= DayOfYear(d.year, d.month, d.day) < 365 + Leap(d.year)
  {
  }

  lemma MonthsGrow(year: int, m: int, n: int)
    requires 1 <= m < n <= 12
    ensures DayOfYear(year, m, MonthLength(year, m)) < DayOfYear(year, n, 1)
  {
  }

  lemma {:induction false} YearsGrow(y: int, z: int)
    requires y <= z
    ensures YearDays(y) <= YearDays(z)
    decreases z - y
  {
    if y < z {
      LeapsNext(y);
      YearsGrow(y + 1, z);
    }
  }

  // ---- The weekday ---------------------------------------------------------------------

  /** 1 for Sunday to 7 for Saturday; the year is a 16-bit variable. */
  function GetWeekDay(y0: nat, m0: nat, d: nat): nat
  {
    var (y, m) := if m0 < 3 then ((y0 - 1) % 0x1_0000, m0 + 12) else (y0, m0);
    var k, j := y % 100, y / 100;
    var h := (d + (m + 1) * 26 / 10 + k + k / 4 + j / 4 + 5 * j) % 7;
    if h == 0 then 7 else h
  }

  /** The month term of the formula. */
  function MonthTerm(m: int): int
  {
    ((if m < 3 then m + 12 else m) + 1) * 26 / 10
  }

  /** The days before a month, modulo 7, are its term. */
  lemma MonthTerms(m: int)
    requires 1 <= m <= 12
    ensures (SEEK[m - 1] + (if m < 3 then 1 else 0) - MonthTerm(m)) % 7 == 0
  {
  }

  /** The year terms of the formula. */
  function YearTerm(y: int): int
  {
    y % 100 + y % 100 / 4 + y / 100 / 4 + 5 * (y / 100)
  }

  /** The years and leap days, modulo 7, are the year terms. */
  lemma YearTerms(y: int)
    ensures y + Leaps(y) == YearTerm(y) + 7 * (17 * (y / 100))
  {
    var j, k := y / 100, y % 100;
    assert y == 100 * j + k;
    assert y / 4 == 25 * j + k / 4;
    assert y / 400 == j / 4;
  }

  lemma Congruent(a: int, b: int, k: int)
    requires a == b + 7 * k
    ensures a % 7 == b % 7
  {
  }

  /** The day count and the formula agree modulo 7 when the formula is given the right year. */
  lemma CountModSeven(y: int, m: int, d: int)
    requires 1 <= m <= 12
    ensures (Days(y, m, d) + 4) % 7 == (d + MonthTerm(m) + YearTerm(if m < 3 then y - 1 else y) - 1) % 7
  {
    hide Leaps, YearTerm, MonthTerm;
    var shifted := if m < 3 then y - 1 else y;
    LeapsNext(y);
    YearTerms(shifted);
    MonthTerms(m);
    Leaps1969();
    var s := SEEK[m - 1] + (if m < 3 then 1 else 0);
    var q := (s - MonthTerm(m)) / 7;
    assert s == MonthTerm(m) + 7 * q;
    assert Days(y, m, d) + 4 == 364 * (y - 1970) + (shifted + Leaps(shifted)) + s + d - 2444;
    Congruent(Days(y, m, d) + 4, d + MonthTerm(m) + YearTerm(shifted) - 1,
        52 * (y - 1970) + 17 * (shifted / 100) + q - 349);
  }

  lemma Leaps1969()
    ensures Leaps(1969) == 477
  {
  }

  /** The weekday is right for every date of every 16-bit year, except in the first two months
      of year 0, where the year wraps. */
  lemma WeekDayExactly(date: Date)
    requires Valid(date) && 0 <= date.year < 0x1_0000
    ensures GetWeekDay(date.year, date.month, date.day) == (Count(date) + 4) % 7 + 1 <==>
              date.year >= 1 || date.month >= 3
  {
    hide Days, YearTerm, MonthTerm, GetWeekDay;
    var y, m, d := date.year, date.month, date.day;
    CountModSeven(y, m, d);
    if m < 3 && y == 0 {
      WeekDayIs(y, m, d, 0xFFFF);
      WrappedYear(d + MonthTerm(m) - 1);
    } else {
      WeekDayIs(y, m, d, if m < 3 then y - 1 else y);
    }
  }

  lemma WeekDayIs(y: nat, m: nat, d: nat, shifted: int)
    requires y < 0x1_0000 && 1 <= m <= 12 && shifted == if m < 3 then (y - 1) % 0x1_0000 else y
    ensures GetWeekDay(y, m, d) == (d + MonthTerm(m) + YearTerm(shifted) - 1) % 7 + 1
  {
    hide GetWeekDay, MonthTerm, YearTerm;
    Formula(y, m, d, shifted);
    FromOne(d + MonthTerm(m) + YearTerm(shifted));
  }

  lemma Formula(y: nat, m: nat, d: nat, shifted: int)
    requires y < 0x1_0000 && 1 <= m <= 12 && shifted == if m < 3 then (y - 1) % 0x1_0000 else y
    ensures GetWeekDay(y, m, d) ==
              var h := (d + MonthTerm(m) + YearTerm(shifted)) % 7; if h == 0 then 7 else h
  {
    var k, j := shifted % 100, shifted / 100;
    assert d + MonthTerm(m) + YearTerm(shifted) == d + MonthTerm(m) + k + k / 4 + j / 4 + 5 * j;
  }

  lemma FromOne(x: int)
    ensures (if x % 7 == 0 then 7 else x % 7) == (x - 1) % 7 + 1
  {
  }

  /** Year 65535 is taken for year -1, four days of the week off. */
  lemma WrappedYear(x: int)
    ensures (x + YearTerm(0xFFFF)) % 7 != (x + YearTerm(-1)) % 7
  {
    assert YearTerm(-1) == 117 && YearTerm(0xFFFF) == 3481;
    Congruent(x + 3481, x + 117 + 4, 480);
  }

  /** 1 January of year 0 is a Saturday; the formula makes it a Wednesday. */
  lemma YearZero()
    ensures (Count(Date(0, 1, 1)) + 4) % 7 + 1 == 7 && GetWeekDay(0, 1, 1) == 4
  {
    hide GetWeekDay, Days;
    FirstDay();
    WeekDayIs(0, 1, 1, 0xFFFF);
    assert MonthTerm(1) == 36 && YearTerm(0xFFFF) == 3481;
  }

  lemma FirstDay()
    ensures Days(0, 1, 1) == -719528
  {
    Leaps1969();
    assert Leaps(-1) == -1;
  }
}
