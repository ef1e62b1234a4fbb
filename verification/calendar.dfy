/** A proleptic Gregorian (ISO-8601) calendar date, re-derived from the
    calendar rules: leap years, days per month, a day count from
    1970-01-01 and the ISO day of the week computed from that count. */
module Calendar {

  /** The one failure of date construction: the triple names no real day. */
  datatype DateError = InvalidDate(year: int, month: int, day: int)

  datatype Result<T> = Ok(value: T) | Err(error: DateError)

  /** ISO day of the week, numbered 1 for Monday through 7 for Sunday. */
  type DayOfWeek = v: int | 1 <= v <= 7 witness 1

  const Monday: DayOfWeek := 1
  const Tuesday: DayOfWeek := 2
  const Wednesday: DayOfWeek := 3
  const Thursday: DayOfWeek := 4
  const Friday: DayOfWeek := 5
  const Saturday: DayOfWeek := 6
  const Sunday: DayOfWeek := 7

  predicate IsWeekend(w: DayOfWeek) {
    w == Saturday || w == Sunday
  }

  /** The Gregorian leap rule: every fourth year, except centuries, except
      every fourth century. */
  predicate IsLeapYear(y: int): (leap: bool)
    ensures y % 4 != 0 ==> !leap
    ensures y % 4 == 0 && y % 100 != 0 ==> leap
    ensures y % 100 == 0 ==> (leap <==> y % 400 == 0)
  {
    y % 4 == 0 && (y % 100 != 0 || y % 400 == 0)
  }

  function DaysInMonth(y: int, m: int): (n: int)
    requires 1 <= m <= 12
    ensures 28 <= n <= 31
    ensures n == 29 <==> m == 2 && IsLeapYear(y)
    ensures n == 28 <==> m == 2 && !IsLeapYear(y)
  {
    if m == 2 then (if IsLeapYear(y) then 29 else 28)
    else if m == 4 || m == 6 || m == 9 || m == 11 then 30
    else 31
  }

  function DaysInYear(y: int): (n: int)
    ensures n == 365 || n == 366
    ensures n == 366 <==> IsLeapYear(y)
  {
    if IsLeapYear(y) then 366 else 365
  }

  datatype Date = Date(year: int, month: int, day: int)
  {
    /** The triple denotes a real day of the proleptic Gregorian calendar. */
    predicate Valid() {
      1 <= month <= 12 && 1 <= day <= DaysInMonth(year, month)
    }
  }

  /** Builds a date from year, month and day, failing on a triple that names
      no real day (day 30 of February, day 31 of April, month 13). */
  function Of(year: int, month: int, day: int): (r: Result<Date>)
    ensures r.Ok? <==> 1 <= month <= 12 && 1 <= day && (month == 2 ==> day <= 28 || (day == 29 && IsLeapYear(year)))
                         && (month in {4, 6, 9, 11} ==> day <= 30) && day <= 31
    ensures r.Ok? ==> r.value.Valid() && r.value.year == year && r.value.month == month && r.value.day == day
    ensures r.Err? ==> r.error == InvalidDate(year, month, day)
  {
    var d := Date(year, month, day);
    if d.Valid() then Ok(d) else Err(InvalidDate(year, month, day))
  }

  /** Days in the proleptic years 0 .. y-1 (negative when y < 0); the
      divisions round toward negative infinity, which counts the leap years
      in that range for every sign of y. */
  function DaysBeforeYear(y: int): (n: int)
    ensures y == 1970 ==> n == Days0000To1970
  {
    365 * y + (y + 3) / 4 - (y + 99) / 100 + (y + 399) / 400
  }

  /** Days from 0000-01-01 to 1970-01-01. */
  const Days0000To1970: int := 719528

  /** Days in the months of year y before month m. */
  function DaysBeforeMonth(y: int, m: int): (n: int)
    requires 1 <= m <= 12
    ensures 0 <= n <= 335
  {
    [0, 31, 59, 90, 120, 151, 181, 212, 243, 273, 304, 334][m - 1]
      + (if m > 2 && IsLeapYear(y) then 1 else 0)
  }

  lemma DivisibilityStep(y: int)
    ensures (y + 4) / 4 - (y + 3) / 4 == (if y % 4 == 0 then 1 else 0)
    ensures (y + 100) / 100 - (y + 99) / 100 == (if y % 100 == 0 then 1 else 0)
    ensures (y + 400) / 400 - (y + 399) / 400 == (if y % 400 == 0 then 1 else 0)
  {
    var q4, q100, q400 := y / 4, y / 100, y / 400;
    assert (y + 4) / 4 == q4 + 1;
    assert (y + 3) / 4 == if y % 4 == 0 then q4 else q4 + 1;
    assert (y + 100) / 100 == q100 + 1;
    assert (y + 99) / 100 == if y % 100 == 0 then q100 else q100 + 1;
    assert (y + 400) / 400 == q400 + 1;
    assert (y + 399) / 400 == if y % 400 == 0 then q400 else q400 + 1;
  }

  /** Each year adds exactly its own length to the running day count. */
  lemma DaysBeforeYearStep(y: int)
    ensures DaysBeforeYear(y + 1) == DaysBeforeYear(y) + DaysInYear(y)
  {
    DivisibilityStep(y);
    Divides(y);
    var s4 := if y % 4 == 0 then 1 else 0;
    var s100 := if y % 100 == 0 then 1 else 0;
    var s400 := if y % 400 == 0 then 1 else 0;
    assert DaysBeforeYear(y + 1) - DaysBeforeYear(y) == 365 + s4 - s100 + s400;
    assert s4 - s100 + s400 == if IsLeapYear(y) then 1 else 0;
  }

  lemma Divides(y: int)
    ensures y % 400 == 0 ==> y % 100 == 0
    ensures y % 100 == 0 ==> y % 4 == 0
  {
    if y % 400 == 0 {
      MultipleHasNoRemainder(y, 100, 4 * (y / 400));
    }
    if y % 100 == 0 {
      MultipleHasNoRemainder(y, 4, 25 * (y / 100));
    }
  }

  lemma MultipleHasNoRemainder(y: int, k: int, q: int)
    requires k == 4 || k == 100
    requires y == k * q
    ensures y % k == 0
  {
    var d, m := y / k, y % k;
    assert y == k * d + m && 0 <= m < k;
    if k == 4 {
      assert 4 * (q - d) == m;
    } else {
      assert 100 * (q - d) == m;
    }
  }

  lemma {:induction false} DaysBeforeYearMonotone(y1: int, y2: int)
    requires y1 < y2
    ensures DaysBeforeYear(y1) + DaysInYear(y1) <= DaysBeforeYear(y2)
    decreases y2 - y1
  {
    DaysBeforeYearStep(y1);
    if y1 + 1 < y2 {
      DaysBeforeYearMonotone(y1 + 1, y2);
    }
  }

  /** Each month adds exactly its own length to the running day count. */
  lemma DaysBeforeMonthStep(y: int, m: int)
    requires 1 <= m < 12
    ensures DaysBeforeMonth(y, m + 1) == DaysBeforeMonth(y, m) + DaysInMonth(y, m)
  {
  }

  lemma DecemberEndsYear(y: int)
    ensures DaysBeforeMonth(y, 12) + DaysInMonth(y, 12) == DaysInYear(y)
  {
  }

  lemma {:induction false} DaysBeforeMonthMonotone(y: int, m1: int, m2: int)
    requires 1 <= m1 < m2 <= 12
    ensures DaysBeforeMonth(y, m1) + DaysInMonth(y, m1) <= DaysBeforeMonth(y, m2)
    decreases m2 - m1
  {
    DaysBeforeMonthStep(y, m1);
    if m1 + 1 < m2 {
      DaysBeforeMonthMonotone(y, m1 + 1, m2);
    }
  }

  /** Every month ends inside its year. */
  lemma MonthFitsYear(y: int, m: int)
    requires 1 <= m <= 12
    ensures DaysBeforeMonth(y, m) + DaysInMonth(y, m) <= DaysInYear(y)
  {
    if m < 12 {
      DaysBeforeMonthMonotone(y, m, 12);
    }
    DecemberEndsYear(y);
  }

  /** The number of days from 1970-01-01 to d (negative before it). */
  function EpochDay(d: Date): (n: int)
    requires d.Valid()
    ensures DaysBeforeYear(d.year) - Days0000To1970 <= n
    ensures n < DaysBeforeYear(d.year) + DaysInYear(d.year) - Days0000To1970
  {
    MonthFitsYear(d.year, d.month);
    DaysBeforeYear(d.year) + DaysBeforeMonth(d.year, d.month) + d.day - 1 - Days0000To1970
  }

  /** Integer division as Java's `/` performs it: truncated toward zero. */
  function JavaDiv(a: int, b: int): int
    requires b != 0
  {
    var q := (if a < 0 then -a else a) / (if b < 0 then -b else b);
    if (a < 0) == (b < 0) then q else -q
  }

  /** java.time's own day-count formula for a valid date: a separate leap-year
      count for negative years, a month estimate (367 * m - 362) / 12 with a
      correction after February, all with Java's truncating division. */
  function JdkToEpochDay(d: Date): int
    requires d.Valid()
  {
    var y := d.year;
    var m := d.month;
    var leapDays :=
      if y >= 0 then JavaDiv(y + 3, 4) - JavaDiv(y + 99, 100) + JavaDiv(y + 399, 400)
      else -(JavaDiv(y, -4) - JavaDiv(y, -100) + JavaDiv(y, -400));
    var afterFebruary := if m > 2 then (if IsLeapYear(y) then 1 else 2) else 0;
    365 * y + leapDays + JavaDiv(367 * m - 362, 12) + d.day - 1 - afterFebruary - Days0000To1970
  }

  /** Floor division of y + k - 1 is minus the floor division of -y. */
  lemma RoundUpByNegation(y: int)
    ensures (y + 3) / 4 == -((-y) / 4)
    ensures (y + 99) / 100 == -((-y) / 100)
    ensures (y + 399) / 400 == -((-y) / 400)
  {
    var q4, r4 := (-y) / 4, (-y) % 4;
    assert y + 3 == 4 * -q4 + (3 - r4);
    var q100, r100 := (-y) / 100, (-y) % 100;
    assert y + 99 == 100 * -q100 + (99 - r100);
    var q400, r400 := (-y) / 400, (-y) % 400;
    assert y + 399 == 400 * -q400 + (399 - r400);
  }

  /** The leap days java.time counts before year y, for either sign of y,
      are the ones DaysBeforeYear counts. */
  lemma JdkLeapDays(y: int)
    ensures DaysBeforeYear(y) == 365 * y +
      (if y >= 0 then JavaDiv(y + 3, 4) - JavaDiv(y + 99, 100) + JavaDiv(y + 399, 400)
       else -(JavaDiv(y, -4) - JavaDiv(y, -100) + JavaDiv(y, -400)))
  {
    if y < 0 {
      RoundUpByNegation(y);
    }
  }

  /** java.time's month estimate and its correction give DaysBeforeMonth. */
  lemma JdkMonthDays(y: int, m: int)
    requires 1 <= m <= 12
    ensures DaysBeforeMonth(y, m) ==
      JavaDiv(367 * m - 362, 12) - (if m > 2 then (if IsLeapYear(y) then 1 else 2) else 0)
  {
  }

  /** EpochDay is the day count java.time's LocalDate.toEpochDay computes. */
  lemma EpochDayIsJdkFormula(d: Date)
    requires d.Valid()
    ensures EpochDay(d) == JdkToEpochDay(d)
  {
    JdkLeapDays(d.year);
    JdkMonthDays(d.year, d.month);
  }

  /** The Gregorian calendar repeats every 400 years, which hold 146097 days. */
  lemma FourHundredYearCycle(y: int)
    ensures IsLeapYear(y + 400) == IsLeapYear(y)
    ensures DaysBeforeYear(y + 400) == DaysBeforeYear(y) + 146097
  {
    assert (y + 403) / 4 == (y + 3) / 4 + 100;
    assert (y + 499) / 100 == (y + 99) / 100 + 4;
    assert (y + 799) / 400 == (y + 399) / 400 + 1;
  }

  /** The ISO day of the week of d, computed as java.time does from the day
      count (1970-01-01 was a Thursday); equivalently, the days elapsed since
      Monday 1970-01-05, modulo 7, plus one. */
  function GetDayOfWeek(d: Date): (w: DayOfWeek)
    requires d.Valid()
    ensures w == (EpochDay(d) - EpochDay(Date(1970, 1, 5))) % 7 + 1
  {
    ModSevenShift(EpochDay(d) - 4, 1);
    (EpochDay(d) + 3) % 7 + 1
  }

  /** Calendar order: year first, then month, then day. */
  predicate IsBefore(a: Date, b: Date) {
    a.year < b.year
    || (a.year == b.year && (a.month < b.month || (a.month == b.month && a.day < b.day)))
  }

  /** The day count is strictly increasing along the calendar order. */
  lemma EpochDayMonotone(a: Date, b: Date)
    requires a.Valid() && b.Valid() && IsBefore(a, b)
    ensures EpochDay(a) < EpochDay(b)
  {
    if a.year < b.year {
      DaysBeforeYearMonotone(a.year, b.year);
    } else if a.month < b.month {
      DaysBeforeMonthMonotone(a.year, a.month, b.month);
    }
  }

  /** Calendar order and day-count order agree on valid dates. */
  lemma EpochDayOrder(a: Date, b: Date)
    requires a.Valid() && b.Valid()
    ensures IsBefore(a, b) <==> EpochDay(a) < EpochDay(b)
    ensures EpochDay(a) == EpochDay(b) <==> a == b
  {
    if IsBefore(a, b) {
      EpochDayMonotone(a, b);
    } else if IsBefore(b, a) {
      EpochDayMonotone(b, a);
    } else {
      assert a == b;
    }
  }

  /** The day after d. */
  function NextDay(d: Date): (r: Date)
    requires d.Valid()
    ensures r.Valid() && EpochDay(r) == EpochDay(d) + 1
  {
    if d.day < DaysInMonth(d.year, d.month) then
      Date(d.year, d.month, d.day + 1)
    else if d.month < 12 then
      DaysBeforeMonthStep(d.year, d.month);
      Date(d.year, d.month + 1, 1)
    else
      DaysBeforeYearStep(d.year);
      DecemberEndsYear(d.year);
      Date(d.year + 1, 1, 1)
  }

  /** The day before d. */
  function PrevDay(d: Date): (r: Date)
    requires d.Valid()
    ensures r.Valid() && EpochDay(r) == EpochDay(d) - 1
  {
    if d.day > 1 then
      Date(d.year, d.month, d.day - 1)
    else if d.month > 1 then
      DaysBeforeMonthStep(d.year, d.month - 1);
      Date(d.year, d.month - 1, DaysInMonth(d.year, d.month - 1))
    else
      DaysBeforeYearStep(d.year - 1);
      DecemberEndsYear(d.year - 1);
      Date(d.year - 1, 12, 31)
  }

  /** Every day count names some valid date: walk from 1970-01-01 one day
      at a time. */
  lemma {:induction false} EpochDayOnto(k: int)
    ensures exists r: Date :: r.Valid() && EpochDay(r) == k
    decreases if k < 0 then -k else k
  {
    if k == 0 {
      assert Date(1970, 1, 1).Valid() && EpochDay(Date(1970, 1, 1)) == 0;
    } else if k > 0 {
      EpochDayOnto(k - 1);
      var r: Date :| r.Valid() && EpochDay(r) == k - 1;
      assert NextDay(r).Valid() && EpochDay(NextDay(r)) == k;
    } else {
      EpochDayOnto(k + 1);
      var r: Date :| r.Valid() && EpochDay(r) == k + 1;
      assert PrevDay(r).Valid() && EpochDay(PrevDay(r)) == k;
    }
  }

  /** The valid date whose day count is k (unique, by EpochDayOrder). */
  ghost function FromEpochDay(k: int): (r: Date)
    ensures r.Valid() && EpochDay(r) == k
  {
    EpochDayOnto(k);
    var r: Date :| r.Valid() && EpochDay(r) == k;
    r
  }

  /** d moved by n days, forward when n > 0 and backward when n < 0. */
  ghost function PlusDays(d: Date, n: int): (r: Date)
    requires d.Valid()
    ensures r.Valid() && EpochDay(r) == EpochDay(d) + n
  {
    FromEpochDay(EpochDay(d) + n)
  }

  /** A date is determined by its day count: PlusDays(d, n) is the only
      valid date n days from d, and moving forward means moving later. */
  lemma PlusDaysUnique(d: Date, n: int, e: Date)
    requires d.Valid() && e.Valid()
    ensures EpochDay(e) == EpochDay(d) + n <==> e == PlusDays(d, n)
    ensures n > 0 ==> IsBefore(d, PlusDays(d, n))
  {
    EpochDayOrder(e, PlusDays(d, n));
    EpochDayOrder(d, PlusDays(d, n));
  }

  /** Moving by n days advances the weekday by n modulo 7. */
  lemma GetDayOfWeekPlusDays(d: Date, n: int)
    requires d.Valid()
    ensures GetDayOfWeek(PlusDays(d, n)) == (GetDayOfWeek(d) - 1 + n) % 7 + 1
  {
    var e := EpochDay(d);
    assert EpochDay(PlusDays(d, n)) == e + n;
    assert ((e + 3) % 7 + n) % 7 == (e + 3 + n) % 7 by {
      ModSevenShift((e + 3) % 7 + n, (e + 3) / 7);
    }
  }

  /** Two valid dates k days apart have weekdays k apart modulo 7. */
  lemma GetDayOfWeekDistance(d: Date, e: Date)
    requires d.Valid() && e.Valid()
    ensures GetDayOfWeek(e) == (GetDayOfWeek(d) - 1 + (EpochDay(e) - EpochDay(d))) % 7 + 1
  {
    var x := EpochDay(d);
    var k := EpochDay(e) - x;
    assert ((x + 3) % 7 + k) % 7 == (x + 3 + k) % 7 by {
      ModSevenShift((x + 3) % 7 + k, (x + 3) / 7);
    }
  }

  lemma ModSevenShift(x: int, q: int)
    ensures (7 * q + x) % 7 == x % 7
  {
  }

  /** The day count's anchor points. */
  lemma EpochAnchors()
    ensures EpochDay(Date(1970, 1, 1)) == 0
    ensures GetDayOfWeek(Date(1970, 1, 5)) == Monday
    ensures GetDayOfWeek(Date(1970, 1, 1)) == Thursday
    ensures GetDayOfWeek(Date(1997, 8, 29)) == Friday
    ensures GetDayOfWeek(Date(2015, 11, 18)) == Wednesday
  {
  }
}
