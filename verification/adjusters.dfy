/** Date adjusters: the six library adjusters the kata relies on
    (first and last day of the month, first day of the next month, the next
    given weekday, first day of this and of the next year), the
    next-or-same-Sunday adjuster and the two-business-day shipping rule.
    Each is a plain function from a valid date to a valid date. */
module Adjusters {
  import opened Calendar

  /** Day 1 of d's month. */
  function FirstDayOfMonth(d: Date): (r: Date)
    requires d.Valid()
    ensures r.Valid() && r.year == d.year && r.month == d.month && r.day == 1
    ensures !IsBefore(d, r) && EpochDay(d) - EpochDay(r) == d.day - 1
    ensures PrevDay(r).month != r.month
  {
    Date(d.year, d.month, 1)
  }

  /** The last valid day of d's month, leap years included. */
  function LastDayOfMonth(d: Date): (r: Date)
    requires d.Valid()
    ensures r.Valid() && r.year == d.year && r.month == d.month
    ensures !IsBefore(r, d) && EpochDay(r) - EpochDay(d) == DaysInMonth(d.year, d.month) - d.day
    ensures NextDay(r).month != r.month
  {
    Date(d.year, d.month, DaysInMonth(d.year, d.month))
  }

  /** Day 1 of the month after d's, in the next year after December. */
  function FirstDayOfNextMonth(d: Date): (r: Date)
    requires d.Valid()
    ensures r.Valid() && r.day == 1 && IsBefore(d, r)
    ensures r == NextDay(LastDayOfMonth(d))
  {
    if d.month == 12 then Date(d.year + 1, 1, 1) else Date(d.year, d.month + 1, 1)
  }

  /** The first day of the next month is one day after the last day of this one. */
  lemma FirstDayOfNextMonthFollowsLastDay(d: Date)
    requires d.Valid()
    ensures FirstDayOfNextMonth(d) == PlusDays(LastDayOfMonth(d), 1)
  {
    PlusDaysUnique(LastDayOfMonth(d), 1, FirstDayOfNextMonth(d));
  }

  /** January 1 of d's year. */
  function FirstDayOfYear(d: Date): (r: Date)
    requires d.Valid()
    ensures r.Valid() && r.year == d.year && r.month == 1 && r.day == 1 && !IsBefore(d, r)
    ensures EpochDay(d) - EpochDay(r) == DaysBeforeMonth(d.year, d.month) + d.day - 1
    ensures PrevDay(r).year == d.year - 1
  {
    Date(d.year, 1, 1)
  }

  /** January 1 of the year after d's. */
  function FirstDayOfNextYear(d: Date): (r: Date)
    requires d.Valid()
    ensures r.Valid() && r.year == d.year + 1 && r.month == 1 && r.day == 1 && IsBefore(d, r)
    ensures EpochDay(r) == EpochDay(FirstDayOfYear(d)) + DaysInYear(d.year)
    ensures PrevDay(r).year == d.year
  {
    DaysBeforeYearStep(d.year);
    Date(d.year + 1, 1, 1)
  }

  /** Going back a whole year's length from the first day of the next year
      lands on the first day of this year (365 days for a common year). */
  lemma FirstDayOfYearIsYearBeforeNext(d: Date)
    requires d.Valid()
    ensures FirstDayOfYear(d) == PlusDays(FirstDayOfNextYear(d), -DaysInYear(d.year))
  {
    PlusDaysUnique(FirstDayOfNextYear(d), -DaysInYear(d.year), FirstDayOfYear(d));
  }

  /** Days to add to a date of weekday calDow to reach the next weekday
      dowValue strictly later: one to seven days, landing on dowValue. */
  function DaysToNext(calDow: DayOfWeek, dowValue: DayOfWeek): (n: int)
    ensures 1 <= n <= 7
    ensures (calDow - 1 + n) % 7 + 1 == dowValue
  {
    var daysDiff := calDow - dowValue;
    if daysDiff >= 0 then 7 - daysDiff else -daysDiff
  }

  /** No step shorter than DaysToNext lands on dowValue. */
  lemma DaysToNextIsShortest(calDow: DayOfWeek, dowValue: DayOfWeek, k: int)
    requires 1 <= k < DaysToNext(calDow, dowValue)
    ensures (calDow - 1 + k) % 7 + 1 != dowValue
  {
    if calDow - 1 + k >= 7 {
      assert (calDow - 1 + k) % 7 == calDow - 1 + k - 7;
    }
  }

  /** Moving d forward by DaysToNext lands on weekday w. */
  lemma DaysToNextLandsOn(d: Date, w: DayOfWeek)
    requires d.Valid()
    ensures GetDayOfWeek(PlusDays(d, DaysToNext(GetDayOfWeek(d), w))) == w
  {
    GetDayOfWeekPlusDays(d, DaysToNext(GetDayOfWeek(d), w));
  }

  /** The first date strictly after d whose weekday is w. */
  ghost function Next(d: Date, w: DayOfWeek): (r: Date)
    requires d.Valid()
    ensures r.Valid() && GetDayOfWeek(r) == w
    ensures IsBefore(d, r) && EpochDay(r) - EpochDay(d) <= 7
  {
    var n := DaysToNext(GetDayOfWeek(d), w);
    DaysToNextLandsOn(d, w);
    PlusDaysUnique(d, n, PlusDays(d, n));
    PlusDays(d, n)
  }

  /** A date strictly between d and Next(d, w) lies fewer than
      DaysToNext days after d. */
  lemma BetweenIsWithinGap(d: Date, w: DayOfWeek, e: Date)
    requires d.Valid() && e.Valid()
    requires IsBefore(d, e) && IsBefore(e, Next(d, w))
    ensures 1 <= EpochDay(e) - EpochDay(d) < DaysToNext(GetDayOfWeek(d), w)
    ensures e == PlusDays(d, EpochDay(e) - EpochDay(d))
  {
    EpochDayOrder(d, e);
    EpochDayOrder(e, Next(d, w));
    PlusDaysUnique(d, EpochDay(e) - EpochDay(d), e);
  }

  /** No date strictly between d and Next(d, w) falls on w. */
  lemma NextIsFirst(d: Date, w: DayOfWeek, e: Date)
    requires d.Valid() && e.Valid()
    requires IsBefore(d, e) && IsBefore(e, Next(d, w))
    ensures GetDayOfWeek(e) != w
  {
    var c := GetDayOfWeek(d);
    var k := EpochDay(e) - EpochDay(d);
    assert 1 <= k < DaysToNext(c, w) by {
      BetweenIsWithinGap(d, w, e);
    }
    DaysToNextIsShortest(c, w, k);
    GetDayOfWeekDistance(d, e);
  }

  /** d itself when its weekday is w, otherwise the first later date on w. */
  ghost function NextOrSame(d: Date, w: DayOfWeek): (r: Date)
    requires d.Valid()
    ensures r.Valid() && GetDayOfWeek(r) == w && !IsBefore(r, d)
    ensures r == d <==> GetDayOfWeek(d) == w
    ensures GetDayOfWeek(d) != w ==> r == Next(d, w)
  {
    var calDow := GetDayOfWeek(d);
    if calDow == w then
      d
    else
      Next(d, w)
  }

  /** No date from d up to (and excluding) NextOrSame(d, w) falls on w. */
  lemma NextOrSameIsFirst(d: Date, w: DayOfWeek, e: Date)
    requires d.Valid() && e.Valid()
    requires !IsBefore(e, d) && IsBefore(e, NextOrSame(d, w))
    ensures GetDayOfWeek(e) != w
  {
    if e != d {
      NextIsFirst(d, w, e);
    }
  }

  /** The kata's adjuster: the date itself on a Sunday, else the next Sunday. */
  ghost function NextOrSameSunday(d: Date): (r: Date)
    requires d.Valid()
    ensures r.Valid() && GetDayOfWeek(r) == Sunday
    ensures GetDayOfWeek(d) == Sunday ==> r == d
    ensures GetDayOfWeek(d) != Sunday ==> r == Next(d, Sunday)
    ensures 0 <= EpochDay(r) - EpochDay(d) <= 6
  {
    EpochDayOrder(d, NextOrSame(d, Sunday));
    NextOrSame(d, Sunday)
  }

  /** The two-business-day shipping rule: Monday to Wednesday orders ship
      two calendar days later, Thursday orders the next Monday and Friday to
      Sunday orders the next Tuesday. */
  ghost function ShippingDate(d: Date): (r: Date)
    requires d.Valid()
    ensures r.Valid() && IsBefore(d, r) && EpochDay(r) - EpochDay(d) <= 4
    ensures !IsWeekend(GetDayOfWeek(r))
  {
    var dayOfWeekValue := GetDayOfWeek(d);
    if dayOfWeekValue < 4 then
      GetDayOfWeekPlusDays(d, 2);
      PlusDaysUnique(d, 2, PlusDays(d, 2));
      PlusDays(d, 2)
    else if dayOfWeekValue == 4 then
      Next(d, Monday)
    else
      Next(d, Tuesday)
  }

  /** Monday, Tuesday and Wednesday orders ship exactly two calendar days
      later, on Wednesday, Thursday and Friday; no weekend is skipped. */
  lemma ShippingEarlyWeek(d: Date)
    requires d.Valid() && GetDayOfWeek(d) < 4
    ensures ShippingDate(d) == PlusDays(d, 2)
    ensures GetDayOfWeek(ShippingDate(d)) == GetDayOfWeek(d) + 2
  {
    GetDayOfWeekPlusDays(d, 2);
  }

  /** Thursday orders ship on the first Monday after the order, four days later. */
  lemma ShippingThursday(d: Date)
    requires d.Valid() && GetDayOfWeek(d) == Thursday
    ensures GetDayOfWeek(ShippingDate(d)) == Monday
    ensures ShippingDate(d) == PlusDays(d, 4)
    ensures forall e: Date :: e.Valid() && IsBefore(d, e) && IsBefore(e, ShippingDate(d)) ==> GetDayOfWeek(e) != Monday
  {
    forall e: Date | e.Valid() && IsBefore(d, e) && IsBefore(e, ShippingDate(d))
      ensures GetDayOfWeek(e) != Monday
    {
      NextIsFirst(d, Monday, e);
    }
  }

  /** Friday, Saturday and Sunday orders ship on the first Tuesday after the
      order: four, three and two days later. */
  lemma ShippingLateWeek(d: Date)
    requires d.Valid() && GetDayOfWeek(d) >= 5
    ensures GetDayOfWeek(ShippingDate(d)) == Tuesday
    ensures EpochDay(ShippingDate(d)) - EpochDay(d) == 9 - GetDayOfWeek(d)
    ensures forall e: Date :: e.Valid() && IsBefore(d, e) && IsBefore(e, ShippingDate(d)) ==> GetDayOfWeek(e) != Tuesday
  {
    forall e: Date | e.Valid() && IsBefore(d, e) && IsBefore(e, ShippingDate(d))
      ensures GetDayOfWeek(e) != Tuesday
    {
      NextIsFirst(d, Tuesday, e);
    }
  }
}
