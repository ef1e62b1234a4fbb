/** The kata's concrete expectations, stated over the model: the six library
    adjusters applied to 1997-08-29, next-or-same-Sunday on three dates, and
    the shipping rule on the week that follows 2015-11-18. */
module Scenarios {
  import opened Calendar
  import opened Adjusters

  /** First and last day of the month of Friday 1997-08-29: 28 days before
      and 2 days after it. */
  lemma MonthBoundsSample()
    ensures Of(1997, 8, 29) == Ok(Date(1997, 8, 29))
    ensures GetDayOfWeek(Date(1997, 8, 29)) == Friday
    ensures FirstDayOfMonth(Date(1997, 8, 29)) == Date(1997, 8, 1)
    ensures LastDayOfMonth(Date(1997, 8, 29)) == PlusDays(Date(1997, 8, 29), 2)
    ensures LastDayOfMonth(Date(1997, 8, 29)) == Date(1997, 8, 31)
  {
    PlusDaysUnique(Date(1997, 8, 29), 2, Date(1997, 8, 31));
  }

  /** The first day of the month after 1997-08-29 is 1997-09-01. */
  lemma NextMonthSample()
    ensures FirstDayOfNextMonth(Date(1997, 8, 29)) == Date(1997, 9, 1)
  {
  }

  /** The next Wednesday after Friday 1997-08-29 is five days later, 1997-09-03. */
  lemma NextWednesdaySample()
    ensures Next(Date(1997, 8, 29), Wednesday) == PlusDays(Date(1997, 8, 29), 5)
    ensures Next(Date(1997, 8, 29), Wednesday) == Date(1997, 9, 3)
  {
    var d := Date(1997, 8, 29);
    assert GetDayOfWeek(d) == Friday;
    assert Next(d, Wednesday) == PlusDays(d, 5);
    PlusDaysUnique(d, 5, Date(1997, 9, 3));
  }

  /** The first day of the next year after 1997-08-29 is 1998-01-01, and the
      first day of its year is 365 days before that, 1997 being a common year. */
  lemma YearBoundsSample()
    ensures FirstDayOfNextYear(Date(1997, 8, 29)) == Date(1998, 1, 1)
    ensures FirstDayOfYear(Date(1997, 8, 29)) == PlusDays(Date(1998, 1, 1), -365)
  {
    var d := Date(1997, 8, 29);
    assert DaysInYear(1997) == 365;
    FirstDayOfYearIsYearBeforeNext(d);
  }

  /** Next-or-same-Sunday on the kata's three sample dates. */
  lemma NextOrSameSundaySamples()
    ensures NextOrSameSunday(Date(1997, 8, 29)) == Date(1997, 8, 31)
    ensures NextOrSameSunday(Date(2015, 1, 1)) == Date(2015, 1, 4)
    ensures NextOrSameSunday(Date(2015, 1, 4)) == Date(2015, 1, 4)
  {
    assert GetDayOfWeek(Date(1997, 8, 29)) == Friday;
    assert NextOrSameSunday(Date(1997, 8, 29)) == PlusDays(Date(1997, 8, 29), 2);
    PlusDaysUnique(Date(1997, 8, 29), 2, Date(1997, 8, 31));
    assert GetDayOfWeek(Date(2015, 1, 1)) == Thursday;
    assert NextOrSameSunday(Date(2015, 1, 1)) == PlusDays(Date(2015, 1, 1), 3);
    PlusDaysUnique(Date(2015, 1, 1), 3, Date(2015, 1, 4));
    assert GetDayOfWeek(Date(2015, 1, 4)) == Sunday;
  }

  /** From Wednesday 2015-11-18, the next Monday to Wednesday fall in the
      following week. */
  lemma NextEarlyWeekSamples()
    ensures Next(Date(2015, 11, 18), Monday) == Date(2015, 11, 23)
    ensures Next(Date(2015, 11, 18), Tuesday) == Date(2015, 11, 24)
    ensures Next(Date(2015, 11, 18), Wednesday) == Date(2015, 11, 25)
  {
    var base := Date(2015, 11, 18);
    assert GetDayOfWeek(base) == Wednesday;
    assert Next(base, Monday) == PlusDays(base, 5);
    assert Next(base, Tuesday) == PlusDays(base, 6);
    assert Next(base, Wednesday) == PlusDays(base, 7);
    PlusDaysUnique(base, 5, Date(2015, 11, 23));
    PlusDaysUnique(base, 6, Date(2015, 11, 24));
    PlusDaysUnique(base, 7, Date(2015, 11, 25));
  }

  /** From Wednesday 2015-11-18, the next Thursday to Sunday fall in the same week. */
  lemma NextLateWeekSamples()
    ensures Next(Date(2015, 11, 18), Thursday) == Date(2015, 11, 19)
    ensures Next(Date(2015, 11, 18), Friday) == Date(2015, 11, 20)
    ensures Next(Date(2015, 11, 18), Saturday) == Date(2015, 11, 21)
    ensures Next(Date(2015, 11, 18), Sunday) == Date(2015, 11, 22)
  {
    var base := Date(2015, 11, 18);
    assert GetDayOfWeek(base) == Wednesday;
    assert Next(base, Thursday) == PlusDays(base, 1);
    assert Next(base, Friday) == PlusDays(base, 2);
    assert Next(base, Saturday) == PlusDays(base, 3);
    assert Next(base, Sunday) == PlusDays(base, 4);
    PlusDaysUnique(base, 1, Date(2015, 11, 19));
    PlusDaysUnique(base, 2, Date(2015, 11, 20));
    PlusDaysUnique(base, 3, Date(2015, 11, 21));
    PlusDaysUnique(base, 4, Date(2015, 11, 22));
  }

  /** Orders placed Monday 2015-11-23 to Wednesday 2015-11-25 ship on the
      Wednesday to Friday of the same week. */
  lemma ShippingEarlyWeekSamples()
    ensures ShippingDate(Date(2015, 11, 23)) == Date(2015, 11, 25)
    ensures ShippingDate(Date(2015, 11, 24)) == Date(2015, 11, 26)
    ensures ShippingDate(Date(2015, 11, 25)) == Date(2015, 11, 27)
    ensures GetDayOfWeek(Date(2015, 11, 25)) == Wednesday
    ensures GetDayOfWeek(Date(2015, 11, 26)) == Thursday
    ensures GetDayOfWeek(Date(2015, 11, 27)) == Friday
  {
    assert GetDayOfWeek(Date(2015, 11, 23)) == Monday;
    assert GetDayOfWeek(Date(2015, 11, 24)) == Tuesday;
    assert GetDayOfWeek(Date(2015, 11, 25)) == Wednesday;
    PlusDaysUnique(Date(2015, 11, 23), 2, Date(2015, 11, 25));
    PlusDaysUnique(Date(2015, 11, 24), 2, Date(2015, 11, 26));
    PlusDaysUnique(Date(2015, 11, 25), 2, Date(2015, 11, 27));
  }

  /** The Thursday 2015-11-19 order ships on Monday 2015-11-23. */
  lemma ShippingThursdaySample()
    ensures ShippingDate(Date(2015, 11, 19)) == Date(2015, 11, 23)
    ensures GetDayOfWeek(Date(2015, 11, 23)) == Monday
  {
    assert GetDayOfWeek(Date(2015, 11, 19)) == Thursday;
    assert ShippingDate(Date(2015, 11, 19)) == PlusDays(Date(2015, 11, 19), 4);
    PlusDaysUnique(Date(2015, 11, 19), 4, Date(2015, 11, 23));
  }

  /** The Friday, Saturday and Sunday orders of that week all ship on
      Tuesday 2015-11-24. */
  lemma ShippingLateWeekSamples()
    ensures ShippingDate(Date(2015, 11, 20)) == Date(2015, 11, 24)
    ensures ShippingDate(Date(2015, 11, 21)) == Date(2015, 11, 24)
    ensures ShippingDate(Date(2015, 11, 22)) == Date(2015, 11, 24)
    ensures GetDayOfWeek(Date(2015, 11, 24)) == Tuesday
  {
    assert GetDayOfWeek(Date(2015, 11, 20)) == Friday;
    assert ShippingDate(Date(2015, 11, 20)) == PlusDays(Date(2015, 11, 20), 4);
    PlusDaysUnique(Date(2015, 11, 20), 4, Date(2015, 11, 24));
    assert GetDayOfWeek(Date(2015, 11, 21)) == Saturday;
    assert ShippingDate(Date(2015, 11, 21)) == PlusDays(Date(2015, 11, 21), 3);
    PlusDaysUnique(Date(2015, 11, 21), 3, Date(2015, 11, 24));
    assert GetDayOfWeek(Date(2015, 11, 22)) == Sunday;
    assert ShippingDate(Date(2015, 11, 22)) == PlusDays(Date(2015, 11, 22), 2);
    PlusDaysUnique(Date(2015, 11, 22), 2, Date(2015, 11, 24));
  }
}
