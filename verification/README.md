# Temporal adjusters and the two-business-day shipping rule

This project models the date logic of the java-katas "DateTime in Streams"
solution (`TestSolution6StreamsInDateTime`). That class uses `LocalDate` with
three kinds of date adjuster:

- six library adjusters: first and last day of the month, first day of the
  next month, the next given weekday, and the first day of the next year and
  of this year;
- a home-made `nextOrSameSunday` adjuster;
- the `tPlusTwoBusinessDates` shipping adjuster. Orders placed Monday to
  Wednesday ship two days later. Thursday orders ship the next Monday.
  Friday to Sunday orders ship the next Tuesday.

The model is written over a proleptic Gregorian date type of its own, in
three modules:

- `Calendar` (calendar.dfy) holds dates and their validity, leap years, month
  and year lengths, and `LocalDate.of` with its error case. It counts days
  from 1970-01-01 with a cumulative month table and floor-division leap
  counts. A lemma proves the result equal, for every valid date, to the
  formula of the JDK's `LocalDate.toEpochDay` implementation, which uses
  `(367 * m - 362) / 12`, truncating division and a separate branch for
  negative years. The ISO weekday (Monday = 1 to Sunday = 7) is
  `floorMod(epochDay + 3, 7) + 1`, as in the JDK's `LocalDate.getDayOfWeek`. `plusDays` moves the day count, as
  `LocalDate.plusDays` does. Day counting is proved to be a bijection that
  preserves order between valid dates and integers.
- `Adjusters` (adjusters.dfy) holds the adjusters as functions from a valid
  date to a valid date. It proves what each one promises for every date.
- `Scenarios` (scenarios.dfy) holds the concrete expectations of the three
  test methods, stated over the model.

## Model

Every row cites the kata class `TestSolution6StreamsInDateTime.java`.

| member | source | states |
|---|---|---|
| Calendar.Of | java-datetime/src/solutions/java/none/cvg/datetime/TestSolution6StreamsInDateTime.java:45 | `LocalDate.of(y, m, d)` succeeds exactly when the month is 1..12 and the day fits it: 29 February only in a leap year, 30 at most in April, June, September and November. On success it yields that date, and otherwise an invalid-date error carrying the arguments. |
| Calendar.IsLeapYear | java-datetime/src/solutions/java/none/cvg/datetime/TestSolution6StreamsInDateTime.java:95-97 | The Gregorian leap rule: a year not divisible by 4 is common; divisible by 4 but not by 100 is leap; a century is leap exactly when divisible by 400. This is why 1997 has 365 days. |
| Calendar.FourHundredYearCycle | java-datetime/src/solutions/java/none/cvg/datetime/TestSolution6StreamsInDateTime.java:95-97 | Leap years repeat every 400 years, and 400 years hold exactly 146097 days. |
| Calendar.DaysInMonth | java-datetime/src/solutions/java/none/cvg/datetime/TestSolution6StreamsInDateTime.java:59-61 | A month has 28 to 31 days. It has 29 exactly for February of a leap year and 28 exactly for February of a common year. |
| Calendar.DaysInYear | java-datetime/src/solutions/java/none/cvg/datetime/TestSolution6StreamsInDateTime.java:95-97 | A year has 366 days exactly when it is a leap year, and 365 otherwise. |
| Calendar.DaysBeforeYearStep | java-datetime/src/solutions/java/none/cvg/datetime/TestSolution6StreamsInDateTime.java:87-97 | The day count of 1 January of year y+1 is that of year y plus the length of year y. |
| Calendar.EpochDay | java-datetime/src/solutions/java/none/cvg/datetime/TestSolution6StreamsInDateTime.java:154 | A valid date's day count lies within the span of days its year occupies. |
| Calendar.EpochDayIsJdkFormula | java-datetime/src/solutions/java/none/cvg/datetime/TestSolution6StreamsInDateTime.java:154-156 | For every valid date, the day count equals the JDK's `toEpochDay` expression, written out with Java's truncating division. |
| Calendar.EpochDayOrder | java-datetime/src/solutions/java/none/cvg/datetime/TestSolution6StreamsInDateTime.java:75-77 | One date comes before another (year, then month, then day) exactly when its day count is smaller. Equal counts mean equal dates. |
| Calendar.NextDay | java-datetime/src/solutions/java/none/cvg/datetime/TestSolution6StreamsInDateTime.java:59-69 | The day after a valid date is valid and has a day count one higher. Months and years roll over. |
| Calendar.PrevDay | java-datetime/src/solutions/java/none/cvg/datetime/TestSolution6StreamsInDateTime.java:51-53 | The day before a valid date is valid and has a day count one lower. |
| Calendar.EpochDayOnto | java-datetime/src/solutions/java/none/cvg/datetime/TestSolution6StreamsInDateTime.java:156 | Every integer is the day count of some valid date, so adding days never leaves the calendar. |
| Calendar.FromEpochDay | java-datetime/src/solutions/java/none/cvg/datetime/TestSolution6StreamsInDateTime.java:156 | Turning a day count back into a date gives a valid date with exactly that count, as `LocalDate.ofEpochDay` does. |
| Calendar.PlusDays | java-datetime/src/solutions/java/none/cvg/datetime/TestSolution6StreamsInDateTime.java:156 | `plusDays(n)` gives a valid date whose day count is n more than the original's. |
| Calendar.PlusDaysUnique | java-datetime/src/solutions/java/none/cvg/datetime/TestSolution6StreamsInDateTime.java:59-61 | `d.plusDays(n)` is the one valid date exactly n days after d. For positive n it comes after d. |
| Calendar.GetDayOfWeek | java-datetime/src/solutions/java/none/cvg/datetime/TestSolution6StreamsInDateTime.java:154 | `getDayOfWeek().getValue()` is 1 to 7: the number of days since Monday 1970-01-05, modulo 7, plus one. GetDayOfWeekPlusDays and EpochAnchors pin it further. |
| Calendar.GetDayOfWeekPlusDays | java-datetime/src/solutions/java/none/cvg/datetime/TestSolution6StreamsInDateTime.java:154-156 | Adding n days advances the ISO weekday number by n modulo 7. |
| Calendar.GetDayOfWeekDistance | java-datetime/src/solutions/java/none/cvg/datetime/TestSolution6StreamsInDateTime.java:154 | The weekdays of two valid dates differ by their distance in days, modulo 7. |
| Calendar.EpochAnchors | java-datetime/src/solutions/java/none/cvg/datetime/TestSolution6StreamsInDateTime.java:45 | 1970-01-01 is day 0 and a Thursday. 1970-01-05 is a Monday. 1997-08-29 is a Friday, and 2015-11-18 is a Wednesday. |
| Adjusters.FirstDayOfMonth | java-datetime/src/solutions/java/none/cvg/datetime/TestSolution6StreamsInDateTime.java:51-53 | `firstDayOfMonth()` is day 1 of the same month and lies day-1 days before the date. The day before it is in another month. |
| Adjusters.LastDayOfMonth | java-datetime/src/solutions/java/none/cvg/datetime/TestSolution6StreamsInDateTime.java:59-61 | `lastDayOfMonth()` stays in the same month and lies (month length - day) days after the date. The day after it is in another month. |
| Adjusters.FirstDayOfNextMonth | java-datetime/src/solutions/java/none/cvg/datetime/TestSolution6StreamsInDateTime.java:67-69 | `firstDayOfNextMonth()` is a day 1 after the date, and it is the day after the last day of the month. |
| Adjusters.FirstDayOfNextMonthFollowsLastDay | java-datetime/src/solutions/java/none/cvg/datetime/TestSolution6StreamsInDateTime.java:59-69 | The first day of the next month is `lastDayOfMonth().plusDays(1)`. |
| Adjusters.FirstDayOfYear | java-datetime/src/solutions/java/none/cvg/datetime/TestSolution6StreamsInDateTime.java:95-97 | `firstDayOfYear()` is 1 January of the same year, not after the date, and exactly the date's day of year minus one days before it. The day before it is in the previous year. |
| Adjusters.FirstDayOfNextYear | java-datetime/src/solutions/java/none/cvg/datetime/TestSolution6StreamsInDateTime.java:87-89 | `firstDayOfNextYear()` is 1 January of the next year, after the date, and one year length after the first day of the date's year. The day before it is in the date's year. |
| Adjusters.FirstDayOfYearIsYearBeforeNext | java-datetime/src/solutions/java/none/cvg/datetime/TestSolution6StreamsInDateTime.java:95-97 | The first day of the year is the first day of the next year minus the year's length in days (`minusDays(365)` for a common year). |
| Adjusters.DaysToNext | java-datetime/src/solutions/java/none/cvg/datetime/TestSolution6StreamsInDateTime.java:75-77 | `next(dow)`'s step of `daysDiff >= 0 ? 7 - daysDiff : -daysDiff` days is 1 to 7 days and lands on the wanted weekday number. |
| Adjusters.DaysToNextIsShortest | java-datetime/src/solutions/java/none/cvg/datetime/TestSolution6StreamsInDateTime.java:75-77 | No shorter positive step than DaysToNext lands on the wanted weekday number. |
| Adjusters.DaysToNextLandsOn | java-datetime/src/solutions/java/none/cvg/datetime/TestSolution6StreamsInDateTime.java:75-77 | Moving a date forward by that step reaches the wanted weekday. |
| Adjusters.Next | java-datetime/src/solutions/java/none/cvg/datetime/TestSolution6StreamsInDateTime.java:75-77 | `next(w)` is strictly after the date, at most 7 days later, and falls on w. |
| Adjusters.BetweenIsWithinGap | java-datetime/src/solutions/java/none/cvg/datetime/TestSolution6StreamsInDateTime.java:75-77 | A date strictly between d and `d.with(next(w))` lies fewer than the step's days after d. |
| Adjusters.NextIsFirst | java-datetime/src/solutions/java/none/cvg/datetime/TestSolution6StreamsInDateTime.java:75-77 | No date strictly between d and `d.with(next(w))` falls on w, so `next(w)` is the first such date. |
| Adjusters.NextOrSame | java-datetime/src/solutions/java/none/cvg/datetime/TestSolution6StreamsInDateTime.java:111-112 | `nextOrSame(w)` falls on w and is not before the date. It is the date itself exactly when the date is already a w, and otherwise it is `next(w)`. |
| Adjusters.NextOrSameIsFirst | java-datetime/src/solutions/java/none/cvg/datetime/TestSolution6StreamsInDateTime.java:111-112 | No date from d up to but excluding `nextOrSame(w)` falls on w. |
| Adjusters.NextOrSameSunday | java-datetime/src/solutions/java/none/cvg/datetime/TestSolution6StreamsInDateTime.java:105-114 | The kata's adjuster returns a Sunday 0 to 6 days on or after the date. It returns the date itself on a Sunday and the next Sunday otherwise. |
| Adjusters.ShippingDate | java-datetime/src/solutions/java/none/cvg/datetime/TestSolution6StreamsInDateTime.java:152-165 | The shipping date is strictly after the order date, at most 4 days later, and never a Saturday or Sunday. This holds for every date, not only the ten sampled at lines 220-224. |
| Adjusters.ShippingEarlyWeek | java-datetime/src/solutions/java/none/cvg/datetime/TestSolution6StreamsInDateTime.java:154-156 | Orders on Monday to Wednesday (value < 4) ship exactly two days later, on Wednesday to Friday. |
| Adjusters.ShippingThursday | java-datetime/src/solutions/java/none/cvg/datetime/TestSolution6StreamsInDateTime.java:158-159 | Thursday orders ship on a Monday, four days later, and no date in between is a Monday. |
| Adjusters.ShippingLateWeek | java-datetime/src/solutions/java/none/cvg/datetime/TestSolution6StreamsInDateTime.java:160-161 | Friday to Sunday orders ship on a Tuesday, 9 - weekday days later (4, 3 or 2), and no date in between is a Tuesday. |
| Scenarios.MonthBoundsSample | java-datetime/src/solutions/java/none/cvg/datetime/TestSolution6StreamsInDateTime.java:45-61 | 1997-08-29 is a valid Friday. Its month starts on 1997-08-01 and ends on 1997-08-31, which is `plusDays(2)`. |
| Scenarios.NextMonthSample | java-datetime/src/solutions/java/none/cvg/datetime/TestSolution6StreamsInDateTime.java:67-69 | The first day of the month after 1997-08-29 is 1997-09-01. |
| Scenarios.NextWednesdaySample | java-datetime/src/solutions/java/none/cvg/datetime/TestSolution6StreamsInDateTime.java:75-77 | The next Wednesday after 1997-08-29 is `plusDays(5)`, which is 1997-09-03. |
| Scenarios.YearBoundsSample | java-datetime/src/solutions/java/none/cvg/datetime/TestSolution6StreamsInDateTime.java:82-97 | The first day of the next year is 1998-01-01. The first day of the year is 1998-01-01 minus 365 days. |
| Scenarios.NextOrSameSundaySamples | java-datetime/src/solutions/java/none/cvg/datetime/TestSolution6StreamsInDateTime.java:116-137 | 1997-08-29 maps to 1997-08-31. Both 2015-01-01 and 2015-01-04 map to 2015-01-04. |
| Scenarios.NextEarlyWeekSamples | java-datetime/src/solutions/java/none/cvg/datetime/TestSolution6StreamsInDateTime.java:178-194 | From 2015-11-18, the next Monday, Tuesday and Wednesday are 2015-11-23, 24 and 25. |
| Scenarios.NextLateWeekSamples | java-datetime/src/solutions/java/none/cvg/datetime/TestSolution6StreamsInDateTime.java:196-218 | From 2015-11-18, the next Thursday to Sunday are 2015-11-19 to 22. |
| Scenarios.ShippingEarlyWeekSamples | java-datetime/src/solutions/java/none/cvg/datetime/TestSolution6StreamsInDateTime.java:178-194 | Orders of 2015-11-23, 24 and 25 ship 2015-11-25, 26 and 27: a Wednesday, a Thursday and a Friday. |
| Scenarios.ShippingThursdaySample | java-datetime/src/solutions/java/none/cvg/datetime/TestSolution6StreamsInDateTime.java:196-200 | The 2015-11-19 order ships 2015-11-23, a Monday. |
| Scenarios.ShippingLateWeekSamples | java-datetime/src/solutions/java/none/cvg/datetime/TestSolution6StreamsInDateTime.java:202-218 | The orders of 2015-11-20, 21 and 22 all ship 2015-11-24, a Tuesday. |

## Left out

- The JUnit scaffolding is not modelled: annotations, display names, `assertEquals` and `assertTrue`. Its expectations become the `Scenarios` lemmas.
- The `Stream`, `IntStream` and `Collectors` pipelines (lines 116-125 and 169-176) are not modelled. They only apply an adjuster to a handful of sample dates, so the properties are stated for every date instead, and the samples as lemmas.
- The `TemporalAdjuster` / `Temporal.with` / `LocalDate.from` indirection is not modelled. Each adjuster is a function from a date to a date.
- `LocalDate.toString` (ISO `yyyy-MM-dd` rendering) is not modelled. Assertions that compare strings are stated on dates.
- `LocalDate`'s year range (±999,999,999) and 64-bit day arithmetic are not modelled. Years and day counts here are unbounded integers, so the `DateTimeException` raised outside that range does not occur.
- Calendar.Of: every invalid argument gives the single error `InvalidDate(year, month, day)`. Java's distinct exception messages are not modelled.
- Adjusters.NextOrSame: the branch for a non-matching weekday is written as `Next(d, w)`. Java repeats the same day-difference formula inline there, with the same result.
- Adjusters.FirstDayOfNextMonth and Adjusters.FirstDayOfNextYear build the target date directly. `java.time` goes through `with(DAY_OF_MONTH, 1).plusMonths(1)` and its year equivalent, which give the same date for valid input.
- The source code of `java.time` is not part of this model. Its day-count, weekday and `next`/`nextOrSame` formulas are restated from the JDK implementation of `LocalDate` and `TemporalAdjusters`; the library's documentation does not give them.
- Calendar.FromEpochDay: `LocalDate.ofEpochDay`'s year, month and day computation is not modelled. The model chooses the unique valid date with the given day count instead. It is therefore a ghost function, and so are `PlusDays`, `Next`, `NextOrSame`, `NextOrSameSunday` and `ShippingDate`, which build on it; the model states what they return but cannot be compiled.
