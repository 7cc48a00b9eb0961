/** Week-based dates: the ISO 8601 week year (%G) and week number (%V), and the week numbers that
    count from the first Sunday (%U) or Monday (%W) of the calendar year, as printed and as rebuilt
    by the parser. */
module WeekDates {
  import opened Calendar
  import Civil
  import Weekday
  import MonthWeekday

  const MONDAY := Weekday.MONDAY
  const THURSDAY := Weekday.THURSDAY

  // ---------- As printed ----------

  /** The Monday after the last Thursday of the previous December. */
  function IsoStart(year: int): int {
    MonthWeekday.LastToDays(year - 1, 12, THURSDAY) + Weekday.Minus(MONDAY, THURSDAY)
  }

  function PrintedG(days: int): int {
    var y := Civil.FromDays(days + 3).year;
    if days < IsoStart(y) then y - 1 else y
  }

  function PrintedV(days: int): int {
    var y := Civil.FromDays(days + 3).year;
    var st := if days < IsoStart(y) then IsoStart(y - 1) else IsoStart(y);
    Civil.Quot(days - st, 7) + 1
  }

  /** The first Sunday or Monday of January. */
  function FirstWeekday(year: int, weekday: int): int {
    MonthWeekday.ToDays(MonthWeekday.Nth(year, 1, weekday, 1))
  }

  /** %U when weeks start on Sunday, %W when they start on Monday. */
  function PrintedWeek(days: int, weekStart: int): int {
    var st := FirstWeekday(Civil.FromDays(days).year, weekStart);
    if days < st then 0 else Civil.Quot(days - st, 7) + 1
  }

  // ---------- As parsed ----------

  function RebuildIso(g: int, v: int, weekday: int): int {
    IsoStart(g) + (v - 1) * 7 + Weekday.Minus(weekday, MONDAY)
  }

  function RebuildWeek(year: int, week: int, weekday: int, weekStart: int): int {
    FirstWeekday(year, weekStart) + (week - 1) * 7 + Weekday.Minus(weekday, weekStart)
  }

  /** Whole weeks, rounded toward negative infinity. */
  function FloorWeeks(days: int): int {
    var t := Civil.Quot(days, 7);
    if t * 7 > days then t - 1 else t
  }

  /** The number the parser checks against a given %U or %W. */
  function CheckedWeek(days: int, weekStart: int): int {
    FloorWeeks(days - FirstWeekday(Civil.FromDays(days).year, weekStart)) + 1
  }

  // ---------- Years and their first days ----------

  function Jan1(year: int): int {
    Civil.ToDays(Date(year, 1, 1))
  }

  lemma MonthFollows(year: int, month: int)
    requires 1 <= month <= 12
    ensures MonthWeekday.First(year, month) + DaysInMonth(year, month)
            == if month < 12 then MonthWeekday.First(year, month + 1) else Jan1(year + 1)
  {
    hide Civil.ToDays;
    var last := Date(year, month, DaysInMonth(year, month));
    Civil.DaysOfMonthAreConsecutive(Date(year, month, 1), last.day);
    Civil.NextDayCounts(last);
  }

  lemma YearLength(year: int)
    ensures Jan1(year + 1) == Jan1(year) + if IsLeap(year) then 366 else 365
    ensures Jan1(year + 1) == MonthWeekday.First(year, 12) + 31
  {
    hide Civil.ToDays;
    MonthFollows(year, 1); MonthFollows(year, 2); MonthFollows(year, 3); MonthFollows(year, 4);
    MonthFollows(year, 5); MonthFollows(year, 6); MonthFollows(year, 7); MonthFollows(year, 8);
    MonthFollows(year, 9); MonthFollows(year, 10); MonthFollows(year, 11); MonthFollows(year, 12);
  }

  lemma YearOfDay(days: int, year: int)
    ensures Civil.FromDays(days).year == year <==> Jan1(year) <= days < Jan1(year + 1)
  {
    hide Civil.ToDays, Civil.FromDays;
    var date := Civil.FromDays(days);
    Civil.ToDaysInverts(days);
    Civil.ToDaysMonotone(date, Date(year, 1, 1));
    Civil.ToDaysMonotone(date, Date(year + 1, 1, 1));
  }

  lemma FirstWeekdayBounds(year: int, weekday: int)
    requires Weekday.Ok(weekday)
    ensures Jan1(year) <= FirstWeekday(year, weekday) <= Jan1(year) + 6
    ensures Weekday.Of(FirstWeekday(year, weekday)) == weekday
    ensures FirstWeekday(year, weekday) == Jan1(year) + Weekday.Minus(weekday, Weekday.Of(Jan1(year)))
  {
    hide Civil.ToDays, Weekday.Minus, Weekday.Of;
    Weekday.GoForward(Jan1(year), weekday);
  }

  lemma IsoStartBounds(year: int)
    ensures Jan1(year) - 3 <= IsoStart(year) <= Jan1(year) + 3
    ensures Weekday.Of(IsoStart(year)) == MONDAY
    ensures IsoStart(year) + 3 == FirstWeekday(year, THURSDAY)
  {
    hide Civil.ToDays, MonthWeekday.LastToDays, FirstWeekday;
    assert Weekday.Minus(MONDAY, THURSDAY) == 4;
    hide Weekday.Minus;
    YearLength(year - 1);
    MonthWeekday.LastNumber(year - 1, 12, THURSDAY);
    FirstWeekdayBounds(year, THURSDAY);
  }

  /** The day is at most three days away from the Thursday of its week, which starts on Monday. */
  ghost predicate ThursdayOfWeek(thursday: int, days: int) {
    Weekday.Of(thursday) == THURSDAY && thursday - 3 <= days <= thursday + 3
  }

  /** Every day has a Thursday; with both names it is where the ISO week of the day starts plus three. */
  lemma HasThursday(days: int) returns (thursday: int)
    ensures ThursdayOfWeek(thursday, days)
  {
    thursday := days - Weekday.Minus(Weekday.Of(days), MONDAY) + 3;
    Weekday.GoBack(days, MONDAY);
  }

  /** The Thursdays of a calendar year lie within the ISO year of the same number. */
  lemma ThursdayPlace(thursday: int, year: int)
    requires Weekday.Of(thursday) == THURSDAY && Jan1(year) <= thursday < Jan1(year + 1)
    ensures IsoStart(year) + 3 <= thursday <= IsoStart(year + 1) - 4
  {
    hide Jan1, IsoStart, FirstWeekday;
    IsoStartBounds(year);
    IsoStartBounds(year + 1);
    FirstWeekdayBounds(year, THURSDAY);
    FirstWeekdayBounds(year + 1, THURSDAY);
    ThursdaysApart(IsoStart(year) + 3, thursday);
    ThursdaysApart(IsoStart(year + 1) + 3, thursday);
  }

  /** One decrement of the trial year always suffices. */
  lemma IsoYearOf(thursday: int, days: int)
    requires ThursdayOfWeek(thursday, days)
    ensures var year := Civil.FromDays(thursday).year;
            && PrintedG(days) == year
            && IsoStart(year) <= thursday - 3 <= days < IsoStart(year + 1)
            && PrintedV(days) == Civil.Quot(days - IsoStart(year), 7) + 1
  {
    hide Civil.FromDays, IsoStart, Jan1, Weekday.Of, Civil.Quot, FirstWeekday, IsLeap;
    var year := Civil.FromDays(thursday).year;
    YearOfDay(thursday, year);
    ThursdayPlace(thursday, year);
    IsoStartBounds(year);
    IsoStartBounds(year + 1);
    YearLength(year);
    YearLength(year + 1);
    YearOfDay(days + 3, year);
    YearOfDay(days + 3, year + 1);
  }

  lemma ThursdaysApart(a: int, b: int)
    requires Weekday.Of(a) == Weekday.Of(b)
    ensures (b - a) % 7 == 0
  {
  }

  /** The week date of a day, by section 3.2.2 of ISO 8601:2004: the printed year is the calendar year of
      the Thursday of the day's week, and the printed week is the number of Thursdays of that year
      up to that one. */
  lemma IsoWeekIsCounted(thursday: int, days: int)
    requires ThursdayOfWeek(thursday, days)
    ensures var year := Civil.FromDays(thursday).year;
            && PrintedG(days) == year
            && Jan1(year) <= thursday
            && PrintedV(days) == MonthWeekday.Occurrences(Jan1(year), THURSDAY, thursday - Jan1(year) + 1)
            && 1 <= PrintedV(days) <= 53
  {
    hide Civil.FromDays, Civil.ToDays, PrintedG, PrintedV, IsoStart, FirstWeekday, Weekday.Of;
    var year := Civil.FromDays(thursday).year;
    IsoYearOf(thursday, days);
    YearOfDay(thursday, year);
    YearLength(year);
    IsoStartBounds(year);
    FirstWeekdayBounds(year, THURSDAY);
    ThursdaysApart(IsoStart(year) + 3, thursday);
    MonthWeekday.OccurrencesAreWeekly(Jan1(year), THURSDAY, thursday - Jan1(year) + 1);
  }

  /** The parser rebuilds every day from its printed week year, week and weekday. */
  lemma IsoRoundTrip(days: int)
    ensures RebuildIso(PrintedG(days), PrintedV(days), Weekday.Of(days)) == days
  {
    hide Civil.FromDays, Civil.ToDays, PrintedG, PrintedV, IsoStart;
    var thursday := HasThursday(days);
    var year := Civil.FromDays(thursday).year;
    IsoYearOf(thursday, days);
    IsoStartBounds(year);
    WeekdaySince(IsoStart(year), days);
  }

  /** The days since a weekday leave its distance as remainder. */
  lemma WeekdaySince(start: int, days: int)
    ensures Weekday.Minus(Weekday.Of(days), Weekday.Of(start)) == (days - start) % 7
  {
    Weekday.MinusIsModular(Weekday.Of(days), Weekday.Of(start));
    hide Weekday.Minus;
    assert Weekday.Of(days) - Weekday.Of(start) == days - start - 7 * ((days + 4) / 7 - (start + 4) / 7);
  }

  lemma FloorWeeksIsFloor(days: int)
    ensures FloorWeeks(days) == days / 7
  {
  }

  /** %U and %W count the Sundays or Mondays of the year up to the day; the truncating printer, with its
      special case for the days before the first, agrees with the flooring check of the parser. */
  lemma WeekIsCounted(days: int, weekStart: int)
    requires Weekday.Ok(weekStart)
    ensures var year := Civil.FromDays(days).year;
            && Jan1(year) <= days
            && PrintedWeek(days, weekStart) == MonthWeekday.Occurrences(Jan1(year), weekStart, days - Jan1(year) + 1)
            && 0 <= PrintedWeek(days, weekStart) <= 53
            && CheckedWeek(days, weekStart) == PrintedWeek(days, weekStart)
  {
    hide Civil.FromDays, Civil.ToDays, FirstWeekday, Weekday.Of, Weekday.Minus, FloorWeeks;
    var year := Civil.FromDays(days).year;
    var st := FirstWeekday(year, weekStart);
    YearOfDay(days, year);
    YearLength(year);
    FirstWeekdayBounds(year, weekStart);
    FloorWeeksIsFloor(days - st);
    MonthWeekday.OccurrencesAreWeekly(Jan1(year), weekStart, days - Jan1(year) + 1);
  }

  /** The parser rebuilds every day from its year, printed week and weekday, week 0 included. */
  lemma WeekRoundTrip(days: int, weekStart: int)
    requires Weekday.Ok(weekStart)
    ensures RebuildWeek(Civil.FromDays(days).year, PrintedWeek(days, weekStart), Weekday.Of(days), weekStart) == days
  {
    hide Civil.FromDays, Civil.ToDays, FirstWeekday, Weekday.Of, Weekday.Minus;
    var year := Civil.FromDays(days).year;
    YearOfDay(days, year);
    FirstWeekdayBounds(year, weekStart);
    WeekdaySince(FirstWeekday(year, weekStart), days);
  }
}
