/** Days named by year, month and the n-th, or the last, occurrence of a weekday. */
module MonthWeekday {
  import opened Calendar
  import Civil
  import Weekday

  datatype Nth = Nth(year: int, month: int, weekday: int, index: int)

  function First(year: int, month: int): int {
    Civil.ToDays(Date(year, month, 1))
  }

  function FromDays(days: int): Nth {
    var date := Civil.FromDays(days);
    Nth(date.year, date.month, Weekday.Of(days), (date.day - 1) / 7 + 1)
  }

  function ToDays(nth: Nth): int {
    var d := First(nth.year, nth.month);
    d + (Weekday.Minus(nth.weekday, Weekday.Of(d)) + (nth.index - 1) * 7)
  }

  predicate Ok(nth: Nth) {
    if nth.year == Civil.NOT_A_YEAR || !(1 <= nth.month <= 12) || !Weekday.Ok(nth.weekday) || nth.index < 1 then
      false
    else if nth.index <= 4 then
      true
    else
      Weekday.Minus(nth.weekday, Weekday.Of(First(nth.year, nth.month))) + ((nth.index - 1) * 7 + 1)
      <= Civil.LastDay(nth.year, nth.month)
  }

  /** The last occurrence of a weekday in a month. */
  function LastToDays(year: int, month: int, weekday: int): int {
    var d := Civil.ToDays(Date(year, month, Civil.LastDay(year, month)));
    d - Weekday.Minus(Weekday.Of(d), weekday)
  }

  // ---------- The days of a month ----------

  lemma MonthIsRun(year: int, month: int, day: int)
    requires Valid(Date(year, month, day))
    ensures Civil.ToDays(Date(year, month, day)) == First(year, month) + day - 1
    ensures Civil.FromDays(First(year, month) + day - 1) == Date(year, month, day)
  {
    hide Civil.ToDays, Civil.FromDays;
    Civil.DaysOfMonthAreConsecutive(Date(year, month, 1), day);
    Civil.FromDaysInverts(Date(year, month, day));
  }

  lemma DayOfMonth(days: int)
    ensures var date := Civil.FromDays(days);
            && Valid(date)
            && days == First(date.year, date.month) + date.day - 1
  {
    var date := Civil.FromDays(days);
    Civil.ToDaysInverts(days);
    hide Civil.ToDays, Civil.FromDays;
    MonthIsRun(date.year, date.month, date.day);
  }

  // ---------- Counting occurrences ----------

  /** The number of days with the given weekday among the n days from `first` on. */
  ghost function Occurrences(first: int, weekday: int, n: nat): nat {
    if n == 0 then 0
    else Occurrences(first, weekday, n - 1) + if Weekday.Of(first + n - 1) == weekday then 1 else 0
  }

  lemma {:induction false} OccurrencesAreWeekly(first: int, weekday: int, n: nat)
    requires Weekday.Ok(weekday)
    ensures Occurrences(first, weekday, n) == (n + 6 - Weekday.Minus(weekday, Weekday.Of(first))) / 7
  {
    Weekday.MinusIsModular(weekday, Weekday.Of(first));
    hide Weekday.Minus;
    var wait := Weekday.Minus(weekday, Weekday.Of(first));
    if n > 0 {
      OccurrencesAreWeekly(first, weekday, n - 1);
      WeekdayRecurs(first, weekday, n - 1);
    }
  }

  /** A weekday recurs every seven days after its first occurrence. */
  lemma WeekdayRecurs(first: int, weekday: int, k: int)
    requires Weekday.Ok(weekday)
    ensures Weekday.Of(first + k) == weekday <==> (k - Weekday.Minus(weekday, Weekday.Of(first))) % 7 == 0
  {
  }

  lemma WaitInMonth(first: int, day: int)
    requires day >= 1
    ensures Weekday.Minus(Weekday.Of(first + day - 1), Weekday.Of(first)) == (day - 1) % 7
  {
    WeekdayRecurs(first, Weekday.Of(first + day - 1), day - 1);
    Weekday.MinusIsModular(Weekday.Of(first + day - 1), Weekday.Of(first));
  }

  /** The day of the month that an n-th weekday denotes. */
  function DayNumber(nth: Nth): int {
    Weekday.Minus(nth.weekday, Weekday.Of(First(nth.year, nth.month))) + (nth.index - 1) * 7 + 1
  }

  lemma DayNumberInMonth(nth: Nth)
    ensures Ok(nth)
            <==> nth.year != Civil.NOT_A_YEAR && 1 <= nth.month <= 12 && Weekday.Ok(nth.weekday)
                 && nth.index >= 1 && Valid(Date(nth.year, nth.month, DayNumber(nth)))
    ensures Ok(nth) ==> DayNumber(nth) == ToDays(nth) - First(nth.year, nth.month) + 1
  {
  }

  /** Every day has a valid n-th weekday name, and the name leads back to the day. */
  lemma FromDaysRoundTrip(days: int)
    ensures Ok(FromDays(days)) <==> Civil.FromDays(days).year != Civil.NOT_A_YEAR
    ensures ToDays(FromDays(days)) == days
  {
    hide Civil.ToDays, Civil.FromDays, Weekday.Minus;
    DayOfMonth(days);
    var date := Civil.FromDays(days);
    WaitInMonth(First(date.year, date.month), date.day);
    DayNumberInMonth(FromDays(days));
  }

  /** Every valid name is the name of the day it denotes. */
  lemma ToDaysRoundTrip(nth: Nth)
    requires Ok(nth)
    ensures FromDays(ToDays(nth)) == nth
  {
    hide Civil.ToDays, Civil.FromDays;
    var first, day := First(nth.year, nth.month), DayNumber(nth);
    Weekday.MinusIsModular(nth.weekday, Weekday.Of(first));
    DayNumberInMonth(nth);
    assert (day - 1) / 7 + 1 == nth.index && ToDays(nth) == first + day - 1;
    WeekdayRecurs(first, nth.weekday, day - 1);
    hide Weekday.Minus, Weekday.Of, ToDays, Ok, DayNumber;
    MonthIsRun(nth.year, nth.month, day);
  }

  /** An n-th weekday is valid exactly when the day it denotes still belongs to its month. */
  lemma OkStaysInMonth(nth: Nth)
    requires nth.year != Civil.NOT_A_YEAR && 1 <= nth.month <= 12 && Weekday.Ok(nth.weekday) && nth.index >= 1
    ensures Ok(nth) <==> Civil.FromDays(ToDays(nth)).year == nth.year && Civil.FromDays(ToDays(nth)).month == nth.month
  {
    hide Civil.ToDays, Civil.FromDays, Weekday.Minus;
    DayNumberInMonth(nth);
    DayOfMonth(ToDays(nth));
    if Ok(nth) {
      ToDaysRoundTrip(nth);
    }
  }

  /** The name counts: the day is the index-th of its weekday in the month. */
  lemma NthIsCounted(nth: Nth)
    requires Ok(nth)
    ensures DayNumber(nth) >= 1 && Weekday.Of(ToDays(nth)) == nth.weekday
    ensures Occurrences(First(nth.year, nth.month), nth.weekday, DayNumber(nth)) == nth.index
  {
    hide Civil.ToDays, Weekday.Of;
    var first := First(nth.year, nth.month);
    DayNumberInMonth(nth);
    WeekdayRecurs(first, nth.weekday, DayNumber(nth) - 1);
    OccurrencesAreWeekly(first, nth.weekday, DayNumber(nth));
    Weekday.MinusIsModular(nth.weekday, Weekday.Of(first));
    hide Weekday.Minus, Ok;
  }

  lemma LastNumber(year: int, month: int, weekday: int)
    requires 1 <= month <= 12 && Weekday.Ok(weekday)
    ensures var first, last := First(year, month), DaysInMonth(year, month);
            var d := LastToDays(year, month, weekday);
            && first + last - 7 <= d <= first + last - 1 && Weekday.Of(d) == weekday
  {
    hide Civil.ToDays;
    var last := First(year, month) + DaysInMonth(year, month) - 1;
    Civil.OkIsValid(Date(year, month, 1));
    MonthIsRun(year, month, DaysInMonth(year, month));
    Weekday.GoBack(last, weekday);
    hide Weekday.Minus, Weekday.Of, Civil.LastDay;
  }

  /** The last weekday is the greatest day of the month with that weekday. */
  lemma LastIsGreatest(year: int, month: int, weekday: int)
    requires 1 <= month <= 12 && Weekday.Ok(weekday)
    ensures var d := LastToDays(year, month, weekday);
            && Weekday.Of(d) == weekday
            && Civil.FromDays(d).year == year && Civil.FromDays(d).month == month
            && forall later | d < later && Civil.FromDays(later).year == year && Civil.FromDays(later).month == month ::
                 Weekday.Of(later) != weekday
  {
    hide Civil.FromDays, Civil.ToDays, LastToDays;
    LastNumber(year, month, weekday);
    var d, first := LastToDays(year, month, weekday), First(year, month);
    MonthIsRun(year, month, d - first + 1);
    forall later | d < later && Civil.FromDays(later).year == year && Civil.FromDays(later).month == month
      ensures Weekday.Of(later) != weekday
    {
      DayOfMonth(later);
      assert d < later <= d + 6;
    }
  }
}
