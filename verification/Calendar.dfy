/** The proleptic Gregorian calendar as a reader would check it by hand: a leap rule, a table of
    month lengths and "the day after". It shares no formula with the conversion algorithms that are
    proved against it. */
module Calendar {

  datatype Date = Date(year: int, month: int, day: int)

  const EPOCH := Date(1970, 1, 1)

  predicate IsLeap(year: int) {
    year % 4 == 0 && (year % 100 != 0 || year % 400 == 0)
  }

  function DaysInMonth(year: int, month: int): (n: int)
    requires 1 <= month <= 12
    ensures 28 <= n <= 31
  {
    match month
    case 2 => if IsLeap(year) then 29 else 28
    case 4 => 30
    case 6 => 30
    case 9 => 30
    case 11 => 30
    case _ => 31
  }

  predicate Valid(date: Date) {
    && 1 <= date.month <= 12
    && 1 <= date.day <= DaysInMonth(date.year, date.month)
  }

  function NextDay(date: Date): (next: Date)
    requires Valid(date)
    ensures Valid(next)
  {
    if date.day < DaysInMonth(date.year, date.month) then date.(day := date.day + 1)
    else if date.month < 12 then Date(date.year, date.month + 1, 1)
    else Date(date.year + 1, 1, 1)
  }

  /** The date reached from `date` by n "next day" steps. */
  ghost function After(date: Date, n: nat): (later: Date)
    requires Valid(date)
    ensures Valid(later)
  {
    if n == 0 then date else NextDay(After(date, n - 1))
  }

  /** The lexicographic order on dates. */
  predicate Before(a: Date, b: Date) {
    || a.year < b.year
    || (a.year == b.year && a.month < b.month)
    || (a.year == b.year && a.month == b.month && a.day < b.day)
  }

  /** A day count grows by one from each day to the next. */
  ghost predicate GrowsDaily(count: Date -> int) {
    forall date {:trigger NextDay(date)} | Valid(date) :: count(NextDay(date)) == count(date) + 1
  }

  /** A day count that tells valid dates apart, because dates can be recovered from it. */
  ghost predicate Recovers(date: int -> Date, count: Date -> int) {
    forall d | Valid(d) :: date(count(d)) == d
  }

  lemma {:induction false} AfterCounts(count: Date -> int, date: Date, n: nat)
    requires GrowsDaily(count) && Valid(date)
    ensures count(After(date, n)) == count(date) + n
  {
    if n > 0 {
      AfterCounts(count, date, n - 1);
    }
  }

  /** Every such count measures steps: the difference of two counts is the number of "next day" steps
      that lead from the one date to the other. */
  lemma {:induction false} CountMeasuresSteps(count: Date -> int, date: int -> Date, a: Date, b: Date, n: nat)
    requires GrowsDaily(count) && Recovers(date, count)
    requires Valid(a) && Valid(b) && count(b) == count(a) + n
    ensures After(a, n) == b
  {
    AfterCounts(count, a, n);
  }

  lemma {:induction false} AfterIsLater(date: Date, n: nat)
    requires Valid(date) && n > 0
    ensures Before(date, After(date, n))
  {
    if n > 1 {
      AfterIsLater(date, n - 1);
    }
  }

  /** Every such count preserves and reflects the lexicographic order. */
  lemma {:induction false} CountIsMonotone(count: Date -> int, date: int -> Date, a: Date, b: Date)
    requires GrowsDaily(count) && Recovers(date, count) && Valid(a) && Valid(b)
    ensures Before(a, b) <==> count(a) < count(b)
  {
    if count(a) < count(b) {
      CountMeasuresSteps(count, date, a, b, count(b) - count(a));
      AfterIsLater(a, count(b) - count(a));
    } else if count(b) < count(a) {
      CountMeasuresSteps(count, date, b, a, count(a) - count(b));
      AfterIsLater(b, count(a) - count(b));
    } else {
      assert a == date(count(a)) == b;
    }
  }
}
