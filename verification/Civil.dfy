/** The conversion between civil dates and day counts, branch by branch as the code computes it,
    over all mathematical integers.

    The code shifts the year to start in March, counts eras of 400 years, and locates a day by its
    era, its year of the era and its day of the shifted year. The two halves of each conversion
    meet in that triple. */
module Civil {
  import opened Calendar

  const DAYS_PER_ERA := 146097

  /** Integer division as C++ performs it: the quotient is truncated toward zero. */
  function Quot(a: int, b: int): int
    requires b > 0
  {
    if a >= 0 then a / b else -(-a / b)
  }

  datatype Shifted = Shifted(era: int, yoe: int, doy: int)

  function MonthStart(mp: int): int {
    Quot(153 * mp + 2, 5)
  }

  function YearStart(yoe: int): int {
    365 * yoe + Quot(yoe, 4) - Quot(yoe, 100)
  }

  /** The date half of `to_days`. */
  function ShiftDate(date: Date): Shifted {
    var y := date.year - (if date.month <= 2 then 1 else 0);
    var era := Quot(if y >= 0 then y else y - 399, 400);
    Shifted(era, y - era * 400, MonthStart(if date.month > 2 then date.month - 3 else date.month + 9) + date.day - 1)
  }

  /** The counting half of `to_days`. */
  function CountDays(s: Shifted): int {
    s.era * DAYS_PER_ERA + YearStart(s.yoe) + s.doy - 719468
  }

  function ToDays(date: Date): int {
    CountDays(ShiftDate(date))
  }

  /** The counting half of `from_days`. */
  function ShiftDays(days: int): Shifted {
    var z := days + 719468;
    var era := Quot(if z >= 0 then z else z - 146096, DAYS_PER_ERA);
    var doe := z - era * DAYS_PER_ERA;
    var yoe := Quot(doe - Quot(doe, 1460) + Quot(doe, 36524) - Quot(doe, 146096), 365);
    Shifted(era, yoe, doe - YearStart(yoe))
  }

  /** The date half of `from_days`. */
  function UnshiftDate(s: Shifted): Date {
    var mp := Quot(5 * s.doy + 2, 153);
    var m := if mp < 10 then mp + 3 else mp - 9;
    Date(s.yoe + s.era * 400 + (if m <= 2 then 1 else 0), m, s.doy - MonthStart(mp) + 1)
  }

  function FromDays(days: int): Date {
    UnshiftDate(ShiftDays(days))
  }

  // ---------- Validity ----------

  /** The one `short` value that no valid year has. */
  const NOT_A_YEAR := -32768

  const MONTH_TABLE := [31, 28, 31, 30, 31, 30, 31, 31, 30, 31, 30, 31]

  function LastDay(year: int, month: int): int {
    if (month != 2 || !IsLeap(year)) && 1 <= month <= 12 then MONTH_TABLE[month - 1] else 29
  }

  predicate Ok(date: Date) {
    date.year != NOT_A_YEAR && 1 <= date.month <= 12 && 1 <= date.day <= LastDay(date.year, date.month)
  }

  lemma OkIsValid(date: Date)
    ensures Ok(date) <==> Valid(date) && date.year != NOT_A_YEAR
    ensures 1 <= date.month <= 12 ==> LastDay(date.year, date.month) == DaysInMonth(date.year, date.month)
  {
  }

  // ---------- The shifted year ----------

  /** The last day of a shifted year: its February belongs to the following calendar year. */
  function LastDoy(yoe: int): int {
    if IsLeap(yoe + 1) then 365 else 364
  }

  predicate InEra(s: Shifted) {
    0 <= s.yoe <= 399 && 0 <= s.doy <= LastDoy(s.yoe)
  }

  lemma CenturySplit(yoe: int, c: int, q: int, r: int)
    requires 0 <= yoe <= 399 && c == yoe / 100 && q == yoe % 100 / 4 && r == yoe % 4
    ensures yoe == 100 * c + 4 * q + r && 0 <= c <= 3 && 0 <= q <= 24 && 0 <= r <= 3
    ensures YearStart(yoe) == 36524 * c + 1461 * q + 365 * r
    ensures IsLeap(yoe + 1) <==> r == 3 && (q != 24 || c == 3)
  {
  }

  lemma CenturyCorrection(c: int, u: int)
    requires 0 <= c <= 3 && 0 <= u <= (if c == 3 then 36524 else 36523)
    ensures (36524 * c + u) / 36524 - (36524 * c + u) / 146096 == c
  {
  }

  lemma LeapCorrection(c: int, q: int, r: int, doy: int)
    requires 0 <= c <= 3 && 0 <= q <= 24 && 0 <= r <= 3 && 0 <= doy <= 365 && (doy == 365 ==> r == 3)
    ensures 0 <= doy - ((36524 * c + 1461 * q + 365 * r + doy) / 1460 - 25 * c - q) <= 364
  {
  }

  lemma CorrectedQuotient(c: int, q: int, r: int, doy: int)
    requires 0 <= c <= 3 && 0 <= q <= 24 && 0 <= r <= 3 && 0 <= doy <= 365
    requires doy == 365 ==> r == 3 && (q != 24 || c == 3)
    ensures var doe := 36524 * c + 1461 * q + 365 * r + doy;
            && 0 <= doe < DAYS_PER_ERA
            && (doe - doe / 1460 + doe / 36524 - doe / 146096) / 365 == 100 * c + 4 * q + r
  {
    CenturyCorrection(c, 1461 * q + 365 * r + doy);
    LeapCorrection(c, q, r, doy);
  }

  /** The quotient of corrected days by 365 finds the year of the era. */
  lemma YearRecovered(yoe: int, doy: int)
    requires 0 <= yoe <= 399 && 0 <= doy <= LastDoy(yoe)
    ensures 0 <= YearStart(yoe) + doy < DAYS_PER_ERA
    ensures ShiftDays(YearStart(yoe) + doy - 719468) == Shifted(0, yoe, doy)
  {
    var c, q, r := yoe / 100, yoe % 100 / 4, yoe % 4;
    CenturySplit(yoe, c, q, r);
    CorrectedQuotient(c, q, r, doy);
  }

  lemma YearFollows(yoe: int)
    requires 0 <= yoe <= 399
    ensures YearStart(yoe) + LastDoy(yoe) + 1 == if yoe < 399 then YearStart(yoe + 1) else DAYS_PER_ERA
  {
  }

  /** The years of an era cover its days. */
  lemma YearCovering(doe: int) returns (yoe: int)
    requires 0 <= doe < DAYS_PER_ERA
    ensures 0 <= yoe <= 399 && 0 <= doe - YearStart(yoe) <= LastDoy(yoe)
  {
    yoe := 0;
    while doe - YearStart(yoe) > LastDoy(yoe)
      invariant 0 <= yoe <= 399 && YearStart(yoe) <= doe
      decreases 400 - yoe
    {
      YearFollows(yoe);
      yoe := yoe + 1;
    }
  }

  // ---------- The two bijections ----------

  lemma EraShift(days: int, era: int)
    ensures ShiftDays(days + era * DAYS_PER_ERA) == ShiftDays(days).(era := ShiftDays(days).era + era)
  {
    var z := days + 719468;
    assert (z + era * DAYS_PER_ERA) / DAYS_PER_ERA == z / DAYS_PER_ERA + era;
    HandFloor(z, DAYS_PER_ERA);
    HandFloor(z + era * DAYS_PER_ERA, DAYS_PER_ERA);
  }

  /** The hand-written floor division is floor division. */
  lemma HandFloor(a: int, b: int)
    requires b == 400 || b == DAYS_PER_ERA
    ensures Quot(if a >= 0 then a else a - (b - 1), b) == a / b
  {
  }

  lemma DaysOfShifted(s: Shifted)
    requires InEra(s)
    ensures ShiftDays(CountDays(s)) == s
  {
    YearRecovered(s.yoe, s.doy);
    EraShift(YearStart(s.yoe) + s.doy - 719468, s.era);
  }

  lemma ShiftedOfDays(days: int)
    ensures InEra(ShiftDays(days)) && CountDays(ShiftDays(days)) == days
  {
    var z := days + 719468;
    var yoe := YearCovering(z % DAYS_PER_ERA);
    var s := Shifted(z / DAYS_PER_ERA, yoe, z % DAYS_PER_ERA - YearStart(yoe));
    assert CountDays(s) == days;
    DaysOfShifted(s);
  }

  lemma ModPeriod(a: int, k: int, n: int)
    requires n == 4 || n == 100 || n == 400
    ensures (a + n * k) % n == a % n
  {
  }

  lemma LeapInEra(year: int, era: int)
    ensures IsLeap(year + 400 * era) == IsLeap(year)
  {
    ModPeriod(year, era, 400);
    ModPeriod(year, 4 * era, 100);
    ModPeriod(year, 100 * era, 4);
  }

  /** The quotient by 153 finds the month of the shifted year; February takes what is left. */
  lemma MonthRecovered(doy: int)
    requires 0 <= doy <= 365
    ensures var mp := Quot(5 * doy + 2, 153);
            var d := doy - MonthStart(mp) + 1;
            && 0 <= mp <= 11
            && 1 <= d <= (if mp == 11 then 29 else DaysInMonth(0, if mp < 10 then mp + 3 else mp - 9))
            && (mp == 11 && d == 29 <==> doy == 365)
  {
  }

  lemma DateOfShifted(s: Shifted)
    requires InEra(s)
    ensures Valid(UnshiftDate(s)) && ShiftDate(UnshiftDate(s)) == s
  {
    MonthRecovered(s.doy);
    HandFloor(s.yoe + s.era * 400, 400);
    hide MonthStart;
    LeapInEra(s.yoe + 1, s.era);
    hide IsLeap;
  }

  lemma ShiftedOfDate(date: Date)
    requires Valid(date)
    ensures InEra(ShiftDate(date)) && UnshiftDate(ShiftDate(date)) == date
  {
    var y := date.year - (if date.month <= 2 then 1 else 0);
    HandFloor(y, 400);
    LeapInEra(y % 400 + 1, y / 400);
  }

  // ---------- What the conversion means ----------

  lemma DaysOfMonthAreConsecutive(date: Date, day: int)
    ensures ToDays(date.(day := day)) == ToDays(date) + day - date.day
  {
    assert ShiftDate(date.(day := day)) == ShiftDate(date).(doy := ShiftDate(date).doy + day - date.day);
  }

  lemma FromDaysInverts(date: Date)
    requires Valid(date)
    ensures FromDays(ToDays(date)) == date
  {
    ShiftedOfDate(date);
    DaysOfShifted(ShiftDate(date));
  }

  lemma ToDaysInverts(days: int)
    ensures Valid(FromDays(days)) && ToDays(FromDays(days)) == days
  {
    ShiftedOfDays(days);
    DateOfShifted(ShiftDays(days));
  }

  lemma EndOfFebruary(year: int)
    ensures var s := ShiftDate(Date(year, 2, DaysInMonth(year, 2)));
            InEra(s) && s.doy == LastDoy(s.yoe)
            && ShiftDate(Date(year, 3, 1))
               == if s.yoe < 399 then Shifted(s.era, s.yoe + 1, 0) else Shifted(s.era + 1, 0, 0)
  {
    var y := year - 1;
    HandFloor(y, 400);
    HandFloor(year, 400);
    LeapInEra(y % 400 + 1, y / 400);
  }

  lemma NextDayCounts(date: Date)
    requires Valid(date)
    ensures ToDays(NextDay(date)) == ToDays(date) + 1
  {
    if date.month == 2 && date.day == DaysInMonth(date.year, 2) {
      EndOfFebruary(date.year);
      YearFollows(ShiftDate(date).yoe);
    } else {
      assert ShiftDate(NextDay(date)) == ShiftDate(date).(doy := ShiftDate(date).doy + 1);
    }
  }

  lemma ToDaysIsDayCount()
    ensures GrowsDaily(ToDays) && Recovers(FromDays, ToDays)
  {
    forall date | Valid(date) ensures ToDays(NextDay(date)) == ToDays(date) + 1 {
      NextDayCounts(date);
    }
    forall date | Valid(date) ensures FromDays(ToDays(date)) == date {
      FromDaysInverts(date);
    }
  }

  lemma EpochIsZero()
    ensures ToDays(EPOCH) == 0
  {
  }

  /** The day count of a date is the number of "next day" steps from the epoch to the date, or,
      negated, from the date to the epoch. */
  lemma ToDaysCountsSteps(date: Date)
    requires Valid(date)
    ensures ToDays(date) >= 0 ==> After(EPOCH, ToDays(date)) == date
    ensures ToDays(date) <= 0 ==> After(date, -ToDays(date)) == EPOCH
  {
    hide ToDays, FromDays;
    EpochIsZero();
    ToDaysIsDayCount();
    var n := ToDays(date);
    if n >= 0 {
      CountMeasuresSteps(ToDays, FromDays, EPOCH, date, n);
    }
    if n <= 0 {
      CountMeasuresSteps(ToDays, FromDays, date, EPOCH, -n);
    }
  }

  /** Stepping a day count steps the date, from any day. */
  lemma FromDaysSteps(days: int, n: nat)
    ensures Valid(FromDays(days)) && FromDays(days + n) == After(FromDays(days), n)
  {
    hide ToDays, FromDays;
    ToDaysIsDayCount();
    ToDaysInverts(days);
    ToDaysInverts(days + n);
    CountMeasuresSteps(ToDays, FromDays, FromDays(days), FromDays(days + n), n);
  }

  /** Counting days preserves and reflects the lexicographic order of valid dates. */
  lemma ToDaysMonotone(a: Date, b: Date)
    requires Valid(a) && Valid(b)
    ensures Before(a, b) <==> ToDays(a) < ToDays(b)
  {
    ToDaysIsDayCount();
    CountIsMonotone(ToDays, FromDays, a, b);
  }

  /** Recovering dates is strictly monotone as well. */
  lemma FromDaysMonotone(a: int, b: int)
    ensures a < b <==> Before(FromDays(a), FromDays(b))
  {
    ToDaysInverts(a);
    ToDaysInverts(b);
    ToDaysMonotone(FromDays(a), FromDays(b));
  }
}
