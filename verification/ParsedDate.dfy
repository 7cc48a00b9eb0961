/** What the parser makes of the fields it has read: the part of `from_stream` after the format loop,
    with the sentinel of each field standing for "not given". */
module ParsedDate {
  import opened Calendar
  import opened Options
  import Civil
  import Weekday
  import MonthWeekday
  import opened WeekDates

  const NOT_A_2DIGIT_YEAR := 100
  const NOT_A_CENTURY := -327
  const NOT_A_MONTH := 0
  const NOT_A_DAY := 0
  const NOT_A_DOY := -1
  const NOT_A_WEEKDAY := 8
  const NOT_A_WEEK := 100
  const YEAR_MIN := -32767
  const YEAR_MAX := 32767

  datatype Fields = Fields(Y: int, y: int, C: int, G: int, g: int, U: int, V: int, W: int,
                           wd: int, m: int, d: int, j: int)
  {
    predicate HasY() { Y != Civil.NOT_A_YEAR }
    predicate HasG() { G != Civil.NOT_A_YEAR }
    predicate HasU() { U != NOT_A_WEEK }
    predicate HasV() { V != NOT_A_WEEK }
    predicate HasW() { W != NOT_A_WEEK }
    predicate HasWd() { wd != NOT_A_WEEKDAY }
    predicate HasM() { m != NOT_A_MONTH }
    predicate HasD() { d != NOT_A_DAY }
    predicate HasJ() { j != NOT_A_DOY }

    /** The arms of the format loop store no other weekday. */
    predicate WeekdayRead() { HasWd() ==> Weekday.Ok(wd) }
  }

  const NOTHING := Fields(Civil.NOT_A_YEAR, NOT_A_2DIGIT_YEAR, NOT_A_CENTURY, Civil.NOT_A_YEAR, NOT_A_2DIGIT_YEAR,
                          NOT_A_WEEK, NOT_A_WEEK, NOT_A_WEEK, NOT_A_WEEKDAY, NOT_A_MONTH, NOT_A_DAY, NOT_A_DOY)

  // ---------- Two-digit years and centuries ----------

  /** The century that goes with a two-digit year when none was given. */
  function AssumedCentury(year: int, twoDigits: int): int {
    if year == Civil.NOT_A_YEAR then (if twoDigits >= 69 then 19 else 20)
    else Civil.Quot(if year >= 0 then year else year - 100, 100)
  }

  function CombineCentury(century: int, twoDigits: int): int {
    if century >= 0 then 100 * century + twoDigits
    else 100 * (century + 1) - (if twoDigits == 0 then 100 else twoDigits)
  }

  function ResolveYear(f: Fields): Option<Fields> {
    if f.y == NOT_A_2DIGIT_YEAR then Some(f)
    else if !(0 <= f.y <= 99) then None
    else
      var century := if f.C == NOT_A_CENTURY then AssumedCentury(f.Y, f.y) else f.C;
      var year := CombineCentury(century, f.y);
      if f.HasY() && f.Y != year then None else Some(f.(C := century, Y := year))
  }

  function ResolveWeekYear(f: Fields): Option<Fields> {
    if f.g == NOT_A_2DIGIT_YEAR then Some(f)
    else if !(0 <= f.g <= 99) then None
    else
      var century := if f.C == NOT_A_CENTURY then AssumedCentury(f.G, f.g) else f.C;
      var year := CombineCentury(century, f.g);
      if f.HasG() && f.G != year then None else Some(f.(C := century, G := year))
  }

  function ClampYear(f: Fields): Fields {
    if f.Y < YEAR_MIN || f.Y > YEAR_MAX then f.(Y := Civil.NOT_A_YEAR) else f
  }

  // ---------- Trial dates ----------

  /** Fill in what is missing from a trial date; contradict nothing that was given. */
  function Merge(f: Fields, trial: Date): Option<Fields> {
    if f.HasY() && f.Y != trial.year then None
    else MergeMonthDay(f.(Y := trial.year), trial)
  }

  /** The same without a look at the year. */
  function MergeMonthDay(f: Fields, trial: Date): Option<Fields> {
    if f.HasM() && f.m != trial.month then None
    else if f.HasD() && f.d != trial.day then None
    else Some(f.(m := trial.month, d := trial.day))
  }

  predicate ByIso(f: Fields) {
    f.HasG() && f.HasV() && f.HasWd()
  }

  function TryIso(f: Fields): Option<Fields> {
    if ByIso(f) then Merge(f, Civil.FromDays(RebuildIso(f.G, f.V, f.wd))) else Some(f)
  }

  function TryWeek(f: Fields, week: int, weekStart: int): Option<Fields> {
    if f.HasY() && week != NOT_A_WEEK && f.HasWd() then
      Merge(f, Civil.FromDays(RebuildWeek(f.Y, week, f.wd, weekStart)))
    else Some(f)
  }

  function TryOrdinal(f: Fields): Option<Fields> {
    if f.HasJ() && f.HasY() then MergeMonthDay(f, Civil.FromDays(Jan1(f.Y) + f.j - 1)) else Some(f)
  }

  function TryAll(f: Fields): Option<Fields> {
    var f1 :- TryIso(f);
    var f2 :- TryWeek(f1, f1.U, Weekday.SUNDAY);
    var f3 :- TryWeek(f2, f2.W, Weekday.MONDAY);
    TryOrdinal(f3)
  }

  /** Whether a week-based trial date was computed, in which case the checks of the weeks are skipped. */
  predicate Computed(f: Fields) {
    ByIso(f) || (f.HasY() && f.HasWd() && (f.HasU() || f.HasW()))
  }

  predicate WeeksCheck(f: Fields, date: Date) {
    var days := Civil.ToDays(date);
    && (f.HasG() ==> f.G == PrintedG(days))
    && (f.HasV() ==> f.V == PrintedV(days))
    && (f.HasU() ==> f.U == CheckedWeek(days, Weekday.SUNDAY))
    && (f.HasW() ==> f.W == CheckedWeek(days, Weekday.MONDAY))
  }

  /** The date a `year_month_day` is given, or none when the stream fails. */
  function Assemble(f: Fields): Option<Date> {
    var t :- TryAll(f);
    var date := Date(t.Y, t.m, t.d);
    if !Civil.Ok(date) then None
    else if f.HasWd() && f.wd != Weekday.Of(Civil.ToDays(date)) then None
    else if !Computed(f) && !WeeksCheck(f, date) then None
    else Some(date)
  }

  function Resolve(f: Fields): Option<Date> {
    var f1 :- ResolveYear(f);
    var f2 :- ResolveWeekYear(f1);
    Assemble(ClampYear(f2))
  }

  // ---------- Which dates are accepted ----------

  /** Enough is given to determine a day. */
  predicate Sufficient(f: Fields) {
    || (f.HasG() && f.HasV() && f.HasWd())
    || (f.HasY() && ((f.HasM() && f.HasD()) || f.HasJ() || (f.HasWd() && (f.HasU() || f.HasW()))))
  }

  /** The given year, month and day of the month are those of the date. */
  predicate Fits(f: Fields, date: Date) {
    && (f.HasY() ==> f.Y == date.year)
    && (f.HasM() ==> f.m == date.month)
    && (f.HasD() ==> f.d == date.day)
  }

  function Fill(f: Fields, date: Date): Fields {
    f.(Y := date.year, m := date.month, d := date.day)
  }

  /** The month and day of the j-th day of a year, wherever that day falls. */
  predicate OrdinalMatches(j: int, date: Date) {
    var trial := Civil.FromDays(Jan1(date.year) + j - 1);
    trial.month == date.month && trial.day == date.day
  }

  /** What the parser makes certain of before it accepts a date. */
  predicate Agrees(f: Fields, date: Date) {
    var days := Civil.ToDays(date);
    && Fits(f, date)
    && (f.HasWd() ==> f.wd == Weekday.Of(days))
    && (f.HasU() ==> f.U == PrintedWeek(days, Weekday.SUNDAY))
    && (f.HasW() ==> f.W == PrintedWeek(days, Weekday.MONDAY))
    && (f.HasJ() ==> OrdinalMatches(f.j, date))
    && (if f.HasG() && f.HasV() && f.HasWd() then RebuildIso(f.G, f.V, f.wd) == days
        else (f.HasY() && f.HasWd() && (f.HasU() || f.HasW()))
             || ((f.HasG() ==> f.G == PrintedG(days)) && (f.HasV() ==> f.V == PrintedV(days))))
  }

  /** A step touches nothing but the year, the month and the day. */
  predicate OnlyDate(f: Fields, r: Option<Fields>) {
    r.Some? ==> r.value == f.(Y := r.value.Y, m := r.value.m, d := r.value.d)
  }

  lemma MergeFits(f: Fields, trial: Date, date: Date)
    requires Civil.Ok(date) && Valid(trial)
    ensures Merge(f, trial).Some? && Fits(Merge(f, trial).value, date) && Merge(f, trial).value.HasY()
            <==> Fits(f, date) && trial == date
    ensures Fits(f, date) && trial == date ==> Merge(f, trial) == Some(Fill(f, date))
    ensures Merge(f, trial).Some? && f.HasY() ==> Merge(f, trial).value.Y == f.Y
  {
  }

  lemma DaysAreDate(days: int, date: Date)
    requires Civil.Ok(date)
    ensures Civil.FromDays(days) == date <==> days == Civil.ToDays(date)
    ensures Valid(Civil.FromDays(days))
  {
    hide Civil.ToDays, Civil.FromDays;
    Civil.OkIsValid(date);
    Civil.FromDaysInverts(date);
    Civil.ToDaysInverts(days);
  }

  lemma IsoStep(f: Fields, date: Date)
    requires Civil.Ok(date)
    ensures var r := TryIso(f);
            var good := r.Some? && Fits(r.value, date) && (ByIso(f) ==> r.value.HasY());
            && (good <==> Fits(f, date) && (ByIso(f) ==> RebuildIso(f.G, f.V, f.wd) == Civil.ToDays(date)))
            && (good ==> r == Some(if ByIso(f) then Fill(f, date) else f))
    ensures OnlyDate(f, TryIso(f))
  {
    hide Civil.ToDays, Civil.FromDays, RebuildIso, Civil.Ok;
    assert OnlyDate(f, TryIso(f));
    hide Merge;
    if ByIso(f) {
      var days := RebuildIso(f.G, f.V, f.wd);
      DaysAreDate(days, date);
      MergeFits(f, Civil.FromDays(days), date);
    }
  }

  /** Rebuilding from a week of the year finds a date exactly when both the week and the weekday are its own. */
  lemma WeekTrial(week: int, wd: int, weekStart: int, date: Date)
    requires Civil.Ok(date) && Weekday.Ok(wd) && Weekday.Ok(weekStart)
    ensures RebuildWeek(date.year, week, wd, weekStart) == Civil.ToDays(date)
            <==> week == PrintedWeek(Civil.ToDays(date), weekStart) && wd == Weekday.Of(Civil.ToDays(date))
  {
    hide Civil.ToDays, Civil.FromDays, FirstWeekday, Weekday.Minus, Weekday.Of, FloorWeeks, PrintedWeek, Civil.Ok;
    var days, st := Civil.ToDays(date), FirstWeekday(date.year, weekStart);
    Civil.OkIsValid(date);
    Civil.FromDaysInverts(date);
    WeekRoundTrip(days, weekStart);
    WeekIsCounted(days, weekStart);
    FloorWeeksIsFloor(days - st);
    FirstWeekdayBounds(date.year, weekStart);
    WeeksKeepWeekday(st, week - 1);
    Weekday.GoForward(st + (week - 1) * 7, wd);
  }

  lemma WeeksKeepWeekday(days: int, weeks: int)
    ensures Weekday.Of(days + weeks * 7) == Weekday.Of(days)
  {
  }

  lemma WeekStep(f: Fields, week: int, weekStart: int, date: Date)
    requires Civil.Ok(date) && f.WeekdayRead() && Weekday.Ok(weekStart)
    ensures var r := TryWeek(f, week, weekStart);
            var tried := f.HasY() && week != NOT_A_WEEK && f.HasWd();
            && (r.Some? && Fits(r.value, date)
                <==> Fits(f, date) && (tried ==> week == PrintedWeek(Civil.ToDays(date), weekStart)
                                                 && f.wd == Weekday.Of(Civil.ToDays(date))))
            && (r.Some? && Fits(r.value, date) ==> r == Some(if tried then Fill(f, date) else f))
    ensures OnlyDate(f, TryWeek(f, week, weekStart)) && (!f.HasY() ==> TryWeek(f, week, weekStart) == Some(f))
  {
    hide Civil.ToDays, Civil.FromDays, RebuildWeek, PrintedWeek, Weekday.Of, Civil.Ok;
    assert OnlyDate(f, TryWeek(f, week, weekStart));
    hide Merge;
    if f.HasY() && week != NOT_A_WEEK && f.HasWd() {
      var days := RebuildWeek(f.Y, week, f.wd, weekStart);
      DaysAreDate(days, date);
      MergeFits(f, Civil.FromDays(days), date);
      WeekTrial(week, f.wd, weekStart, date);
    }
  }

  lemma OrdinalStep(f: Fields, date: Date)
    requires Civil.Ok(date)
    ensures var r := TryOrdinal(f);
            var tried := f.HasJ() && f.HasY();
            && (r.Some? && Fits(r.value, date) <==> Fits(f, date) && (tried ==> OrdinalMatches(f.j, date)))
            && (r.Some? && Fits(r.value, date) ==> r == Some(if tried then Fill(f, date) else f))
            && (!f.HasY() ==> r == Some(f))
  {
    hide Civil.FromDays, Jan1;
    Civil.ToDaysInverts(Jan1(f.Y) + f.j - 1);
  }

  lemma AllSteps(f: Fields, date: Date)
    requires Civil.Ok(date) && f.WeekdayRead()
    ensures TryAll(f).Some? && Date(TryAll(f).value.Y, TryAll(f).value.m, TryAll(f).value.d) == date
            <==> Sufficient(f) && Fits(f, date)
                 && (ByIso(f) ==> RebuildIso(f.G, f.V, f.wd) == Civil.ToDays(date))
                 && (ByIso(f) || f.HasY() ==>
                       && (f.HasU() && f.HasWd() ==> f.U == PrintedWeek(Civil.ToDays(date), Weekday.SUNDAY)
                                                     && f.wd == Weekday.Of(Civil.ToDays(date)))
                       && (f.HasW() && f.HasWd() ==> f.W == PrintedWeek(Civil.ToDays(date), Weekday.MONDAY)
                                                     && f.wd == Weekday.Of(Civil.ToDays(date)))
                       && (f.HasJ() ==> OrdinalMatches(f.j, date)))
  {
    hide Civil.ToDays, Civil.FromDays, RebuildIso, PrintedWeek, OrdinalMatches, TryIso, TryWeek, TryOrdinal, Weekday.Of;
    IsoStep(f, date);
    if TryIso(f).Some? {
      var f1 := TryIso(f).value;
      WeekStep(f1, f1.U, Weekday.SUNDAY, date);
      if TryWeek(f1, f1.U, Weekday.SUNDAY).Some? {
        var f2 := TryWeek(f1, f1.U, Weekday.SUNDAY).value;
        WeekStep(f2, f2.W, Weekday.MONDAY, date);
        if TryWeek(f2, f2.W, Weekday.MONDAY).Some? {
          OrdinalStep(TryWeek(f2, f2.W, Weekday.MONDAY).value, date);
        }
      }
    }
  }

  /** The parser accepts a date exactly when enough is given to determine a day and that day agrees
      with all that is checked. */
  lemma AssembleExactly(f: Fields, date: Date)
    requires f.WeekdayRead()
    ensures Assemble(f) == Some(date) <==> Civil.Ok(date) && Sufficient(f) && Agrees(f, date)
  {
    hide Civil.ToDays, Civil.FromDays, RebuildIso, PrintedWeek, OrdinalMatches, TryAll, CheckedWeek, PrintedG,
         PrintedV, Weekday.Of;
    if Civil.Ok(date) {
      AllSteps(f, date);
      WeekIsCounted(Civil.ToDays(date), Weekday.SUNDAY);
      WeekIsCounted(Civil.ToDays(date), Weekday.MONDAY);
      if ByIso(f) && RebuildIso(f.G, f.V, f.wd) == Civil.ToDays(date) {
        IsoKeepsWeekday(f.G, f.V, f.wd);
      }
    }
  }

  lemma IsoKeepsWeekday(g: int, v: int, wd: int)
    requires Weekday.Ok(wd)
    ensures Weekday.Of(RebuildIso(g, v, wd)) == wd
  {
    hide IsoStart, Weekday.Minus, Weekday.Of;
    IsoStartBounds(g);
    WeeksKeepWeekday(IsoStart(g), v - 1);
    Weekday.GoForward(IsoStart(g) + (v - 1) * 7, wd);
  }

  // ---------- A date's own fields ----------

  /** Every given field is what the printer would show for the date. */
  predicate Own(f: Fields, date: Date) {
    var days := Civil.ToDays(date);
    && Fits(f, date)
    && (f.HasWd() ==> f.wd == Weekday.Of(days))
    && (f.HasU() ==> f.U == PrintedWeek(days, Weekday.SUNDAY))
    && (f.HasW() ==> f.W == PrintedWeek(days, Weekday.MONDAY))
    && (f.HasG() ==> f.G == PrintedG(days))
    && (f.HasV() ==> f.V == PrintedV(days))
    && (f.HasJ() ==> Jan1(date.year) + f.j - 1 == days)
  }

  /** Any selection of a date's own fields that determines a day is parsed back to the date. */
  lemma OwnFieldsSuffice(f: Fields, date: Date)
    requires Civil.Ok(date) && Own(f, date) && Sufficient(f)
    ensures Assemble(f) == Some(date)
  {
    hide Civil.ToDays, Civil.FromDays, RebuildIso, PrintedWeek, PrintedG, PrintedV, Assemble, Jan1, Weekday.Of,
         Civil.Ok;
    var days := Civil.ToDays(date);
    Civil.OkIsValid(date);
    Civil.FromDaysInverts(date);
    WeekdayIsOk(days);
    IsoRoundTrip(days);
    AssembleExactly(f, date);
  }

  lemma WeekdayIsOk(days: int)
    ensures Weekday.Ok(Weekday.Of(days))
  {
  }

  /** The number of ISO weeks of a year: of its Thursdays. */
  function IsoWeeks(year: int): int {
    (IsoStart(year + 1) - IsoStart(year)) / 7
  }

  lemma IsoWeeksAreThursdays(year: int)
    ensures Jan1(year) <= Jan1(year + 1)
    ensures IsoWeeks(year) == MonthWeekday.Occurrences(Jan1(year), THURSDAY, Jan1(year + 1) - Jan1(year))
    ensures 52 <= IsoWeeks(year) <= 53 && IsoStart(year + 1) == IsoStart(year) + 7 * IsoWeeks(year)
  {
    hide Jan1, IsoStart, FirstWeekday, Weekday.Of, Weekday.Minus;
    YearLength(year);
    IsoStartBounds(year);
    IsoStartBounds(year + 1);
    FirstWeekdayBounds(year, THURSDAY);
    ThursdaysApart(IsoStart(year), IsoStart(year + 1));
    MonthWeekday.OccurrencesAreWeekly(Jan1(year), THURSDAY, Jan1(year + 1) - Jan1(year));
  }

  /** A week date names a day of its own ISO year exactly when the year has that week; the parser does
      not check it. */
  lemma IsoHonest(g: int, v: int, wd: int)
    requires Weekday.Ok(wd)
    ensures var days := RebuildIso(g, v, wd);
            PrintedG(days) == g && PrintedV(days) == v <==> 1 <= v <= IsoWeeks(g)
  {
    hide Civil.FromDays, Jan1, PrintedG, PrintedV, IsoStart, IsoWeeks, Weekday.Of, Weekday.Minus;
    var days := RebuildIso(g, v, wd);
    Weekday.MinusIsModular(wd, MONDAY);
    var thursday := HasThursday(days);
    var year := Civil.FromDays(thursday).year;
    IsoYearOf(thursday, days);
    IsoWeeksAreThursdays(g);
    if 1 <= v <= IsoWeeks(g) {
      IsoYearsDisjoint(days, g, year);
    }
  }

  lemma IsoYearsDisjoint(days: int, g: int, year: int)
    requires IsoStart(g) <= days < IsoStart(g + 1) && IsoStart(year) <= days < IsoStart(year + 1)
    ensures g == year
  {
    hide IsoStart;
    if g < year {
      IsoStartsGrow(g + 1, year);
    } else if year < g {
      IsoStartsGrow(year + 1, g);
    }
  }

  lemma {:induction false} IsoStartsGrow(a: int, b: int)
    requires a <= b
    ensures IsoStart(a) <= IsoStart(b)
    decreases b - a
  {
    hide IsoStart;
    if a < b {
      IsoWeeksAreThursdays(a);
      IsoStartsGrow(a + 1, b);
    }
  }

  /** An accepted day of the year is the date's own exactly when the year has that day; the parser
      compares the month and the day but not the year of the day it computes. */
  lemma OrdinalHonest(j: int, date: Date)
    requires Valid(date) && OrdinalMatches(j, date)
    ensures Jan1(date.year) + j - 1 == Civil.ToDays(date)
            <==> 1 <= j <= Jan1(date.year + 1) - Jan1(date.year)
  {
    hide Civil.FromDays, Jan1, Civil.ToDays;
    Civil.FromDaysInverts(date);
    Civil.ToDaysInverts(Jan1(date.year) + j - 1);
    YearOfDay(Jan1(date.year) + j - 1, date.year);
    YearOfDay(Civil.ToDays(date), date.year);
  }

  /** The day that a week of the calendar year gives. */
  function ByWeek(f: Fields): int {
    if f.HasU() then RebuildWeek(f.Y, f.U, f.wd, Weekday.SUNDAY) else RebuildWeek(f.Y, f.W, f.wd, Weekday.MONDAY)
  }

  /** The year of the day that sufficient fields give. */
  function GivenYear(f: Fields): int {
    if f.HasY() then f.Y else Civil.FromDays(RebuildIso(f.G, f.V, f.wd)).year
  }

  /** The given day of the year and the given week exist, and a week year or ISO week that is passed over is the
      right one. */
  predicate Honest(f: Fields) {
    && (f.HasJ() ==> 1 <= f.j <= Jan1(GivenYear(f) + 1) - Jan1(GivenYear(f)))
    && (if f.HasG() && f.HasV() && f.HasWd() then 1 <= f.V <= IsoWeeks(f.G)
        else f.HasY() && f.HasWd() && (f.HasU() || f.HasW()) ==>
               (f.HasG() ==> f.G == PrintedG(ByWeek(f))) && (f.HasV() ==> f.V == PrintedV(ByWeek(f))))
  }

  /** An accepted date owns every given field if and only if the fields are honest. */
  lemma AcceptedIsHonest(f: Fields, date: Date)
    requires f.WeekdayRead() && Assemble(f) == Some(date)
    ensures Own(f, date) <==> Honest(f)
  {
    hide Civil.ToDays, Civil.FromDays, RebuildIso, RebuildWeek, PrintedWeek, PrintedG, PrintedV, Assemble, Jan1,
         IsoWeeks, Weekday.Of, OrdinalMatches, Civil.Ok;
    AssembleExactly(f, date);
    Civil.OkIsValid(date);
    Civil.FromDaysInverts(date);
    if f.HasJ() {
      OrdinalHonest(f.j, date);
    }
    if ByIso(f) {
      IsoHonest(f.G, f.V, f.wd);
    } else if Computed(f) {
      var week, weekStart := if f.HasU() then f.U else f.W, if f.HasU() then Weekday.SUNDAY else Weekday.MONDAY;
      WeekTrial(week, f.wd, weekStart, date);
    }
  }

  /** Once a date was computed from a week of the calendar year, a lone week year is never looked at. */
  lemma WeekYearPassedOver(f: Fields, g: int)
    requires f.WeekdayRead() && f.HasY() && f.HasWd() && (f.HasU() || f.HasW()) && !f.HasV()
    ensures Assemble(f.(G := g)) == Assemble(f)
  {
    hide Civil.ToDays, Civil.FromDays, RebuildIso, PrintedWeek, PrintedG, PrintedV, Assemble, Weekday.Of,
         OrdinalMatches, Civil.Ok;
    var other := f.(G := g);
    if Assemble(f).Some? {
      AssembleExactly(f, Assemble(f).value);
      AssembleExactly(other, Assemble(f).value);
    }
    if Assemble(other).Some? {
      AssembleExactly(f, Assemble(other).value);
      AssembleExactly(other, Assemble(other).value);
    }
  }

  /** A year and a day of the year alone give the date with that year and the month and the day of the day so many
      days on, when there is one. */
  lemma OrdinalAlone(year: int, j: int)
    requires year != Civil.NOT_A_YEAR && j != NOT_A_DOY
    ensures var day := Civil.FromDays(Civil.ToDays(Date(year, 1, 1)) + j - 1);
            var date := Date(year, day.month, day.day);
            Assemble(NOTHING.(Y := year, j := j)) == if Valid(date) then Some(date) else None
  {
    hide Civil.ToDays, Civil.FromDays;
    var day := Civil.FromDays(Civil.ToDays(Date(year, 1, 1)) + j - 1);
    Civil.OkIsValid(Date(year, day.month, day.day));
    Civil.ToDaysInverts(Civil.ToDays(Date(year, 1, 1)) + j - 1);
  }

  lemma FirstMonday(jan4: int, start: int)
    requires jan4 - 6 <= start <= jan4 && Weekday.Of(start) == MONDAY
    ensures start == jan4 - (Weekday.Of(jan4) - 1) % 7
  {
  }

  lemma JanuaryFourth(year: int)
    ensures Civil.ToDays(Date(year, 1, 4)) == Jan1(year) + 3
  {
  }

  lemma WeekDateDay(g: int, v: int, wd: int)
    requires Weekday.Ok(wd)
    ensures var jan4 := Civil.ToDays(Date(g, 1, 4));
            RebuildIso(g, v, wd) == jan4 - (Weekday.Of(jan4) - 1) % 7 + 7 * (v - 1) + (wd - 1) % 7
  {
    hide IsoStart, Civil.ToDays, Weekday.Minus, Weekday.Of, Jan1;
    IsoStartBounds(g);
    JanuaryFourth(g);
    FirstMonday(Civil.ToDays(Date(g, 1, 4)), IsoStart(g));
    Weekday.MinusIsModular(wd, MONDAY);
  }

  /** A week date alone gives the day so many weeks and days after the Monday of the week with January 4, whether or
      not the year has that week. */
  lemma WeekDateAlone(g: int, v: int, wd: int)
    requires g != Civil.NOT_A_YEAR && v != NOT_A_WEEK && Weekday.Ok(wd)
    ensures var jan4 := Civil.ToDays(Date(g, 1, 4));
            var days := jan4 - (Weekday.Of(jan4) - 1) % 7 + 7 * (v - 1) + (wd - 1) % 7;
            var date := Civil.FromDays(days);
            Assemble(NOTHING.(G := g, V := v, wd := wd))
            == if date.year == Civil.NOT_A_YEAR then None else Some(date)
  {
    hide Civil.ToDays, Civil.FromDays;
    WeekDateDay(g, v, wd);
    var days := RebuildIso(g, v, wd);
    IsoKeepsWeekday(g, v, wd);
    hide RebuildIso, Weekday.Of;
    Civil.ToDaysInverts(days);
    Civil.OkIsValid(Civil.FromDays(days));
  }

  /** In any year, the day after its last is taken for its first day: day 366 of 2021 for the first of
      January 2021. */
  lemma OrdinalOverflowAccepted(year: int)
    requires year != Civil.NOT_A_YEAR
    ensures Assemble(NOTHING.(Y := year, j := if IsLeap(year) then 367 else 366)) == Some(Date(year, 1, 1))
  {
    hide Civil.ToDays, Civil.FromDays, Assemble, RebuildIso, PrintedWeek, PrintedG, PrintedV, Weekday.Of;
    YearLength(year);
    Civil.FromDaysInverts(Date(year + 1, 1, 1));
    Civil.OkIsValid(Date(year, 1, 1));
    hide IsLeap;
    AssembleExactly(NOTHING.(Y := year, j := if IsLeap(year) then 367 else 366), Date(year, 1, 1));
  }

  /** In any year of 52 weeks, week 53 is taken for the first week of the next: the date accepted has
      another week year and another week. */
  lemma WeekOverflowAccepted(g: int, wd: int)
    requires g != Civil.NOT_A_YEAR && Weekday.Ok(wd) && IsoWeeks(g) == 52
    requires Civil.FromDays(RebuildIso(g, 53, wd)).year != Civil.NOT_A_YEAR
    ensures var date := Civil.FromDays(RebuildIso(g, 53, wd));
            && Assemble(NOTHING.(G := g, V := 53, wd := wd)) == Some(date)
            && PrintedG(Civil.ToDays(date)) == g + 1 && PrintedV(Civil.ToDays(date)) == 1
  {
    hide Civil.ToDays, Civil.FromDays, Assemble, IsoStart, PrintedWeek, PrintedG, PrintedV, Weekday.Of, IsoWeeks,
         Weekday.Minus;
    var days := RebuildIso(g, 53, wd);
    var date := Civil.FromDays(days);
    IsoWeeksAreThursdays(g);
    IsoWeeksAreThursdays(g + 1);
    assert days == RebuildIso(g + 1, 1, wd);
    IsoHonest(g + 1, 1, wd);
    IsoKeepsWeekday(g, 53, wd);
    Civil.ToDaysInverts(days);
    Civil.OkIsValid(date);
    hide RebuildIso;
    AssembleExactly(NOTHING.(G := g, V := 53, wd := wd), date);
  }

  // ---------- Years ----------

  function PrintedC(year: int): int {
    if year >= 0 then Civil.Quot(year, 100) else -Civil.Quot(-(year - 99), 100)
  }

  function PrintedTwoDigits(year: int): int {
    (if year >= 0 then year else -year) % 100
  }

  /** Century and two-digit year rebuild every year, negative years and exact centuries included. */
  lemma CenturyRoundTrip(year: int)
    ensures 0 <= PrintedTwoDigits(year) <= 99
    ensures CombineCentury(PrintedC(year), PrintedTwoDigits(year)) == year
  {
  }

  /** In the parser the round trip fails for one century alone, the one its sentinel stands for. */
  lemma CenturyParsed(year: int)
    ensures var r := ResolveYear(NOTHING.(C := PrintedC(year), y := PrintedTwoDigits(year)));
            r.Some? && (r.value.Y == year <==> !(-32700 <= year <= -32601))
  {
  }

  /** A year is consistent with a two-digit year when its last two digits are those, except for
      negative multiples of 100, which are consistent with none. */
  lemma YearWithTwoDigits(f: Fields)
    requires f.HasY() && f.C == NOT_A_CENTURY && 0 <= f.y <= 99
    ensures ResolveYear(f).Some? <==> f.y == PrintedTwoDigits(f.Y) && !(f.Y < 0 && f.Y % 100 == 0)
  {
  }

  /** A two-digit week year has no century of its own: it is read with the century of the calendar year when that is
      known, and is right exactly when the week year lies in the same century. Otherwise it agrees with a full week
      year as a two-digit year does, or is taken to lie between 1969 and 2068. */
  predicate WeekYearTold(f: Fields, weekYear: int) {
    if f.C != NOT_A_CENTURY then f.C == PrintedC(weekYear)
    else if f.HasG() then !(weekYear < 0 && weekYear % 100 == 0)
    else 1969 <= weekYear <= 2068
  }

  lemma WeekYearResolves(f: Fields, weekYear: int)
    requires f.g == PrintedTwoDigits(weekYear) && (f.HasG() ==> f.G == weekYear)
    ensures var r := ResolveWeekYear(f);
            && (r.Some? && r.value.G == weekYear <==> WeekYearTold(f, weekYear))
            && (r.None? ==> f.HasG())
            && (r.Some? ==> r.value == f.(G := r.value.G, C := r.value.C))
  {
    CenturyRoundTrip(weekYear);
    CenturyUnique(f.C, weekYear);
    hide PrintedC;
  }

  /** No other century goes with the two digits of a year. */
  lemma CenturyUnique(century: int, year: int)
    ensures CombineCentury(century, PrintedTwoDigits(year)) == year <==> century == PrintedC(year)
  {
  }

  /** The year has the century and the two digits: the century is rounded down, the digits are those of the number. */
  predicate HasParts(year: int, century: int, twoDigits: int) {
    year / 100 == century && (if year < 0 then -year else year) % 100 == twoDigits
  }

  lemma PartsCombine(century: int, twoDigits: int)
    requires 0 <= twoDigits <= 99
    ensures forall year :: HasParts(year, century, twoDigits) <==> year == CombineCentury(century, twoDigits)
    ensures forall year :: HasParts(year, PrintedC(year), PrintedTwoDigits(year))
  {
  }

  /** Which years two digits go with. With a century, that of both, and a given year must be it. With a year alone,
      that year, if the digits are its own and it is no negative multiple of 100. With neither, one from 1969 to
      2068. */
  lemma YearExactly(f: Fields)
    requires 0 <= f.y <= 99
    ensures var r := ResolveYear(f);
            && (r.Some? ==> r.value == f.(Y := r.value.Y, C := r.value.C) && HasParts(r.value.Y, r.value.C, f.y))
            && (if f.C != NOT_A_CENTURY then
                  && (r.Some? <==> (f.HasY() ==> HasParts(f.Y, f.C, f.y)))
                  && (r.Some? ==> r.value.C == f.C)
                else if f.HasY() then
                  && (r.Some? <==> HasParts(f.Y, f.Y / 100, f.y) && !(f.Y < 0 && f.Y % 100 == 0))
                  && (r.Some? ==> r.value.Y == f.Y)
                else r.Some? && 1969 <= r.value.Y <= 2068)
  {
    var century := if f.C == NOT_A_CENTURY then AssumedCentury(f.Y, f.y) else f.C;
    PartsCombine(century, f.y);
    hide CombineCentury;
  }

  /** And likewise which week years, with the century that the year left. */
  lemma WeekYearExactly(f: Fields)
    requires 0 <= f.g <= 99
    ensures var r := ResolveWeekYear(f);
            && (r.Some? ==> r.value == f.(G := r.value.G, C := r.value.C) && HasParts(r.value.G, r.value.C, f.g))
            && (if f.C != NOT_A_CENTURY then
                  && (r.Some? <==> (f.HasG() ==> HasParts(f.G, f.C, f.g)))
                  && (r.Some? ==> r.value.C == f.C)
                else if f.HasG() then
                  && (r.Some? <==> HasParts(f.G, f.G / 100, f.g) && !(f.G < 0 && f.G % 100 == 0))
                  && (r.Some? ==> r.value.G == f.G)
                else r.Some? && 1969 <= r.value.G <= 2068)
  {
    var century := if f.C == NOT_A_CENTURY then AssumedCentury(f.G, f.g) else f.C;
    PartsCombine(century, f.g);
    hide CombineCentury;
  }

  /** Without two-digit years nothing is resolved, but a year that a `year` cannot hold counts as not given. */
  lemma FullYearsOnly(f: Fields)
    requires f.y == NOT_A_2DIGIT_YEAR && f.g == NOT_A_2DIGIT_YEAR
    ensures Resolve(f) == Assemble(if -32767 <= f.Y <= 32767 then f else f.(Y := Civil.NOT_A_YEAR))
  {
    hide Assemble;
  }

  /** The first of January 2000, in the last week of 1999, is printed by %C%g as 2099. */
  lemma CenturyOfWeekYear()
    ensures PrintedG(Civil.ToDays(Date(2000, 1, 1))) == 1999
    ensures ResolveWeekYear(NOTHING.(C := PrintedC(2000), g := PrintedTwoDigits(1999))) ==
            Some(NOTHING.(C := 20, g := 99, G := 2099))
  {
    hide Civil.ToDays, Civil.FromDays, PrintedG;
    NewYear2000();
    IsoYearOf(10955, 10957);
  }

  lemma NewYear2000()
    ensures Civil.ToDays(Date(2000, 1, 1)) == 10957 && Civil.FromDays(10955) == Date(1999, 12, 30)
  {
  }

  /** A whole parse: the fields of a date within the range of years, by full year or by century and
      two-digit year. */
  lemma ResolveOwnFields(f: Fields, date: Date)
    requires Civil.Ok(date) && YEAR_MIN <= date.year <= YEAR_MAX
    requires f.g == NOT_A_2DIGIT_YEAR && Own(f, date)
    requires || (f.y == NOT_A_2DIGIT_YEAR && Sufficient(f))
             || (f.y == PrintedTwoDigits(date.year) && f.C == PrintedC(date.year) != NOT_A_CENTURY
                 && Sufficient(f.(Y := date.year)))
    ensures Resolve(f) == Some(date)
  {
    hide Civil.ToDays, Civil.FromDays, PrintedWeek, PrintedG, PrintedV, Assemble, Jan1, Weekday.Of, Civil.Ok;
    CenturyRoundTrip(date.year);
    hide PrintedTwoDigits, PrintedC, CombineCentury;
    OwnFieldsSuffice(if f.y == NOT_A_2DIGIT_YEAR then f else f.(Y := date.year), date);
    if f.y != NOT_A_2DIGIT_YEAR {
      OwnFieldsSuffice(f.(Y := date.year, C := PrintedC(date.year)), date);
    }
  }
}
