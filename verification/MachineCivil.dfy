/** The civil conversion in the widths the code declares: `short` years, `unsigned char` months and
    days, `int` day counts and `unsigned` temporaries. Unsigned arithmetic wraps and narrowing casts
    truncate; signed arithmetic must stay in range, and the lemmas prove that it does. */
module MachineCivil {
  import opened Calendar
  import opened Civil

  const TWO32 := 0x1_0000_0000
  const INT_MAX := 0x7FFF_FFFF
  const INT_MIN := -0x8000_0000

  predicate IsInt(x: int) {
    INT_MIN <= x <= INT_MAX
  }

  predicate IsShort(x: int) {
    -0x8000 <= x <= 0x7FFF
  }

  predicate IsUChar(x: int) {
    0 <= x <= 0xFF
  }

  // Each conversion leaves a value alone when the target type can hold it.

  function U32(x: int): int {
    if 0 <= x < TWO32 then x else x % TWO32
  }

  function S32(x: int): int {
    if IsInt(x) then x
    else var u := x % TWO32; if u <= INT_MAX then u else u - TWO32
  }

  function S16(x: int): int {
    if IsShort(x) then x
    else var u := x % 0x1_0000; if u < 0x8000 then u else u - 0x1_0000
  }

  function U8(x: int): int {
    if IsUChar(x) then x else x % 0x100
  }

  /** And else it keeps the remainder by the size of the type, which is all that the type can hold of it. */
  lemma NarrowingWraps(x: int)
    ensures 0 <= U32(x) < TWO32 && (x - U32(x)) % TWO32 == 0
    ensures IsInt(S32(x)) && (x - S32(x)) % TWO32 == 0
    ensures IsShort(S16(x)) && (x - S16(x)) % 0x1_0000 == 0
    ensures IsUChar(U8(x)) && (x - U8(x)) % 0x100 == 0
  {
    NarrowedInt(x);
    NarrowedShort(x);
    NarrowedChar(x);
  }

  lemma NarrowedInt(x: int)
    ensures 0 <= U32(x) < TWO32 && (x - U32(x)) % TWO32 == 0
    ensures IsInt(S32(x)) && (x - S32(x)) % TWO32 == 0
  {
    Multiple(x, TWO32);
  }

  lemma NarrowedShort(x: int)
    ensures IsShort(S16(x)) && (x - S16(x)) % 0x1_0000 == 0
  {
    Multiple(x, 0x1_0000);
  }

  lemma NarrowedChar(x: int)
    ensures IsUChar(U8(x)) && (x - U8(x)) % 0x100 == 0
  {
    Multiple(x, 0x100);
  }

  /** A number less its remainder, and that with one divisor more, is a multiple of the divisor. */
  lemma Multiple(x: int, d: int)
    requires d > 0
    ensures (x - x % d) % d == 0 && (x - (x % d - d)) % d == 0
  {
    var q := x / d;
    assert x - x % d == q * d && x - (x % d - d) == (q + 1) * d;
    MultipleOf(q, d);
    MultipleOf(q + 1, d);
  }

  lemma MultipleOf(q: int, d: int)
    requires d > 0
    ensures (q * d) % d == 0
  {
    var e := q - (q * d) / d;
    assert (q * d) % d == e * d;
    assert e <= 0 || e * d >= d;
    assert e >= 0 || e * d <= -d;
  }

  // ---------- to_days ----------

  function MachineEra(y: int): int {
    Quot(if y >= 0 then y else y - 399, 400)
  }

  function MachineDoy(month: int, day: int): int {
    var shifted := if month > 2 then U32(month - 3) else U32(month + 9);
    U32(U32(U32(U32(153 * shifted) + 2) / 5 + day) - 1)
  }

  function MachineDoe(yoe: int, doy: int): int {
    U32(U32(U32(U32(yoe * 365) + yoe / 4) - yoe / 100) + doy)
  }

  function MachineShiftDate(date: Date): Shifted {
    var y := date.year - (if date.month <= 2 then 1 else 0);
    Shifted(MachineEra(y), U32(y - MachineEra(y) * 400), MachineDoy(date.month, date.day))
  }

  function MachineToDays(date: Date): int {
    var s := MachineShiftDate(date);
    s.era * DAYS_PER_ERA + S32(MachineDoe(s.yoe, s.doy)) - 719468
  }

  /** The signed operations on the year and the era stay within an `int`. */
  lemma EraFits(y: int)
    requires -0x8001 <= y <= 0x7FFF
    ensures MachineEra(y) == y / 400 && -82 <= MachineEra(y) <= 81
    ensures U32(y - MachineEra(y) * 400) == y - MachineEra(y) * 400 == y % 400
    ensures IsInt(y - 399) && IsInt(MachineEra(y) * 400) && IsInt(MachineEra(y) * DAYS_PER_ERA)
  {
  }

  lemma DoyWrapsOnce(month: int, day: int)
    requires IsUChar(month) && IsUChar(day)
    ensures var doy := MonthStart(if month > 2 then month - 3 else month + 9) + day - 1;
            && -1 <= doy < 10000
            && MachineDoy(month, day) == (if month == 3 && day == 0 then doy + TWO32 else doy)
            && (doy == -1 <==> month == 3 && day == 0)
  {
  }

  lemma DoeUnwraps(yoe: int, doy: int)
    requires 0 <= yoe <= 399 && -1 <= doy < 10000
    ensures S32(MachineDoe(yoe, U32(doy))) == YearStart(yoe) + doy
    ensures 0 <= YearStart(yoe) <= 146000
  {
    assert U32(U32(U32(yoe * 365) + yoe / 4) - yoe / 100) == YearStart(yoe) && 0 <= YearStart(yoe) <= 146000;
    hide YearStart;
    if doy == -1 {
      assert U32(doy) == TWO32 - 1;
      assert U32(YearStart(yoe) + TWO32 - 1) == if YearStart(yoe) == 0 then TWO32 - 1 else YearStart(yoe) - 1;
    }
  }

  /** The shifted date is the mathematical one, except that "day 0 of March" wraps. */
  lemma ShiftDateFits(date: Date)
    requires IsShort(date.year) && IsUChar(date.month) && IsUChar(date.day)
    ensures var s := ShiftDate(date);
            && MachineShiftDate(date) == s.(doy := U32(s.doy))
            && 0 <= s.yoe <= 399 && -82 <= s.era <= 81 && -1 <= s.doy < 10000
            && (s.doy != U32(s.doy) <==> date.month == 3 && date.day == 0)
  {
  }

  /** For every bit pattern of the fields, valid date or not, the wrapping unsigned arithmetic still
      yields the mathematical day count, and that count is an `int`, as is the sum before the last subtraction. */
  lemma ToDaysFits(date: Date)
    requires IsShort(date.year) && IsUChar(date.month) && IsUChar(date.day)
    ensures MachineToDays(date) == ToDays(date) && IsInt(ToDays(date))
    ensures var s := MachineShiftDate(date); IsInt(s.era * DAYS_PER_ERA + S32(MachineDoe(s.yoe, s.doy)))
  {
    var s := ShiftDate(date);
    ShiftDateFits(date);
    DoeUnwraps(s.yoe, s.doy);
  }

  /** The interval comments of `to_days` hold on every valid date. */
  lemma ToDaysIntervals(date: Date)
    requires Valid(date) && IsShort(date.year)
    ensures var s := MachineShiftDate(date);
            0 <= s.yoe <= 399 && 0 <= s.doy <= 365 && 0 <= MachineDoe(s.yoe, s.doy) <= 146096
  {
  }

  // ---------- from_days ----------

  function MachineDoeOfDays(days: int): int {
    var z := days + 719468;
    U32(z - Quot(if z >= 0 then z else z - 146096, DAYS_PER_ERA) * DAYS_PER_ERA)
  }

  function MachineYoe(doe: int): int {
    U32(U32(U32(doe - doe / 1460) + doe / 36524) - doe / 146096) / 365
  }

  function MachineShiftDays(days: int): Shifted {
    var z := days + 719468;
    var doe := MachineDoeOfDays(days);
    var yoe := MachineYoe(doe);
    Shifted(Quot(if z >= 0 then z else z - 146096, DAYS_PER_ERA), yoe,
            U32(doe - U32(U32(U32(365 * yoe) + yoe / 4) - yoe / 100)))
  }

  function MachineMonthIndex(doy: int): int {
    U32(U32(5 * doy) + 2) / 153
  }

  function MachineDay(doy: int): int {
    U32(U32(doy - U32(U32(153 * MachineMonthIndex(doy)) + 2) / 5) + 1)
  }

  function MachineMonth(doy: int): int {
    var mp := MachineMonthIndex(doy);
    if mp < 10 then U32(mp + 3) else U32(mp - 9)
  }

  function MachineUnshiftDate(s: Shifted): Date {
    var m := MachineMonth(s.doy);
    Date(S16(S32(s.yoe) + s.era * 400 + (if m <= 2 then 1 else 0)), U8(m), U8(MachineDay(s.doy)))
  }

  function MachineFromDays(days: int): Date {
    MachineUnshiftDate(MachineShiftDays(days))
  }

  lemma YearFits(doe: int, yoe: int)
    requires 0 <= doe <= 146096 && 0 <= yoe <= 399
    requires yoe == Quot(doe - Quot(doe, 1460) + Quot(doe, 36524) - Quot(doe, 146096), 365)
    requires 0 <= doe - YearStart(yoe) <= 365
    ensures MachineYoe(doe) == yoe
    ensures U32(doe - U32(U32(U32(365 * yoe) + yoe / 4) - yoe / 100)) == doe - YearStart(yoe)
  {
  }

  lemma DateFits(doy: int)
    requires 0 <= doy <= 365
    ensures var mp := Quot(5 * doy + 2, 153);
            && MachineMonthIndex(doy) == mp && 0 <= mp <= 11
            && MachineDay(doy) == doy - MonthStart(mp) + 1 && 1 <= MachineDay(doy) <= 31
            && MachineMonth(doy) == (if mp < 10 then mp + 3 else mp - 9) && 1 <= MachineMonth(doy) <= 12
  {
  }

  lemma EraOfDaysFits(days: int)
    requires IsInt(days) && IsInt(days + 719468)
    ensures var s := ShiftDays(days);
            && -14700 <= s.era <= 14700 && 0 <= s.yoe <= 399 && 0 <= s.doy <= 365
            && MachineDoeOfDays(days) == (days + 719468) % DAYS_PER_ERA
            && s.era == (days + 719468) / DAYS_PER_ERA
  {
    ShiftedOfDays(days);
    hide CountDays;
    HandFloor(days + 719468, DAYS_PER_ERA);
  }

  /** The first addition is the only signed operation that can overflow: the others stay within an `int`
      whenever it does. */
  lemma SignedFits(days: int)
    requires IsInt(days) && IsInt(days + 719468)
    ensures var z, s := days + 719468, ShiftDays(days);
            && IsInt(z - 146096) && IsInt(s.era * DAYS_PER_ERA) && IsInt(z - s.era * DAYS_PER_ERA)
            && IsInt(s.era * 400) && IsInt(s.yoe + s.era * 400 + 1)
  {
    EraOfDaysFits(days);
    var z := days + 719468;
    assert z / DAYS_PER_ERA * DAYS_PER_ERA == z - z % DAYS_PER_ERA;
    hide ShiftDays;
  }

  /** Whenever the first addition does not overflow, every interval comment of `from_days` holds and no
      temporary wraps. */
  lemma FromDaysIntervals(days: int)
    requires IsInt(days) && IsInt(days + 719468)
    ensures var s := MachineShiftDays(days);
            && s == ShiftDays(days) && -14700 <= s.era <= 14700
            && 0 <= MachineDoeOfDays(days) <= 146096 && 0 <= s.yoe <= 399 && 0 <= s.doy <= 365
            && 0 <= MachineMonthIndex(s.doy) <= 11 && 1 <= MachineDay(s.doy) <= 31 && 1 <= MachineMonth(s.doy) <= 12
  {
    var z, s := days + 719468, ShiftDays(days);
    EraOfDaysFits(days);
    DateFits(s.doy);
    hide MachineMonthIndex, MachineDay, MachineMonth;
    YearFits(z % DAYS_PER_ERA, s.yoe);
    hide MachineYoe, YearStart, MachineDoeOfDays;
  }

  lemma UnshiftFits(s: Shifted)
    requires 0 <= s.yoe <= 399 && 0 <= s.doy <= 365 && -14700 <= s.era <= 14700
    ensures MachineUnshiftDate(s) == UnshiftDate(s).(year := S16(UnshiftDate(s).year))
  {
  }

  /** The machine result is the mathematical date with its year narrowed to `short`. */
  lemma FromDaysFits(days: int)
    requires IsInt(days) && IsInt(days + 719468)
    ensures MachineFromDays(days) == FromDays(days).(year := S16(FromDays(days).year))
  {
    FromDaysIntervals(days);
    var s := MachineShiftDays(days);
    UnshiftFits(s);
  }

  /** The year survives exactly on the days from -32768-01-01 to 32767-12-31. */
  lemma FromDaysExact(days: int)
    requires IsInt(days) && IsInt(days + 719468)
    ensures MachineFromDays(days) == FromDays(days)
            <==> ToDays(Date(-0x8000, 1, 1)) <= days <= ToDays(Date(0x7FFF, 12, 31))
  {
    hide FromDays, ToDays, MachineFromDays;
    FromDaysFits(days);
    var date := FromDays(days);
    DaysBetween(days, Date(-0x8000, 1, 1), Date(0x7FFF, 12, 31), date);
    NarrowYear(date);
  }

  lemma NarrowYear(date: Date)
    requires Valid(date)
    ensures date.(year := S16(date.year)) == date
            <==> !Before(date, Date(-0x8000, 1, 1)) && !Before(Date(0x7FFF, 12, 31), date)
  {
  }

  lemma DaysBetween(days: int, first: Date, last: Date, date: Date)
    requires Valid(first) && Valid(last) && date == FromDays(days)
    ensures Valid(date)
    ensures ToDays(first) <= days <= ToDays(last) <==> !Before(date, first) && !Before(last, date)
  {
    ToDaysInverts(days);
    ToDaysMonotone(date, first);
    ToDaysMonotone(last, date);
  }
}
