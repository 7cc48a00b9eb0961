/** Months and year-months under addition of a number of months. */
module MonthArithmetic {
  import opened Civil
  import opened MachineCivil

  datatype YearMonth = YearMonth(year: int, month: int)

  predicate OkMonth(m: int) {
    1 <= m <= 12
  }

  /** month - month, through an unsigned difference that wraps. */
  function MonthMinus(x: int, y: int): int {
    var d := U32(x - y);
    S32(if d <= 11 then d else U32(d + 12))
  }

  /** month + months */
  function MonthPlus(x: int, months: int): int {
    var mu := x + months - 1;
    var yr := Quot(if mu >= 0 then mu else mu - 11, 12);
    mu - yr * 12 + 1
  }

  /** year_month + months */
  function Plus(ym: YearMonth, months: int): YearMonth {
    var dmi := ym.month - 1 + months;
    var dy := Quot(if dmi >= 0 then dmi else dmi - 11, 12);
    YearMonth(ym.year + dy, dmi - dy * 12 + 1)
  }

  /** year_month - year_month: the months of the year difference, and an unsigned month difference
      that is read back as a signed count. */
  function Minus(x: YearMonth, y: YearMonth): int {
    12 * (x.year - y.year) + S32(U32(x.month - y.month))
  }

  // ---------- The group of integers acts on year-months ----------

  /** The number of months since the start of year 0. */
  function Index(ym: YearMonth): int {
    12 * ym.year + ym.month - 1
  }

  /** Adding months is addition of indices, and the result is the only valid year-month there. */
  lemma PlusAddsIndex(ym: YearMonth, n: int)
    ensures Index(Plus(ym, n)) == Index(ym) + n && OkMonth(Plus(ym, n).month)
    ensures forall other: YearMonth {:trigger Index(other)} ::
              OkMonth(other.month) && Index(other) == Index(ym) + n ==> other == Plus(ym, n)
  {
  }

  lemma PlusActs(ym: YearMonth, a: int, b: int)
    requires OkMonth(ym.month)
    ensures Plus(ym, 0) == ym
    ensures Plus(Plus(ym, a), b) == Plus(ym, a + b)
  {
  }

  lemma MinusSubtractsIndex(x: YearMonth, y: YearMonth)
    requires OkMonth(x.month) && OkMonth(y.month)
    ensures Minus(x, y) == Index(x) - Index(y)
  {
  }

  /** Subtraction inverts addition, on either side. */
  lemma MinusUndoesPlus(x: YearMonth, y: YearMonth, n: int)
    requires OkMonth(x.month) && OkMonth(y.month)
    ensures Minus(Plus(x, n), x) == n
    ensures Plus(y, Minus(x, y)) == x
  {
    PlusAddsIndex(x, n);
    PlusAddsIndex(y, Minus(x, y));
    hide Plus, Minus;
    MinusSubtractsIndex(x, y);
    MinusSubtractsIndex(Plus(x, n), x);
  }

  lemma MonthMinusIsModular(x: int, y: int)
    requires OkMonth(x) && OkMonth(y)
    ensures MonthMinus(x, y) == (x - y) % 12
  {
  }

  lemma MonthPlusIsModular(x: int, n: int)
    ensures MonthPlus(x, n) == (x + n - 1) % 12 + 1
  {
  }

  /** Months alone are the same action modulo a year. */
  lemma MonthsFollowYearMonths(ym: YearMonth, n: int)
    requires OkMonth(ym.month)
    ensures MonthPlus(ym.month, n) == Plus(ym, n).month
  {
  }

  /** The wrapped difference of two months counts the months to wait for the next x after y. */
  lemma MonthMinusIsWait(x: int, y: int)
    requires OkMonth(x) && OkMonth(y)
    ensures 0 <= MonthMinus(x, y) <= 11
    ensures MonthPlus(y, MonthMinus(x, y)) == x
  {
    MonthMinusIsModular(x, y);
    MonthPlusIsModular(y, MonthMinus(x, y));
  }

  // ---------- In the widths of the code ----------

  /** A year-month as the classes can hold it. */
  predicate IsMachine(ym: YearMonth) {
    IsShort(ym.year) && IsUChar(ym.month)
  }

  /** year_month + months, with an `int` sum, a `short` year and an `unsigned char` month. */
  function MachinePlus(ym: YearMonth, months: int): YearMonth {
    var dmi := ym.month - 1 + months;
    var dy := Quot(if dmi >= 0 then dmi else dmi - 11, 12);
    YearMonth(S16(ym.year + dy), U8(U32(dmi - dy * 12 + 1)))
  }

  /** No signed operation of year_month + months leaves the `int`s. */
  predicate SumFits(ym: YearMonth, months: int) {
    var dmi := ym.month - 1 + months;
    var adjusted := if dmi >= 0 then dmi else dmi - 11;
    var dy := Quot(adjusted, 12);
    && IsInt(ym.month - 1) && IsInt(dmi) && IsInt(adjusted)
    && IsInt(dy * 12) && IsInt(dmi - dy * 12) && IsInt(dmi - dy * 12 + 1) && IsInt(ym.year + dy)
  }

  /** The signed operations are in range exactly when the sum is one, and is not one of the eleven least, from which
      the correction of the quotient would leave the range. */
  lemma SumFitsExactly(ym: YearMonth, months: int)
    requires IsMachine(ym) && IsInt(months)
    ensures SumFits(ym, months) <==> INT_MIN + 11 <= ym.month - 1 + months <= INT_MAX
  {
  }

  /** The machine result is the mathematical one with its year narrowed to `short`, so that it is exact if and only
      if the sum of the indices is that of a year from -32768 to 32767. */
  lemma MachinePlusExactly(ym: YearMonth, months: int)
    requires IsMachine(ym) && SumFits(ym, months)
    ensures MachinePlus(ym, months) == Plus(ym, months).(year := S16(Plus(ym, months).year))
    ensures MachinePlus(ym, months) == Plus(ym, months)
            <==> 12 * -0x8000 <= Index(ym) + months <= 12 * 0x7FFF + 11
  {
    PlusAddsIndex(ym, months);
  }

  /** The difference of any two year-months is in range, and adding it to one gives the other without narrowing. */
  lemma MachineDifferenceFits(x: YearMonth, y: YearMonth)
    requires IsMachine(x) && IsMachine(y) && OkMonth(x.month) && OkMonth(y.month)
    ensures IsInt(x.year - y.year) && IsInt(12 * (x.year - y.year)) && IsInt(Minus(x, y))
    ensures SumFits(y, Minus(x, y)) && MachinePlus(y, Minus(x, y)) == x
  {
    MinusSubtractsIndex(x, y);
    MinusUndoesPlus(x, y, 0);
    SumFitsExactly(y, Minus(x, y));
    hide Minus, Quot;
    MachinePlusExactly(y, Minus(x, y));
  }
}
