/** Weekdays and their arithmetic, Sunday being 0. */
module Weekday {
  import opened Civil
  import opened MachineCivil

  const SUNDAY := 0
  const MONDAY := 1
  const THURSDAY := 4

  /** A weekday as constructed from a number: 7 is Sunday again. */
  function FromEncoding(wd: int): int {
    if wd != 7 then wd else 0
  }

  predicate Ok(wd: int) {
    0 <= wd <= 6
  }

  /** The weekday of a day, with the code's branch at -4 around the unsigned wrap. */
  function OfDays(z: int): int {
    if z >= -4 then U32(U32(z) + 4) % 7 else U32(z) % 7
  }

  /** The weekday on the unbounded line of days; on every `int` it is what the code computes. */
  function Of(z: int): int {
    (z + 4) % 7
  }

  /** The difference of two weekdays, in days. */
  function Minus(x: int, y: int): int {
    var wdu := x - y;
    var wk := Quot(if wdu >= 0 then wdu else wdu - 6, 7);
    wdu - wk * 7
  }

  function Plus(x: int, days: int): int {
    var wdu := x + days;
    var wk := Quot(if wdu >= 0 then wdu else wdu - 6, 7);
    FromEncoding(wdu - wk * 7)
  }

  // ---------- Walking through the week ----------

  function Tomorrow(wd: int): (next: int)
    requires Ok(wd)
    ensures Ok(next)
  {
    match wd
    case 6 => 0
    case _ => wd + 1
  }

  /** The weekday reached from `wd` by n nights. */
  ghost function Walk(wd: int, n: nat): (later: int)
    requires Ok(wd)
    ensures Ok(later)
  {
    if n == 0 then wd else Tomorrow(Walk(wd, n - 1))
  }

  lemma Mod7(a: int, b: int)
    ensures (a % 7 + b) % 7 == (a + b) % 7
  {
  }

  lemma {:induction false} WalkIsModular(wd: int, n: nat)
    requires Ok(wd)
    ensures Walk(wd, n) == (wd + n) % 7
  {
    if n > 0 {
      WalkIsModular(wd, n - 1);
      Mod7(wd + n - 1, 1);
    }
  }

  lemma PlusIsModular(wd: int, days: int)
    ensures Plus(wd, days) == (wd + days) % 7
  {
  }

  lemma MinusIsModular(x: int, y: int)
    ensures Minus(x, y) == (x - y) % 7
  {
  }

  /** Because 2^32 leaves the remainder 4 when divided by 7, the branch without the "+ 4" is right for
      every day the unsigned cast wraps, and the branch with it for every other. */
  lemma OfDaysIsModular(z: int)
    requires IsInt(z)
    ensures OfDays(z) == Of(z)
  {
  }

  /** The weekday of a day is found by walking: day 0 was a Thursday, and every later day follows the
      one before, whichever day one starts from. */
  lemma OfDaysWalks(z: int, n: nat)
    requires IsInt(z) && IsInt(z + n)
    ensures OfDays(0) == THURSDAY && Ok(OfDays(z))
    ensures OfDays(z + n) == Walk(OfDays(z), n)
  {
    OfDaysIsModular(z);
    OfDaysIsModular(z + n);
    assert OfDays(0) == THURSDAY;
    hide OfDays;
    WalkIsModular(OfDays(z), n);
    Mod7(z + 4, n);
  }

  /** A difference is the number of nights to wait, never negative, and adding it back undoes it. */
  lemma DifferenceIsWait(x: int, y: int)
    requires Ok(x) && Ok(y)
    ensures 0 <= Minus(x, y) <= 6
    ensures Plus(y, Minus(x, y)) == x && Walk(y, Minus(x, y)) == x
  {
    MinusIsModular(x, y);
    hide Minus, Plus, Walk;
    var wait := Minus(x, y);
    PlusIsModular(y, wait);
    WalkIsModular(y, wait);
    Mod7(x - y, y);
    assert (x - y) + y == x;
  }

  /** Adding days to a weekday walks, forwards and backwards. */
  lemma PlusWalks(wd: int, n: int)
    requires Ok(wd) && n >= 0
    ensures Ok(Plus(wd, n)) && Plus(wd, n) == Walk(wd, n)
    ensures Ok(Plus(wd, -n)) && Walk(Plus(wd, -n), n) == wd
  {
    var back := wd - n;
    PlusIsModular(wd, n);
    PlusIsModular(wd, -n);
    hide Plus;
    WalkIsModular(wd, n);
    WalkIsModular(back % 7, n);
    Mod7(back, n);
  }

  /** The weekday of a day shifted by any count is the weekday shifted by that count. */
  lemma OfDaysShifts(z: int, n: int)
    requires IsInt(z) && IsInt(z + n)
    ensures OfDays(z + n) == Plus(OfDays(z), n)
  {
    OfDaysIsModular(z);
    OfDaysIsModular(z + n);
    hide OfDays;
    PlusIsModular(OfDays(z), n);
    hide Plus;
    Mod7(z + 4, n);
  }

  /** Going back by the difference finds the latest day, up to z, with the wanted weekday. */
  lemma GoBack(z: int, wd: int)
    requires Ok(wd)
    ensures Of(z - Minus(Of(z), wd)) == wd
    ensures 0 <= Minus(Of(z), wd) <= 6
  {
  }

  /** Going forward by the difference finds the earliest day, from z, with the wanted weekday. */
  lemma GoForward(z: int, wd: int)
    requires Ok(wd)
    ensures Of(z + Minus(wd, Of(z))) == wd
    ensures 0 <= Minus(wd, Of(z)) <= 6
  {
  }
}
