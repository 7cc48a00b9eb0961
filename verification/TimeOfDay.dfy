/** Timestamps as a date and a time of day, for any number of ticks per second. */
module TimeOfDay {
  import opened Calendar
  import Civil

  /** Hours, minutes, whole seconds and the ticks left over, with the sign kept apart. */
  datatype Clock = Clock(h: int, m: int, s: int, sub: int, neg: bool)

  function Abs(d: int): int {
    if d >= 0 then d else -d
  }

  /** hh_mm_ss of a duration in ticks. */
  function OfDuration(d: int, sec: int): Clock
    requires sec > 0
  {
    var h := Civil.Quot(Abs(d), sec * 60 * 60);
    var m := Civil.Quot(Abs(d), sec * 60) - h * 60;
    var rest := Abs(d) - h * (sec * 60 * 60) - m * (sec * 60);
    Clock(h, m, Civil.Quot(rest, sec), rest - Civil.Quot(rest, sec) * sec, d < 0)
  }

  function ToDuration(c: Clock, sec: int): int {
    (c.s * sec + c.sub + c.m * (sec * 60) + c.h * (sec * 60 * 60)) * (1 - 2 * (if c.neg then 1 else 0))
  }

  predicate InConventionalRange(c: Clock, sec: int) {
    !c.neg && c.h < 24 && c.m < 60 && c.s < 60 && c.sub < sec
  }

  datatype Split = Split(days: int, tod: int)

  /** The day and the time of day as the printer splits a timestamp: truncated toward zero, and corrected
      when that overshoots. */
  function SplitTime(t: int, sec: int): Split
    requires sec > 0
  {
    var day := sec * 60 * 60 * 24;
    var sd := Civil.Quot(t, day);
    if sd * day <= t then Split(sd, t - sd * day) else Split(sd - 1, day - (sd * day - t))
  }

  /** The timestamp the parser puts together again. */
  function JoinTime(date: Date, c: Clock, sec: int): int {
    Civil.ToDays(date) * (sec * 60 * 60 * 24) + ToDuration(c, sec)
  }

  /** Every field is in its range on its own. */
  predicate Normal(c: Clock, sec: int) {
    0 <= c.h && 0 <= c.m < 60 && 0 <= c.s < 60 && 0 <= c.sub < sec
  }

  // ---------- Mixed radix ----------

  lemma Grows(k: int, b: int)
    requires k >= 1 && b > 0
    ensures k * b >= b
  {
  }

  lemma NoSmallMultiple(k: int, b: int)
    requires b > 0 && -b < k * b < b
    ensures k == 0
  {
  }

  lemma DivUnique(a: int, b: int, q: int, r: int)
    requires b > 0 && a == q * b + r && 0 <= r < b
    ensures q == a / b && r == a % b
  {
    var q', r' := a / b, a % b;
    assert a == q' * b + r' && 0 <= r' < b;
    assert (q - q') * b == r' - r;
    NoSmallMultiple(q - q', b);
  }

  /** A quotient by 60 units is the quotient by 60 of the quotient by one unit. */
  lemma Div60(a: int, unit: int)
    requires a >= 0 && unit > 0
    ensures a / (unit * 60) == a / unit / 60
  {
    var q := a / unit;
    var low := q % 60;
    assert q == q / 60 * 60 + low;
    assert a == (q / 60 * 60 + low) * unit + a % unit;
    assert a == q / 60 * (unit * 60) + (low * unit + a % unit);
    assert low * unit >= 0;
    Grows(60 - low, unit);
    assert (60 - low) * unit == 60 * unit - low * unit;
    DivUnique(a, unit * 60, q / 60, q % 60 * unit + a % unit);
  }

  lemma Expand(h: int, m: int, s: int, sec: int)
    ensures (h * 3600 + m * 60 + s) * sec == h * (sec * 60 * 60) + m * (sec * 60) + s * sec
  {
  }

  lemma SecondsSplit(s: int)
    ensures s == s / 60 / 60 * 3600 + s / 60 % 60 * 60 + s % 60
  {
  }

  /** The seconds of a duration, once hours and minutes are taken away. */
  lemma RestOf(a: int, sec: int)
    requires a >= 0 && sec > 0
    ensures var s := a / sec;
            var rest := a - s / 60 / 60 * (sec * 60 * 60) - s / 60 % 60 * (sec * 60);
            rest >= 0 && rest / sec == s % 60 && rest - rest / sec * sec == a % sec
  {
    var s := a / sec;
    Remainder(a, sec);
    SecondsSplit(s);
    Expand(s / 60 / 60, s / 60 % 60, s % 60, sec);
    var rest := (s % 60) * sec + a % sec;
    NaturalProduct(s % 60, sec);
    DivUnique(rest, sec, s % 60, a % sec);
  }

  lemma NaturalProduct(x: int, y: int)
    requires x >= 0 && y >= 0
    ensures x * y >= 0
  {
  }

  lemma FieldsOf(a: int, sec: int)
    requires a >= 0 && sec > 0
    ensures OfDuration(a, sec) == Clock(a / sec / 60 / 60, a / sec / 60 % 60, a / sec % 60, a % sec, false)
  {
    Div60(a, sec);
    Div60(a, sec * 60);
    RestOf(a, sec);
    MinutesOf(a / sec / 60);
  }

  lemma MinutesOf(m: int)
    ensures m - m / 60 * 60 == m % 60
  {
  }

  lemma DurationOf(s: int, sub: int, sec: int)
    ensures ToDuration(Clock(s / 60 / 60, s / 60 % 60, s % 60, sub, false), sec) == s * sec + sub
  {
  }

  lemma Signed(c: Clock, neg: bool, sec: int)
    requires !c.neg
    ensures ToDuration(c.(neg := neg), sec) == if neg then -ToDuration(c, sec) else ToDuration(c, sec)
  {
  }

  lemma Unsigned(d: int, sec: int)
    requires sec > 0
    ensures OfDuration(d, sec) == OfDuration(Abs(d), sec).(neg := d < 0)
  {
  }

  // ---------- What the split means ----------

  /** Splitting any duration, negative ones included, into clock fields loses nothing and normalizes
      every field. */
  lemma ClockRoundTrip(d: int, sec: int)
    requires sec > 0
    ensures ToDuration(OfDuration(d, sec), sec) == d
    ensures Normal(OfDuration(d, sec), sec) && (OfDuration(d, sec).neg <==> d < 0)
  {
    hide OfDuration, ToDuration;
    Unsigned(d, sec);
    NaturalRoundTrip(Abs(d), sec);
    Signed(OfDuration(Abs(d), sec), d < 0, sec);
  }

  lemma NaturalRoundTrip(a: int, sec: int)
    requires a >= 0 && sec > 0
    ensures ToDuration(OfDuration(a, sec), sec) == a
    ensures Normal(OfDuration(a, sec), sec) && !OfDuration(a, sec).neg
  {
    hide OfDuration, ToDuration;
    FieldsOf(a, sec);
    DurationOf(a / sec, a % sec, sec);
    Remainder(a, sec);
    ClockFields(a / sec);
  }

  lemma Remainder(a: int, b: int)
    requires a >= 0 && b > 0
    ensures a / b * b + a % b == a && 0 <= a % b < b && a / b >= 0
  {
  }

  lemma ClockFields(s: int)
    requires s >= 0
    ensures s / 60 / 60 >= 0 && 0 <= s / 60 % 60 < 60 && 0 <= s % 60 < 60
  {
  }

  /** The fields are the only normal ones that denote the duration. */
  lemma ClockUnique(c: Clock, sec: int)
    requires sec > 0 && Normal(c, sec) && (c.neg ==> ToDuration(c, sec) < 0)
    ensures OfDuration(ToDuration(c, sec), sec) == c
  {
    var s := c.h * 3600 + c.m * 60 + c.s;
    var a := s * sec + c.sub;
    assert c.h == s / 60 / 60 && c.m == s / 60 % 60 && c.s == s % 60;
    DurationOf(s, c.sub, sec);
    DivUnique(a, sec, s, c.sub);
    FieldsOf(a, sec);
    assert a >= 0;
    assert ToDuration(c, sec) == if c.neg then -a else a;
    assert OfDuration(-a, sec) == OfDuration(a, sec).(neg := -a < 0);
  }

  /** The corrected split is the floor: the time of day is never negative and less than a day. */
  lemma SplitIsFloor(t: int, sec: int)
    requires sec > 0
    ensures var day := sec * 60 * 60 * 24;
            var r := SplitTime(t, sec);
            0 <= r.tod < day && r.days * day + r.tod == t && r.days == t / day
  {
    var day := sec * 60 * 60 * 24;
    var q := Civil.Quot(t, day);
    var r := SplitTime(t, sec);
    if t >= 0 {
      assert t == q * day + t % day;
    } else {
      assert -t == (-q) * day + (-t) % day;
    }
    assert (q - 1) * day == q * day - day;
    DivUnique(t, day, r.days, r.tod);
  }

  /** For every timestamp, negative ones included, the printed time of day is in conventional range, and
      the printed date and time are read back as the timestamp. */
  lemma TimestampRoundTrip(t: int, sec: int)
    requires sec > 0
    ensures var r := SplitTime(t, sec);
            var c := OfDuration(r.tod, sec);
            && !c.neg && 0 <= c.h < 24 && 0 <= c.m < 60 && 0 <= c.s < 60 && 0 <= c.sub < sec
            && InConventionalRange(c, sec)
            && Valid(Civil.FromDays(r.days))
            && JoinTime(Civil.FromDays(r.days), OfDuration(r.tod, sec), sec) == t
  {
    hide Civil.ToDays, Civil.FromDays;
    var r := SplitTime(t, sec);
    SplitIsFloor(t, sec);
    hide SplitTime;
    ClockRoundTrip(r.tod, sec);
    HoursOfDay(r.tod, sec);
    Civil.ToDaysInverts(r.days);
    hide OfDuration, ToDuration;
  }

  lemma HoursOfDay(tod: int, sec: int)
    requires sec > 0 && 0 <= tod < sec * 60 * 60 * 24
    ensures OfDuration(tod, sec).h < 24
  {
    Below(tod, sec * 60 * 60, 24);
  }

  lemma Below(a: int, b: int, k: int)
    requires b > 0 && 0 <= a < b * k
    ensures a / b < k
  {
  }
}
