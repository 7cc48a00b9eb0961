/** Dates as text: the printing and the parsing of %F, of %C%y and of %G-W%V-%u, and exactly when each is
    read back. */
module Formats {
  import opened Options
  import opened Calendar
  import opened MachineCivil
  import opened Streams
  import opened ParsedDate
  import Civil
  import Weekday
  import WeekDates

  // ---------- Printing ----------

  function Decimal(n: nat): (s: string)
    ensures |s| > 0 && AllDigits(s)
  {
    if n < 10 then [Digit(n)] else Decimal(n / 10) + [Digit(n % 10)]
  }

  function Digit(n: nat): (c: char)
    requires n < 10
    ensures IsDigit(c) && DigitValue(c) == n
  {
    '0' + n as char
  }

  function ZeroFill(s: string, width: nat): (r: string)
    ensures AllDigits(s) ==> AllDigits(r)
    ensures |r| == if |s| < width then width else |s|
    decreases width - |s|
  {
    if |s| < width then ZeroFill("0" + s, width) else s
  }

  /** A number printed with fill '0', aligned to the right: the fill precedes the sign. */
  function RightAligned(n: int, width: nat): string {
    ZeroFill(if n < 0 then "-" + Decimal(-n) else Decimal(n), width)
  }

  /** A year by itself: the fill goes between the sign and the digits. */
  function YearText(year: int): string {
    if year < 0 then "-" + ZeroFill(Decimal(-year), 4) else ZeroFill(Decimal(year), 4)
  }

  /** %F */
  function FullDateText(date: Date): string {
    RightAligned(date.year, 4) + "-" + RightAligned(date.month, 2) + "-" + RightAligned(date.day, 2)
  }

  /** %C */
  function CenturyText(year: int): string {
    var c := PrintedC(year);
    if year >= 0 then RightAligned(c, 2) else "-" + RightAligned(-c, 2)
  }

  /** %V; %y has the same form. */
  function TwoDigits(n: int): string {
    if n < 10 then "0" + RightAligned(n, 0) else RightAligned(n, 0)
  }

  /** %u, from a weekday that counts from Sunday. */
  function IsoEncoding(wd: int): int {
    if wd != 0 then wd else 7
  }

  /** %G-W%V-%u */
  function WeekDateText(days: int): string {
    YearText(WeekDates.PrintedG(days)) + "-" + "W" + TwoDigits(WeekDates.PrintedV(days))
    + "-" + RightAligned(IsoEncoding(Weekday.Of(days)), 0)
  }

  // ---------- Parsing ----------

  /** The fields a format stored, and the position after the last character read. */
  datatype Scan = Scan(fields: Fields, pos: nat)

  function FullDateAt(text: string, pos: nat): Option<Scan>
    requires pos <= |text|
  {
    var y :- SignedAt(text, pos, 1, 4);
    var p :- CharAt(text, y.pos, '-');
    var m :- UnsignedAt(text, p, 1, 2);
    var q :- CharAt(text, m.pos, '-');
    var d :- UnsignedAt(text, q, 1, 2);
    Some(Scan(NOTHING.(Y := y.value, m := m.value, d := d.value), d.pos))
  }

  function CenturyAndYearAt(text: string, pos: nat): Option<Scan>
    requires pos <= |text|
  {
    var c :- SignedAt(text, pos, 1, 2);
    var y :- UnsignedAt(text, c.pos, 1, 2);
    Some(Scan(NOTHING.(C := c.value, y := y.value), y.pos))
  }

  function WeekDateAt(text: string, pos: nat): Option<Scan>
    requires pos <= |text|
  {
    var g :- SignedAt(text, pos, 1, 4);
    var p :- CharAt(text, g.pos, '-');
    var q :- CharAt(text, p, 'W');
    var v :- UnsignedAt(text, q, 1, 2);
    var r :- CharAt(text, v.pos, '-');
    var u :- UnsignedAt(text, r, 1, 1);
    if 1 <= u.value <= 7 then
      Some(Scan(NOTHING.(G := g.value, V := v.value, wd := if u.value == 7 then 0 else u.value), u.pos))
    else None
  }

  /** The reads of %F; a value is stored only when the stream has not failed. */
  method ParseFullDate(input: Input) returns (f: Fields)
    requires input.Valid() && !input.fail
    modifies input`pos, input`eof, input`fail
    ensures input.Valid()
    ensures input.fail <==> FullDateAt(input.text, old(input.pos)).None?
    ensures !input.fail ==> FullDateAt(input.text, old(input.pos)) == Some(Scan(f, input.pos))
  {
    hide SignedAt, UnsignedAt, CharAt, DigitRun, Value, AllDigits;
    f := NOTHING;
    var tY := input.ReadSigned(1, 4);
    if input.fail { return; }
    input.ReadChar('-');
    if input.fail { return; }
    var tm := input.ReadUnsigned(1, 2);
    if input.fail { return; }
    input.ReadChar('-');
    if input.fail { return; }
    var td := input.ReadUnsigned(1, 2);
    if input.fail { return; }
    f := f.(Y := tY, m := tm, d := td);
  }

  // ---------- Digits ----------

  lemma {:induction false} DecimalValue(n: nat)
    ensures Value(Decimal(n)) == n
  {
    var s := Decimal(n);
    if n >= 10 {
      DecimalValue(n / 10);
      assert s[..|s| - 1] == Decimal(n / 10);
    } else {
      assert s[..0] == "";
    }
  }

  function Power10(k: nat): (p: nat)
    ensures p >= 1
  {
    if k == 0 then 1 else 10 * Power10(k - 1)
  }

  lemma {:induction false} DecimalLength(n: nat, k: nat)
    requires k > 0
    ensures |Decimal(n)| <= k <==> n < Power10(k)
    decreases k
  {
    if n >= 10 && k > 1 {
      DecimalLength(n / 10, k - 1);
    } else if n >= 10 {
      assert Power10(1) == 10 * Power10(0);
    } else {
      assert Power10(k) == 10 * Power10(k - 1);
    }
  }

  lemma {:induction false} ZeroFillValue(s: string, width: nat)
    requires AllDigits(s)
    ensures AllDigits(ZeroFill(s, width)) && Value(ZeroFill(s, width)) == Value(s)
    decreases width - |s|
  {
    if |s| < width {
      LeadingZero(s);
      ZeroFillValue("0" + s, width);
    }
  }

  lemma {:induction false} LeadingZero(s: string)
    requires AllDigits(s)
    ensures Value("0" + s) == Value(s)
  {
    var t := "0" + s;
    if s == "" {
      assert t[..0] == "";
    } else {
      assert t[..|t| - 1] == "0" + s[..|s| - 1];
      LeadingZero(s[..|s| - 1]);
    }
  }

  lemma {:induction false} ValueBound(s: string)
    requires AllDigits(s)
    ensures Value(s) < Power10(|s|)
  {
    if s != "" {
      ValueBound(s[..|s| - 1]);
    }
  }

  // ---------- What is printed ----------

  /** The i-th character from the right is the digit of that place. */
  lemma {:induction false} ValuePlaces(s: string, i: nat)
    requires AllDigits(s) && i < |s|
    ensures DigitValue(s[|s| - 1 - i]) == (Value(s) / Power10(i)) % 10
    decreases i
  {
    var front := s[..|s| - 1];
    if i > 0 {
      ValuePlaces(front, i - 1);
      NextPlace(Value(front), DigitValue(s[|s| - 1]), Power10(i - 1));
    }
  }

  lemma NextPlace(v: nat, digit: nat, p: nat)
    requires digit < 10 && p > 0
    ensures (10 * v + digit) / (10 * p) == v / p
  {
    var q, r := v / p, v % p;
    assert v == q * p + r;
    assert 10 * v + digit == q * (10 * p) + (10 * r + digit) && 10 * r + digit < 10 * p;
    DivisionIsUnique(10 * v + digit, 10 * p, q, 10 * r + digit);
  }

  lemma DivisionIsUnique(x: nat, d: nat, q: nat, r: nat)
    requires x == q * d + r && r < d
    ensures x / d == q
  {
    var e := x / d - q;
    assert x == (x / d) * d + x % d;
    assert e * d == r - x % d by { assert (x / d) * d == q * d + e * d; }
  }

  /** The number in decimal, with zeros in front up to the width, and longer only as far as it takes. */
  predicate IsNumber(s: string, n: nat, width: nat) {
    && AllDigits(s) && s != "" && Value(s) == n
    && |s| >= width && (|s| > width && |s| > 1 ==> n >= Power10(|s| - 1))
  }

  /** The same behind a minus sign for a negative number, and without a sign for any other. */
  predicate IsSigned(s: string, negative: bool, n: nat, width: nat) {
    if negative then s != "" && s[0] == '-' && IsNumber(s[1..], n, width) else IsNumber(s, n, width)
  }

  lemma {:induction false} SameValue(s: string, t: string)
    requires AllDigits(s) && AllDigits(t) && |s| == |t| && Value(s) == Value(t)
    ensures s == t
  {
    if s != "" {
      var m, n := Value(s[..|s| - 1]), Value(t[..|t| - 1]);
      assert 10 * m + DigitValue(s[|s| - 1]) == 10 * n + DigitValue(t[|t| - 1]);
      assert m == n;
      SameValue(s[..|s| - 1], t[..|t| - 1]);
    }
  }

  /** There is one such text only. */
  lemma NumberIsUnique(s: string, t: string, n: nat, width: nat)
    requires IsNumber(s, n, width) && IsNumber(t, n, width)
    ensures s == t
  {
    hide Value, Power10;
    ValueBound(s);
    ValueBound(t);
    if |s| < |t| {
      PowersGrow(|s|, |t| - 1);
    } else if |t| < |s| {
      PowersGrow(|t|, |s| - 1);
    }
    SameValue(s, t);
  }

  lemma FilledIsNumber(n: nat, width: nat)
    ensures IsNumber(ZeroFill(Decimal(n), width), n, width)
  {
    hide Value;
    DecimalValue(n);
    ZeroFillValue(Decimal(n), width);
    if |Decimal(n)| > 1 {
      DecimalLength(n, |Decimal(n)| - 1);
    }
  }

  /** %C: the century rounded down; a minus sign exactly for the years before 0. */
  lemma CenturyTextExactly(year: int)
    ensures IsSigned(CenturyText(year), year < 0, if year < 0 then -(year / 100) else year / 100, 2)
  {
    var c := PrintedC(year);
    FilledIsNumber(if year < 0 then -c else c, 2);
    hide IsNumber;
    assert year < 0 ==> CenturyText(year)[1..] == RightAligned(-c, 2);
  }

  /** %Y and %G: at least four digits; a minus sign exactly for the years before 0. */
  lemma YearTextExactly(year: int)
    ensures IsSigned(YearText(year), year < 0, if year < 0 then -year else year, 4)
  {
    var n := if year < 0 then -year else year;
    FilledIsNumber(n, 4);
    hide IsNumber;
    assert year < 0 ==> YearText(year)[1..] == ZeroFill(Decimal(n), 4);
  }

  lemma {:induction false} ZeroFillFront(s: string, width: nat)
    ensures ZeroFill(s, width) == seq(if |s| < width then width - |s| else 0, _ => '0') + s
    decreases width - |s|
  {
    if |s| < width {
      ZeroFillFront("0" + s, width);
      assert seq(width - |s| - 1, _ => '0') + ("0" + s) == seq(width - |s|, _ => '0') + s;
    }
  }

  /** %F: the year of at least four characters, a minus sign and zeros in front of it included; then the month and
      the day of two digits. */
  lemma FullDateTextExactly(date: Date)
    requires date.month >= 0 && date.day >= 0
    ensures var yt, mt, dt := RightAligned(date.year, 4), RightAligned(date.month, 2), RightAligned(date.day, 2);
            && FullDateText(date) == yt + "-" + mt + "-" + dt
            && IsNumber(mt, date.month, 2) && IsNumber(dt, date.day, 2)
            && (date.year >= 0 ==> IsNumber(yt, date.year, 4))
            && (date.year < 0 ==> exists digits: string ::
                  IsNumber(digits, -date.year, 0)
                  && yt == seq(if |digits| < 3 then 3 - |digits| else 0, _ => '0') + "-" + digits)
  {
    hide IsNumber, Decimal, ZeroFill;
    FilledIsNumber(date.month, 2);
    FilledIsNumber(date.day, 2);
    if date.year >= 0 {
      FilledIsNumber(date.year, 4);
    } else {
      NegativeText(-date.year);
    }
  }

  lemma NegativeText(n: int)
    requires n > 0
    ensures exists digits: string :: IsNumber(digits, n, 0)
              && RightAligned(-n, 4) == seq(if |digits| < 3 then 3 - |digits| else 0, _ => '0') + "-" + digits
  {
    hide IsNumber, Decimal, ZeroFill;
    var digits := Decimal(n);
    FilledIsNumber(n, 0);
    assert ZeroFill(digits, 0) == digits by { Filled(digits, 0); }
    ZeroFillFront("-" + digits, 4);
    var zeros := seq(if |digits| < 3 then 3 - |digits| else 0, _ => '0');
    assert zeros + ("-" + digits) == zeros + "-" + digits;
  }

  lemma Filled(s: string, width: nat)
    ensures |s| >= width ==> ZeroFill(s, width) == s
  {
  }

  lemma TwoDigitsExactly(n: nat)
    ensures IsNumber(TwoDigits(n), n, 2)
  {
    SmallPowers();
    if n < 10 {
      PlainText(n);
    } else {
      FilledIsNumber(n, 0);
      DecimalLength(n, 1);
    }
  }

  // ---------- Reading what was printed ----------

  lemma RunIs(text: string, pos: nat, most: nat, digits: string)
    requires AllDigits(digits) && (most == 0 || |digits| <= most)
    requires pos + |digits| <= |text| && text[pos..pos + |digits|] == digits
    requires pos + |digits| == |text| || !IsDigit(text[pos + |digits|]) || |digits| == most > 0
    ensures DigitRun(text, pos, most) == |digits|
  {
  }

  /** A run of digits that ends where the limit or a non-digit stops it is read whole. */
  lemma ReadsRun(text: string, pos: nat, most: nat, digits: string)
    requires AllDigits(digits) && 0 < |digits| < 10 && (most == 0 || |digits| <= most)
    requires pos + |digits| <= |text| && text[pos..pos + |digits|] == digits
    requires pos + |digits| == |text| || !IsDigit(text[pos + |digits|]) || |digits| == most > 0
    ensures UnsignedAt(text, pos, 1, most) == Some(Read(Value(digits), pos + |digits|))
    ensures Value(digits) < Power10(|digits|) <= Power10(9)
  {
    hide DigitRun, U32, S32, Value, Power10, AllDigits, IsDigit;
    RunIs(text, pos, most, digits);
    ValueBound(digits);
    PowersGrow(|digits|, 9);
    BillionFits(Value(digits));
  }

  lemma {:induction false} PowersGrow(a: nat, b: nat)
    requires a <= b
    ensures Power10(a) <= Power10(b)
    decreases b - a
  {
    if a < b {
      PowersGrow(a + 1, b);
    }
  }

  lemma BillionFits(x: int)
    requires 0 <= x < Power10(9)
    ensures U32(x) == x && S32(x) == x && S32(-x) == -x
  {
  }

  function Signed(neg: bool, n: int): int {
    if neg then -n else n
  }

  lemma ReadsSigned(text: string, pos: nat, most: nat, neg: bool, digits: string)
    requires AllDigits(digits) && 0 < |digits| < 10 && |digits| <= most
    requires var start := if neg then pos + 1 else pos;
             && start + |digits| <= |text| && text[start..start + |digits|] == digits
             && (neg ==> text[pos] == '-')
             && (start + |digits| == |text| || !IsDigit(text[start + |digits|]) || |digits| == most)
    ensures var start := if neg then pos + 1 else pos;
            SignedAt(text, pos, 1, most) == Some(Read(Signed(neg, Value(digits)), start + |digits|))
  {
    hide UnsignedAt, Value, S32;
    var start := if neg then pos + 1 else pos;
    ReadsRun(text, start, most, digits);
    PowersGrow(|digits|, 9);
    BillionFits(Value(digits));
    assert text[start] == text[start..start + |digits|][0];
  }

  lemma SmallPowers()
    ensures Power10(1) == 10 && Power10(2) == 100 && Power10(3) == 1000 && Power10(4) == 10000
  {
  }

  lemma TwoDigitText(n: int)
    requires 0 <= n <= 99
    ensures |RightAligned(n, 2)| == 2 && AllDigits(RightAligned(n, 2)) && Value(RightAligned(n, 2)) == n
  {
    SmallPowers();
    DecimalLength(n, 2);
    DecimalValue(n);
    ZeroFillValue(Decimal(n), 2);
  }

  // ---------- %F ----------

  /** The text starts with a full date that is parsed as the date, up to the position. */
  predicate FullDateParses(text: string, date: Date, pos: nat) {
    var r := FullDateAt(text, 0);
    r.Some? && Resolve(r.value.fields) == Some(date) && r.value.pos == pos
  }

  /** The years whose text the four-character field of the parser reads back. */
  predicate FullYear(year: int) {
    0 <= year <= 9999 || -9999 <= year <= -100
  }

  /** The two forms of a year differ in the fill of its negative years of less than four digits alone. */
  lemma YearForms(year: int)
    requires year >= 0 || year <= -1000
    ensures RightAligned(year, 4) == YearText(year)
  {
    SmallPowers();
    if year < 0 {
      DecimalLength(-year, 3);
    }
  }

  /** A year of at most four digits, printed by itself, is read back wherever it stands. */
  lemma YearTextReads(year: int, text: string, pos: nat)
    requires -9999 <= year <= 9999
    requires pos + |YearText(year)| <= |text| && text[pos..pos + |YearText(year)|] == YearText(year)
    ensures SignedAt(text, pos, 1, 4) == Some(Read(year, pos + |YearText(year)|))
  {
    hide SignedAt, Value, Decimal;
    SmallPowers();
    hide Power10;
    var n := if year < 0 then -year else year;
    DecimalValue(n);
    DecimalLength(n, 4);
    ZeroFillValue(Decimal(n), 4);
    var digits := ZeroFill(Decimal(n), 4);
    if year < 0 {
      assert YearText(year) == "-" + digits;
      FirstAndRest(text, pos, '-', digits);
    }
    ReadsSigned(text, pos, 4, year < 0, digits);
  }

  lemma YearReads(year: int, text: string, pos: nat)
    requires FullYear(year)
    requires var end := pos + |RightAligned(year, 4)|;
             end < |text| && text[pos..end] == RightAligned(year, 4) && text[end] == '-'
    ensures SignedAt(text, pos, 1, 4) == Some(Read(year, pos + |RightAligned(year, 4)|))
  {
    hide SignedAt, RightAligned, YearText;
    if year >= 0 || year <= -1000 {
      YearForms(year);
      YearTextReads(year, text, pos);
    } else {
      ThreeDigits(-year);
      FirstAndRest(text, pos, '-', Decimal(-year));
      ReadsSigned(text, pos, 4, true, Decimal(-year));
    }
  }

  lemma ThreeDigits(n: int)
    requires 100 <= n <= 999
    ensures |Decimal(n)| == 3 && Value(Decimal(n)) == n && RightAligned(-n, 4) == "-" + Decimal(n)
  {
    hide Decimal, Value;
    SmallPowers();
    DecimalValue(n);
    DecimalLength(n, 3);
    DecimalLength(n, 2);
  }

  lemma FirstAndRest(text: string, pos: nat, c: char, s: string)
    requires pos + |s| + 1 <= |text| && text[pos..pos + |s| + 1] == [c] + s
    ensures text[pos] == c && text[pos + 1..pos + 1 + |s|] == s
  {
  }

  lemma FieldsParse(text: string, pos: nat, yt: string, year: int, date: Date)
    requires 1 <= date.month <= 12 && 1 <= date.day <= 31
    requires var t := yt + "-" + RightAligned(date.month, 2) + "-" + RightAligned(date.day, 2);
             pos + |t| <= |text| && text[pos..pos + |t|] == t
    requires SignedAt(text, pos, 1, 4) == Some(Read(year, pos + |yt|))
    ensures FullDateAt(text, pos) == Some(Scan(NOTHING.(Y := year, m := date.month, d := date.day), pos + |yt| + 6))
  {
    hide SignedAt, UnsignedAt, RightAligned;
    TwoDigitText(date.month);
    TwoDigitText(date.day);
    var start := pos + |yt|;
    PartsOf(text, pos, yt, RightAligned(date.month, 2), RightAligned(date.day, 2));
    ReadsRun(text, start + 1, 2, RightAligned(date.month, 2));
    ReadsRun(text, start + 4, 2, RightAligned(date.day, 2));
  }

  lemma PartsOf(text: string, pos: nat, a: string, b: string, c: string)
    requires |b| == 2 && |c| == 2
    requires var t := a + "-" + b + "-" + c; pos + |t| <= |text| && text[pos..pos + |t|] == t
    ensures var start := pos + |a|;
            && start + 6 <= |text| && text[start] == '-' && text[start + 3] == '-'
            && text[start + 1..start + 3] == b && text[start + 4..start + 6] == c
  {
    var t, n := a + "-" + b + "-" + c, |a|;
    assert t[n] == '-' && t[n + 3] == '-';
    assert t[n + 1..n + 3] == b;
    assert t[n + 4..n + 6] == c;
    SliceOfSlice(text, pos, t, n, n + 1);
    SliceOfSlice(text, pos, t, n + 1, n + 3);
    SliceOfSlice(text, pos, t, n + 3, n + 4);
    SliceOfSlice(text, pos, t, n + 4, n + 6);
  }

  lemma SliceOfSlice(text: string, pos: nat, t: string, i: nat, j: nat)
    requires i < j <= |t| && pos + |t| <= |text| && text[pos..pos + |t|] == t
    ensures text[pos + i..pos + j] == t[i..j] && text[pos + i] == t[i]
  {
    forall k | i <= k < j ensures text[pos + k] == t[k] {
      assert text[pos..pos + |t|][k] == text[pos + k];
    }
  }

  /** A full date is read wherever it stands. */
  lemma FullDateReads(text: string, pos: nat, date: Date)
    requires FullYear(date.year) && 1 <= date.month <= 12 && 1 <= date.day <= 31
    requires pos + |FullDateText(date)| <= |text| && text[pos..pos + |FullDateText(date)|] == FullDateText(date)
    ensures FullDateAt(text, pos)
            == Some(Scan(NOTHING.(Y := date.year, m := date.month, d := date.day), pos + |FullDateText(date)|))
  {
    hide FullDateAt, SignedAt;
    FullDateShape(date, "");
    var yt, t := RightAligned(date.year, 4), FullDateText(date);
    hide RightAligned;
    assert t + "" == t;
    assert text[pos..pos + |yt|] == text[pos..pos + |t|][..|yt|] == yt;
    assert text[pos + |yt|] == text[pos..pos + |t|][|yt|] == '-';
    YearReads(date.year, text, pos);
    FieldsParse(text, pos, yt, date.year, date);
  }

  lemma ResolvesYmd(year: int, month: int, day: int, date: Date)
    requires YEAR_MIN <= year <= YEAR_MAX
    ensures Resolve(NOTHING.(Y := year, m := month, d := day)) == Some(date) ==> date.year == year
    ensures Civil.Ok(Date(year, month, day))
            ==> Resolve(NOTHING.(Y := year, m := month, d := day)) == Some(Date(year, month, day))
  {
  }

  /** Years of one or two digits below zero are printed with zeros before the sign, and read as zero. */
  lemma SmallNegativeYearReadsZero(year: int, text: string)
    requires -99 <= year <= -1 && RightAligned(year, 4) <= text
    ensures SignedAt(text, 0, 1, 4).Some? && SignedAt(text, 0, 1, 4).value.value == 0
  {
    hide SignedAt;
    SmallPowers();
    DecimalLength(-year, 1);
    DecimalLength(-year, 2);
    var yt, minus := RightAligned(year, 4), "-" + Decimal(-year);
    var zeros := if year > -10 then "00" else "0";
    assert yt == zeros + minus by {
      if year > -10 {
        assert ZeroFill(minus, 4) == ZeroFill("0" + minus, 4)
            == ZeroFill("0" + ("0" + minus), 4) == "0" + ("0" + minus);
      } else {
        assert ZeroFill(minus, 4) == ZeroFill("0" + minus, 4) == "0" + minus;
      }
    }
    assert text[..|yt|] == yt;
    assert text[0..|zeros|] == zeros;
    assert text[|zeros|] == yt[|zeros|] == '-';
    ReadsSigned(text, 0, 4, false, zeros);
    ZerosValue();
  }

  lemma ZerosValue()
    ensures Value("0") == 0 && Value("00") == 0
  {
  }

  /** Of a year of five digits or more, four are read, and a digit stands where the hyphen should. */
  lemma LongYearStops(year: int, text: string)
    requires year >= 10000 || year <= -10000
    requires YearText(year) <= text
    ensures SignedAt(text, 0, 1, 4).Some? ==> CharAt(text, SignedAt(text, 0, 1, 4).value.pos, '-').None?
  {
    hide SignedAt;
    SmallPowers();
    var yt, n, start := YearText(year), if year < 0 then -year else year, if year < 0 then 1 else 0;
    DecimalLength(n, 4);
    var digits := Decimal(n);
    assert yt == (if year < 0 then "-" + digits else digits);
    assert text[..|yt|] == yt;
    assert text[start..start + 4] == yt[start..start + 4] == digits[..4];
    assert text[start + 4] == yt[start + 4] == digits[4];
    ReadsSigned(text, 0, 4, year < 0, digits[..4]);
  }

  lemma FullDateShape(date: Date, rest: string)
    requires 1 <= date.month <= 12 && 1 <= date.day <= 31
    ensures var yt, text := RightAligned(date.year, 4), FullDateText(date) + rest;
            && text == yt + "-" + RightAligned(date.month, 2) + "-" + RightAligned(date.day, 2) + rest
            && yt < text && text[|yt|] == '-'
            && |FullDateText(date)| == |yt| + 6
  {
    hide RightAligned, AllDigits, Value;
    TwoDigitText(date.month);
    TwoDigitText(date.day);
    var yt, mt, dt := RightAligned(date.year, 4), RightAligned(date.month, 2), RightAligned(date.day, 2);
    var tail := "-" + mt + "-" + dt + rest;
    assert yt + "-" + mt + "-" + dt + rest == yt + tail;
  }

  /** The text of a date, followed by anything, is parsed back to the date, consuming exactly that text,
      if and only if the year has at most four digits and is not between -99 and -1. */
  lemma FullDateRoundTrip(date: Date, rest: string)
    requires Civil.Ok(date) && YEAR_MIN <= date.year <= YEAR_MAX
    ensures FullDateParses(FullDateText(date) + rest, date, |FullDateText(date)|) <==> FullYear(date.year)
  {
    hide SignedAt, UnsignedAt, Resolve, Civil.Ok, RightAligned, FullDateText;
    Civil.OkIsValid(date);
    var text := FullDateText(date) + rest;
    FullDateShape(date, rest);
    if FullYear(date.year) {
      assert text[0..|FullDateText(date)|] == FullDateText(date);
      FullDateReads(text, 0, date);
      ResolvesYmd(date.year, date.month, date.day, date);
    } else if -99 <= date.year <= -1 {
      SmallNegativeYearReadsZero(date.year, text);
      var r := FullDateAt(text, 0);
      if r.Some? {
        ResolvesYmd(0, r.value.fields.m, r.value.fields.d, date);
      }
    } else {
      YearForms(date.year);
      LongYearStops(date.year, text);
    }
  }

  // ---------- %G-W%V-%u ----------

  predicate WeekDateParses(text: string, date: Date, pos: nat) {
    var r := WeekDateAt(text, 0);
    r.Some? && Resolve(r.value.fields) == Some(date) && r.value.pos == pos
  }

  lemma PlainText(n: int)
    requires 0 <= n <= 99
    ensures RightAligned(n, 0) == Decimal(n) && Value(Decimal(n)) == n
    ensures |Decimal(n)| == if n < 10 then 1 else 2
    ensures |TwoDigits(n)| == 2 && AllDigits(TwoDigits(n)) && Value(TwoDigits(n)) == n
  {
  }

  lemma WeekFieldsParse(text: string, g: int, gt: string, v: int, wd: int, rest: string)
    requires 1 <= v <= 53 && Weekday.Ok(wd)
    requires text == gt + "-" + "W" + TwoDigits(v) + "-" + RightAligned(IsoEncoding(wd), 0) + rest
    requires SignedAt(text, 0, 1, 4) == Some(Read(g, |gt|))
    ensures WeekDateAt(text, 0) == Some(Scan(NOTHING.(G := g, V := v, wd := wd), |gt| + 6))
  {
    hide SignedAt, UnsignedAt, Value;
    PlainText(v);
    PlainText(IsoEncoding(wd));
    hide TwoDigits, RightAligned, Decimal;
    assert text[|gt| + 2..|gt| + 4] == TwoDigits(v);
    assert text[|gt| + 5..|gt| + 6] == RightAligned(IsoEncoding(wd), 0);
    assert text[|gt|] == '-' && text[|gt| + 1] == 'W' && text[|gt| + 4] == '-';
    ReadsRun(text, |gt| + 2, 2, TwoDigits(v));
    ReadsRun(text, |gt| + 5, 1, RightAligned(IsoEncoding(wd), 0));
  }

  lemma WeekDateShape(days: int, rest: string)
    requires 1 <= WeekDates.PrintedV(days) <= 53
    ensures var gt, text := YearText(WeekDates.PrintedG(days)), WeekDateText(days) + rest;
            && text == gt + "-" + "W" + TwoDigits(WeekDates.PrintedV(days)) + "-"
                       + RightAligned(IsoEncoding(Weekday.Of(days)), 0) + rest
            && gt < text && text[|gt|] == '-'
            && |WeekDateText(days)| == |gt| + 6
  {
    hide WeekDates.PrintedG, WeekDates.PrintedV, TwoDigits, RightAligned, YearText, Decimal, Value, Weekday.Of,
         AllDigits;
    ParsedDate.WeekdayIsOk(days);
    PlainText(WeekDates.PrintedV(days));
    PlainText(IsoEncoding(Weekday.Of(days)));
    Regroup(YearText(WeekDates.PrintedG(days)), TwoDigits(WeekDates.PrintedV(days)),
            RightAligned(IsoEncoding(Weekday.Of(days)), 0), rest);
  }

  lemma Regroup(g: string, v: string, u: string, rest: string)
    ensures var t := g + "-" + "W" + v + "-" + u + rest;
            && t == (g + "-" + "W" + v + "-" + u) + rest
            && g < t && t[|g|] == '-'
  {
  }

  /** The ISO week date of a date, followed by anything, is parsed back to the date, consuming exactly that
      text, if and only if its week year has at most four digits. */
  lemma WeekDateRoundTrip(date: Date, rest: string)
    requires Civil.Ok(date) && YEAR_MIN <= date.year <= YEAR_MAX
    ensures var days := Civil.ToDays(date);
            WeekDateParses(WeekDateText(days) + rest, date, |WeekDateText(days)|)
            <==> -9999 <= WeekDates.PrintedG(days) <= 9999
  {
    hide SignedAt, UnsignedAt, Resolve, Civil.Ok, Civil.ToDays, RightAligned, TwoDigits, YearText, WeekDateText;
    hide WeekDates.PrintedG, WeekDates.PrintedV, Weekday.Of;
    var days := Civil.ToDays(date);
    var text := WeekDateText(days) + rest;
    var g, v, wd := WeekDates.PrintedG(days), WeekDates.PrintedV(days), Weekday.Of(days);
    var thursday := WeekDates.HasThursday(days);
    WeekDates.IsoWeekIsCounted(thursday, days);
    ParsedDate.WeekdayIsOk(days);
    WeekDateShape(days, rest);
    if -9999 <= g <= 9999 {
      assert text[0..|YearText(g)|] == YearText(g);
      YearTextReads(g, text, 0);
      WeekFieldsParse(text, g, YearText(g), v, wd, rest);
      ResolveOwnFields(NOTHING.(G := g, V := v, wd := wd), date);
    } else {
      LongYearStops(g, text);
    }
  }

  // ---------- %C%y ----------

  predicate CenturyParses(text: string, year: int, pos: nat) {
    var r := CenturyAndYearAt(text, 0);
    && r.Some? && r.value.pos == pos
    && ResolveYear(r.value.fields).Some? && ResolveYear(r.value.fields).value.Y == year
  }

  lemma CenturyBounds(text: string)
    ensures SignedAt(text, 0, 1, 2).Some? ==> -99 <= SignedAt(text, 0, 1, 2).value.value <= 99
    ensures forall pos: nat | pos <= |text| && UnsignedAt(text, pos, 1, 2).Some? ::
              0 <= UnsignedAt(text, pos, 1, 2).value.value <= 99
  {
    SmallPowers();
    forall pos: nat | pos <= |text| && UnsignedAt(text, pos, 1, 2).Some?
      ensures 0 <= UnsignedAt(text, pos, 1, 2).value.value <= 99
    {
      var k := DigitRun(text, pos, 2);
      ValueBound(text[pos..pos + k]);
      PowersGrow(k, 2);
    }
  }

  lemma CenturyReads(year: int, text: string, pos: nat)
    requires -9900 <= year <= 9999
    requires pos + |CenturyText(year)| <= |text| && text[pos..pos + |CenturyText(year)|] == CenturyText(year)
    ensures SignedAt(text, pos, 1, 2) == Some(Read(PrintedC(year), pos + |CenturyText(year)|))
  {
    hide SignedAt;
    var c, start := PrintedC(year), if year < 0 then 1 else 0;
    var n, ct := if year < 0 then -c else c, CenturyText(year);
    TwoDigitText(n);
    hide RightAligned, Value;
    assert text[pos + start..pos + start + 2] == text[pos..pos + |ct|][start..] == RightAligned(n, 2);
    assert text[pos] == text[pos..pos + |ct|][0];
    ReadsSigned(text, pos, 2, year < 0, RightAligned(n, 2));
  }

  /** Century and two-digit year, followed by anything, are parsed back to the year, consuming exactly
      their text, if and only if the century has at most two digits. */
  lemma CenturyTextRoundTrip(year: int, rest: string)
    ensures var text := CenturyText(year) + TwoDigits(PrintedTwoDigits(year));
            CenturyParses(text + rest, year, |text|) <==> -9900 <= year <= 9999
  {
    hide SignedAt, UnsignedAt;
    var ct, yy := CenturyText(year), TwoDigits(PrintedTwoDigits(year));
    var text := ct + yy + rest;
    CenturyRoundTrip(year);
    CenturyBounds(text);
    if -9900 <= year <= 9999 {
      assert text[0..|ct|] == ct;
      CenturyReads(year, text, 0);
      PlainText(PrintedTwoDigits(year));
      hide CenturyText, TwoDigits;
      assert text[|ct|..|ct| + 2] == yy;
      ReadsRun(text, |ct|, 2, yy);
    }
  }
}
