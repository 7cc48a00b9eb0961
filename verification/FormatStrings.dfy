/** Format strings: the loops that print a date by a format and read it back by one, and the round trip
    between them for every format. */
module FormatStrings {
  import opened Options
  import opened Calendar
  import opened Streams
  import opened ParsedDate
  import opened Formats
  import Civil
  import MachineCivil
  import Weekday
  import opened WeekDates

  // ---------- Formats ----------

  /** The conversions of this model. */
  predicate Converts(c: char) {
    c in {'C', 'd', 'F', 'g', 'G', 'j', 'm', 'u', 'U', 'V', 'w', 'W', 'y', 'Y', '%'}
  }

  /** A character that stands for itself: neither white space nor the end of the format. */
  predicate Plain(c: char) {
    c != ' ' && c as int != 0 && !(9 <= c as int <= 13)
  }

  /** A format of these conversions and plain characters; `command` says that a '%' came just before. */
  predicate Supported(fmt: string, command: bool) {
    if fmt == "" then !command
    else if command then Converts(fmt[0]) && Supported(fmt[1..], false)
    else if fmt[0] == '%' then Supported(fmt[1..], true)
    else Plain(fmt[0]) && Supported(fmt[1..], false)
  }

  // ---------- Printing ----------

  function Conversion(date: Date, c: char): string
    requires Converts(c)
  {
    var days := Civil.ToDays(date);
    match c
    case 'C' => CenturyText(date.year)
    case 'd' => RightAligned(date.day, 2)
    case 'F' => FullDateText(date)
    case 'g' => RightAligned(PrintedTwoDigits(PrintedG(days)), 2)
    case 'G' => YearText(PrintedG(days))
    case 'j' => RightAligned(days - Jan1(date.year) + 1, 3)
    case 'm' => TwoDigits(date.month)
    case 'u' => RightAligned(IsoEncoding(Weekday.Of(days)), 0)
    case 'U' => TwoDigits(PrintedWeek(days, Weekday.SUNDAY))
    case 'V' => TwoDigits(PrintedV(days))
    case 'w' => RightAligned(Weekday.Of(days), 0)
    case 'W' => TwoDigits(PrintedWeek(days, Weekday.MONDAY))
    case 'y' => TwoDigits(PrintedTwoDigits(date.year))
    case 'Y' => YearText(date.year)
    case _ => "%"
  }

  function Printed(date: Date, fmt: string, command: bool): string
    requires Supported(fmt, command)
  {
    if fmt == "" then ""
    else if command then Conversion(date, fmt[0]) + Printed(date, fmt[1..], false)
    else if fmt[0] == '%' then Printed(date, fmt[1..], true)
    else [fmt[0]] + Printed(date, fmt[1..], false)
  }

  /** to_stream */
  method FormatDate(date: Date, fmt: string) returns (text: string)
    requires Supported(fmt, false)
    ensures text == Printed(date, fmt, false)
  {
    hide Conversion;
    text := "";
    var i, command := 0, false;
    while i < |fmt|
      invariant 0 <= i <= |fmt| && Supported(fmt[i..], command)
      invariant Printed(date, fmt, false) == text + Printed(date, fmt[i..], command)
    {
      var c := fmt[i];
      assert fmt[i..][1..] == fmt[i + 1..];
      if command {
        text := text + Conversion(date, c);
        command := false;
      } else if c == '%' {
        command := true;
      } else {
        text := text + [c];
      }
      i := i + 1;
    }
  }

  // ---------- Parsing ----------

  /** A field after a value was read for it: a second value must equal the first. */
  function Checked(value: int, from: int, missing: int): Option<int> {
    if value == missing then Some(from) else if value == from then Some(value) else None
  }

  function ConvertAt(text: string, pos: nat, c: char, f: Fields): (r: Option<Scan>)
    requires pos <= |text| && Converts(c)
    ensures r.Some? ==> r.value.pos <= |text|
  {
    match c
    case 'C' =>
      var r :- SignedAt(text, pos, 1, 2);
      var v :- Checked(f.C, r.value, NOT_A_CENTURY);
      Some(Scan(f.(C := v), r.pos))
    case 'd' =>
      var r :- SignedAt(text, pos, 1, 2);
      var v :- Checked(f.d, r.value, NOT_A_DAY);
      Some(Scan(f.(d := v), r.pos))
    case 'F' =>
      var r :- FullDateAt(text, pos);
      var Y :- Checked(f.Y, r.fields.Y, Civil.NOT_A_YEAR);
      var m :- Checked(f.m, r.fields.m, NOT_A_MONTH);
      var d :- Checked(f.d, r.fields.d, NOT_A_DAY);
      Some(Scan(f.(Y := Y, m := m, d := d), r.pos))
    case 'g' =>
      var r :- UnsignedAt(text, pos, 1, 2);
      var v :- Checked(f.g, r.value, NOT_A_2DIGIT_YEAR);
      Some(Scan(f.(g := v), r.pos))
    case 'G' =>
      var r :- SignedAt(text, pos, 1, 4);
      var v :- Checked(f.G, r.value, Civil.NOT_A_YEAR);
      Some(Scan(f.(G := v), r.pos))
    case 'j' =>
      var r :- UnsignedAt(text, pos, 1, 3);
      var v :- Checked(f.j, r.value, NOT_A_DOY);
      Some(Scan(f.(j := v), r.pos))
    case 'm' =>
      var r :- SignedAt(text, pos, 1, 2);
      var v :- Checked(f.m, r.value, NOT_A_MONTH);
      Some(Scan(f.(m := v), r.pos))
    case 'u' =>
      var r :- UnsignedAt(text, pos, 1, 1);
      if !(1 <= r.value <= 7) then None
      else
        var v :- Checked(f.wd, if r.value == 7 then 0 else r.value, NOT_A_WEEKDAY);
        Some(Scan(f.(wd := v), r.pos))
    case 'U' =>
      var r :- UnsignedAt(text, pos, 1, 2);
      var v :- Checked(f.U, r.value, NOT_A_WEEK);
      Some(Scan(f.(U := v), r.pos))
    case 'V' =>
      var r :- UnsignedAt(text, pos, 1, 2);
      var v :- Checked(f.V, r.value, NOT_A_WEEK);
      Some(Scan(f.(V := v), r.pos))
    case 'w' =>
      var r :- UnsignedAt(text, pos, 1, 1);
      if !(0 <= r.value <= 6) then None
      else
        var v :- Checked(f.wd, r.value, NOT_A_WEEKDAY);
        Some(Scan(f.(wd := v), r.pos))
    case 'W' =>
      var r :- UnsignedAt(text, pos, 1, 2);
      var v :- Checked(f.W, r.value, NOT_A_WEEK);
      Some(Scan(f.(W := v), r.pos))
    case 'y' =>
      var r :- UnsignedAt(text, pos, 1, 2);
      var v :- Checked(f.y, r.value, NOT_A_2DIGIT_YEAR);
      Some(Scan(f.(y := v), r.pos))
    case 'Y' =>
      var r :- SignedAt(text, pos, 1, 4);
      var v :- Checked(f.Y, r.value, Civil.NOT_A_YEAR);
      Some(Scan(f.(Y := v), r.pos))
    case _ =>
      var p :- CharAt(text, pos, '%');
      Some(Scan(f, p))
  }

  function Parsed(text: string, pos: nat, fmt: string, command: bool, f: Fields): Option<Scan>
    requires pos <= |text| && Supported(fmt, command)
    decreases |fmt|
  {
    if fmt == "" then Some(Scan(f, pos))
    else if command then
      var r :- ConvertAt(text, pos, fmt[0], f);
      Parsed(text, r.pos, fmt[1..], false, r.fields)
    else if fmt[0] == '%' then Parsed(text, pos, fmt[1..], true, f)
    else
      var p :- CharAt(text, pos, fmt[0]);
      Parsed(text, p, fmt[1..], false, f)
  }

  function DateFrom(text: string, pos: nat, fmt: string): Option<Date>
    requires pos <= |text| && Supported(fmt, false)
  {
    var r :- Parsed(text, pos, fmt, false, NOTHING);
    Resolve(r.fields)
  }

  /** checked_set */
  method CheckedSet(input: Input, value: int, from: int, missing: int) returns (v: int)
    requires input.Valid()
    modifies input`fail
    ensures input.fail <==> old(input.fail) || (value != missing && value != from)
    ensures !input.fail ==> v == from
    ensures input.fail <==> old(input.fail) || Checked(value, from, missing).None?
    ensures !input.fail ==> Some(v) == Checked(value, from, missing)
  {
    v := value;
    if !input.fail {
      if value == missing {
        v := from;
      } else if value != from {
        input.fail := true;
      }
    }
  }

  /** One arm of the format switch. */
  method Convert(input: Input, c: char, f: Fields) returns (g: Fields)
    requires input.Valid() && !input.fail && Converts(c)
    modifies input`pos, input`eof, input`fail
    ensures input.Valid()
    ensures input.fail <==> ConvertAt(input.text, old(input.pos), c, f).None?
    ensures !input.fail ==> ConvertAt(input.text, old(input.pos), c, f) == Some(Scan(g, input.pos))
  {
    hide SignedAt, UnsignedAt, CharAt, FullDateAt, Checked, DigitRun, Value, AllDigits, IsDigit, MachineCivil.U32,
         MachineCivil.S32;
    g := f;
    var v;
    match c {
      case 'C' =>
        v := input.ReadSigned(1, 2);
        v := CheckedSet(input, f.C, v, NOT_A_CENTURY);
        g := f.(C := v);
      case 'd' =>
        v := input.ReadSigned(1, 2);
        v := CheckedSet(input, f.d, v, NOT_A_DAY);
        g := f.(d := v);
      case 'F' =>
        var t := ParseFullDate(input);
        var Y := CheckedSet(input, f.Y, t.Y, Civil.NOT_A_YEAR);
        var m := CheckedSet(input, f.m, t.m, NOT_A_MONTH);
        var d := CheckedSet(input, f.d, t.d, NOT_A_DAY);
        g := f.(Y := Y, m := m, d := d);
      case 'g' =>
        v := input.ReadUnsigned(1, 2);
        v := CheckedSet(input, f.g, v, NOT_A_2DIGIT_YEAR);
        g := f.(g := v);
      case 'G' =>
        v := input.ReadSigned(1, 4);
        v := CheckedSet(input, f.G, v, Civil.NOT_A_YEAR);
        g := f.(G := v);
      case 'j' =>
        v := input.ReadUnsigned(1, 3);
        v := CheckedSet(input, f.j, v, NOT_A_DOY);
        g := f.(j := v);
      case 'm' =>
        v := input.ReadSigned(1, 2);
        v := CheckedSet(input, f.m, v, NOT_A_MONTH);
        g := f.(m := v);
      case 'u' =>
        v := input.ReadUnsigned(1, 1);
        if !input.fail {
          if !(1 <= v <= 7) {
            input.fail := true;
          } else if v == 7 {
            v := 0;
          }
        }
        v := CheckedSet(input, f.wd, v, NOT_A_WEEKDAY);
        g := f.(wd := v);
      case 'U' =>
        v := input.ReadUnsigned(1, 2);
        v := CheckedSet(input, f.U, v, NOT_A_WEEK);
        g := f.(U := v);
      case 'V' =>
        v := input.ReadUnsigned(1, 2);
        v := CheckedSet(input, f.V, v, NOT_A_WEEK);
        g := f.(V := v);
      case 'w' =>
        v := input.ReadUnsigned(1, 1);
        if !input.fail && !(0 <= v <= 6) {
          input.fail := true;
        }
        v := CheckedSet(input, f.wd, v, NOT_A_WEEKDAY);
        g := f.(wd := v);
      case 'W' =>
        v := input.ReadUnsigned(1, 2);
        v := CheckedSet(input, f.W, v, NOT_A_WEEK);
        g := f.(W := v);
      case 'y' =>
        v := input.ReadUnsigned(1, 2);
        v := CheckedSet(input, f.y, v, NOT_A_2DIGIT_YEAR);
        g := f.(y := v);
      case 'Y' =>
        v := input.ReadSigned(1, 4);
        v := CheckedSet(input, f.Y, v, Civil.NOT_A_YEAR);
        g := f.(Y := v);
      case _ =>
        input.ReadChar('%');
    }
  }

  /** from_stream for a date. */
  method ParseDate(input: Input, fmt: string) returns (date: Option<Date>)
    requires input.Valid() && !input.fail && Supported(fmt, false)
    modifies input`pos, input`eof, input`fail
    ensures input.Valid() && (input.fail <==> date.None?)
    ensures date == DateFrom(input.text, old(input.pos), fmt)
    ensures date.Some? ==> Parsed(input.text, old(input.pos), fmt, false, NOTHING).Some?
                           && input.pos == Parsed(input.text, old(input.pos), fmt, false, NOTHING).value.pos
  {
    hide ConvertAt, CharAt, Resolve;
    ghost var start := input.pos;
    var f, i, command := NOTHING, 0, false;
    while i < |fmt| && !input.fail
      invariant 0 <= i <= |fmt| && input.Valid() && Supported(fmt[i..], command)
      invariant Parsed(input.text, start, fmt, false, NOTHING)
                == if input.fail then None else Parsed(input.text, input.pos, fmt[i..], command, f)
    {
      var c := fmt[i];
      assert fmt[i..][1..] == fmt[i + 1..];
      if command {
        f := Convert(input, c, f);
        command := false;
      } else if c == '%' {
        command := true;
      } else {
        input.ReadChar(c);
      }
      i := i + 1;
    }
    if input.fail {
      return None;
    }
    date := Finish(f);
    if date.None? {
      input.fail := true;
    }
  }

  // ---------- After the format ----------

  /** Complete the year by the century, or by the year itself, and check them against each other. */
  method CompleteYear(year: int, twoDigits: int, century: int) returns (ok: bool, Y: int, C: int)
    requires twoDigits != NOT_A_2DIGIT_YEAR
    ensures var assumed := if century == NOT_A_CENTURY then AssumedCentury(year, twoDigits) else century;
            var combined := CombineCentury(assumed, twoDigits);
            && (ok <==> 0 <= twoDigits <= 99 && (year != Civil.NOT_A_YEAR ==> year == combined))
            && (ok ==> Y == combined && C == assumed)
  {
    ok, Y, C := false, year, century;
    if !(0 <= twoDigits <= 99) {
      return;
    }
    if C == NOT_A_CENTURY {
      if Y == Civil.NOT_A_YEAR {
        if twoDigits >= 69 {
          C := 19;
        } else {
          C := 20;
        }
      } else {
        C := Civil.Quot(if Y >= 0 then Y else Y - 100, 100);
      }
    }
    var tY;
    if C >= 0 {
      tY := 100 * C + twoDigits;
    } else {
      tY := 100 * (C + 1) - (if twoDigits == 0 then 100 else twoDigits);
    }
    if Y != Civil.NOT_A_YEAR && Y != tY {
      return;
    }
    ok, Y := true, tY;
  }

  /** Take over or compare the parts of a trial date. */
  method MergeTrial(f: Fields, trial: Date) returns (ok: bool, g: Fields)
    ensures Merge(f, trial) == if ok then Some(g) else None
    ensures ok ==> g == f.(Y := g.Y, m := g.m, d := g.d) && (f.HasY() ==> g.Y == f.Y)
  {
    ok, g := false, f;
    if g.Y == Civil.NOT_A_YEAR {
      g := g.(Y := trial.year);
    } else if g.Y != trial.year {
      return;
    }
    if g.m == NOT_A_MONTH {
      g := g.(m := trial.month);
    } else if g.m != trial.month {
      return;
    }
    if g.d == NOT_A_DAY {
      g := g.(d := trial.day);
    } else if g.d != trial.day {
      return;
    }
    ok := true;
  }

  /** Everything after the format loop. */
  method Finish(f: Fields) returns (date: Option<Date>)
    ensures date == Resolve(f)
  {
    hide Assemble, CombineCentury, AssumedCentury;
    date := None;
    var t, ok := f, true;
    if t.y != NOT_A_2DIGIT_YEAR {
      var Y, C;
      ok, Y, C := CompleteYear(t.Y, t.y, t.C);
      if !ok { return; }
      t := t.(Y := Y, C := C);
    }
    if t.g != NOT_A_2DIGIT_YEAR {
      var G, C;
      ok, G, C := CompleteYear(t.G, t.g, t.C);
      if !ok { return; }
      t := t.(G := G, C := C);
    }
    if t.Y < YEAR_MIN || t.Y > YEAR_MAX {
      t := t.(Y := Civil.NOT_A_YEAR);
    }
    date := FinishDate(t);
  }

  /** The trial dates, each filling in what is missing or ending the parse. */
  method TryTrials(f: Fields) returns (ok: bool, t: Fields, computed: bool)
    ensures TryAll(f) == if ok then Some(t) else None
    ensures ok ==> t == f.(Y := t.Y, m := t.m, d := t.d) && (computed <==>
              (f.HasG() && f.HasV() && f.HasWd()) || (f.HasY() && f.HasWd() && (f.HasU() || f.HasW())))
  {
    hide Civil.FromDays, RebuildIso, RebuildWeek, Merge, Jan1;
    ok, t, computed := true, f, false;
    if t.G != Civil.NOT_A_YEAR && t.V != NOT_A_WEEK && t.wd != NOT_A_WEEKDAY {
      ok, t := MergeTrial(t, Civil.FromDays(RebuildIso(t.G, t.V, t.wd)));
      if !ok { return; }
      computed := true;
    }
    if t.Y != Civil.NOT_A_YEAR && t.U != NOT_A_WEEK && t.wd != NOT_A_WEEKDAY {
      ok, t := MergeTrial(t, Civil.FromDays(RebuildWeek(t.Y, t.U, t.wd, Weekday.SUNDAY)));
      if !ok { return; }
      computed := true;
    }
    if t.Y != Civil.NOT_A_YEAR && t.W != NOT_A_WEEK && t.wd != NOT_A_WEEKDAY {
      ok, t := MergeTrial(t, Civil.FromDays(RebuildWeek(t.Y, t.W, t.wd, Weekday.MONDAY)));
      if !ok { return; }
      computed := true;
    }
    if t.j != NOT_A_DOY && t.Y != Civil.NOT_A_YEAR {
      var trial := Civil.FromDays(Jan1(t.Y) + t.j - 1);
      if t.m == NOT_A_MONTH {
        t := t.(m := trial.month);
      } else if t.m != trial.month {
        ok := false;
        return;
      }
      if t.d == NOT_A_DAY {
        t := t.(d := trial.day);
      } else if t.d != trial.day {
        ok := false;
        return;
      }
    }
  }

  method FinishDate(f: Fields) returns (date: Option<Date>)
    ensures date == Assemble(f)
  {
    hide Civil.ToDays, TryAll, PrintedG, PrintedV, CheckedWeek, Weekday.Of, Civil.Ok;
    date := None;
    var ok, t, computed := TryTrials(f);
    if !ok {
      return;
    }
    var ymd := Date(t.Y, t.m, t.d);
    if !Civil.Ok(ymd) {
      return;
    }
    var days := Civil.ToDays(ymd);
    if t.wd != NOT_A_WEEKDAY && t.wd != Weekday.Of(days) {
      return;
    }
    if !computed {
      if t.G != Civil.NOT_A_YEAR && t.G != PrintedG(days) {
        return;
      }
      if t.V != NOT_A_WEEK && t.V != PrintedV(days) {
        return;
      }
      if t.U != NOT_A_WEEK && t.U != CheckedWeek(days, Weekday.SUNDAY) {
        return;
      }
      if t.W != NOT_A_WEEK && t.W != CheckedWeek(days, Weekday.MONDAY) {
        return;
      }
    }
    date := Some(ymd);
  }

  // ---------- What a conversion prints ----------

  /** Every conversion of one number prints that number and no other text: without a sign but for the years and
      centuries before 0, and with the zeros of its width in front. */
  lemma ConversionText(date: Date, c: char)
    requires Civil.Ok(date) && Converts(c) && c != 'F'
    ensures var days, week, text := Civil.ToDays(date), PrintedG(Civil.ToDays(date)), Conversion(date, c);
            match c
            case 'C' => IsSigned(text, date.year < 0, Abs(date.year / 100), 2)
            case 'd' => IsNumber(text, date.day, 2)
            case 'g' => IsNumber(text, Abs(week) % 100, 2)
            case 'G' => IsSigned(text, week < 0, Abs(week), 4)
            case 'j' => days >= Civil.ToDays(Date(date.year, 1, 1))
                        && IsNumber(text, days - Civil.ToDays(Date(date.year, 1, 1)) + 1, 3)
            case 'm' => IsNumber(text, date.month, 2)
            case 'u' => 0 <= Weekday.Of(days) <= 6
                        && IsNumber(text, if Weekday.Of(days) == 0 then 7 else Weekday.Of(days), 1)
            case 'U' => PrintedWeek(days, Weekday.SUNDAY) >= 0
                        && IsNumber(text, PrintedWeek(days, Weekday.SUNDAY), 2)
            case 'V' => PrintedV(days) >= 0 && IsNumber(text, PrintedV(days), 2)
            case 'w' => 0 <= Weekday.Of(days) <= 6 && IsNumber(text, Weekday.Of(days), 1)
            case 'W' => PrintedWeek(days, Weekday.MONDAY) >= 0
                        && IsNumber(text, PrintedWeek(days, Weekday.MONDAY), 2)
            case 'y' => IsNumber(text, Abs(date.year) % 100, 2)
            case 'Y' => IsSigned(text, date.year < 0, Abs(date.year), 4)
            case _ => text == "%"
  {
    hide Civil.ToDays, PrintedG, PrintedV, PrintedWeek, Weekday.Of, Civil.Ok, CenturyText, YearText, TwoDigits,
         IsNumber, IsSigned, Decimal, ZeroFill;
    OwnValues(date);
    var days := Civil.ToDays(date);
    match c {
      case 'C' => CenturyTextExactly(date.year);
      case 'd' => FilledIsNumber(date.day, 2);
      case 'g' => FilledIsNumber(PrintedTwoDigits(PrintedG(days)), 2);
      case 'G' => YearTextExactly(PrintedG(days));
      case 'j' => FilledIsNumber(days - Jan1(date.year) + 1, 3);
      case 'm' => TwoDigitsExactly(date.month);
      case 'u' => OneDigit(IsoEncoding(Weekday.Of(days)));
      case 'U' => TwoDigitsExactly(PrintedWeek(days, Weekday.SUNDAY));
      case 'V' => TwoDigitsExactly(PrintedV(days));
      case 'w' => OneDigit(Weekday.Of(days));
      case 'W' => TwoDigitsExactly(PrintedWeek(days, Weekday.MONDAY));
      case 'y' => TwoDigitsExactly(PrintedTwoDigits(date.year));
      case 'Y' => YearTextExactly(date.year);
      case _ =>
    }
  }

  function Abs(n: int): nat {
    if n < 0 then -n else n
  }

  lemma OneDigit(n: nat)
    requires n < 10
    ensures IsNumber(RightAligned(n, 0), n, 1)
  {
    PlainText(n);
  }

  // ---------- The round trip ----------

  /** The fields after a conversion read what was printed for the date. */
  function With(f: Fields, date: Date, c: char): Fields {
    var days := Civil.ToDays(date);
    match c
    case 'C' => f.(C := PrintedC(date.year))
    case 'd' => f.(d := date.day)
    case 'F' => f.(Y := date.year, m := date.month, d := date.day)
    case 'g' => f.(g := PrintedTwoDigits(PrintedG(days)))
    case 'G' => f.(G := PrintedG(days))
    case 'j' => f.(j := days - Jan1(date.year) + 1)
    case 'm' => f.(m := date.month)
    case 'u' => f.(wd := Weekday.Of(days))
    case 'U' => f.(U := PrintedWeek(days, Weekday.SUNDAY))
    case 'V' => f.(V := PrintedV(days))
    case 'w' => f.(wd := Weekday.Of(days))
    case 'W' => f.(W := PrintedWeek(days, Weekday.MONDAY))
    case 'y' => f.(y := PrintedTwoDigits(date.year))
    case 'Y' => f.(Y := date.year)
    case _ => f
  }

  /** The fields a format selects. */
  function Selected(f: Fields, date: Date, fmt: string, command: bool): Fields
    decreases |fmt|
  {
    if fmt == "" then f
    else if command then Selected(With(f, date, fmt[0]), date, fmt[1..], false)
    else Selected(f, date, fmt[1..], fmt[0] == '%')
  }

  /** The years that the conversion prints within the characters it reads. */
  predicate TextFits(date: Date, c: char) {
    match c
    case 'C' => -9900 <= date.year <= 9999
    case 'F' => FullYear(date.year)
    case 'G' => -9999 <= PrintedG(Civil.ToDays(date)) <= 9999
    case 'Y' => -9999 <= date.year <= 9999
    case _ => true
  }

  predicate AllFit(date: Date, fmt: string, command: bool) {
    if fmt == "" then true
    else (command ==> TextFits(date, fmt[0])) && AllFit(date, fmt[1..], !command && fmt[0] == '%')
  }

  /** Every field is missing or the date's own. */
  predicate OwnFields(f: Fields, date: Date) {
    && Own(f, date)
    && (f.y == NOT_A_2DIGIT_YEAR || f.y == PrintedTwoDigits(date.year))
    && (f.C == NOT_A_CENTURY || f.C == PrintedC(date.year))
    && (f.g == NOT_A_2DIGIT_YEAR || f.g == PrintedTwoDigits(PrintedG(Civil.ToDays(date))))
  }

  /** The values a date has are within the widths of their conversions. */
  lemma OwnValues(date: Date)
    requires Civil.Ok(date)
    ensures var days := Civil.ToDays(date);
            && 1 <= date.month <= 12 && 1 <= date.day <= 31
            && 1 <= days - Jan1(date.year) + 1 <= 366
            && 0 <= Weekday.Of(days) <= 6 && 1 <= PrintedV(days) <= 53
            && 0 <= PrintedWeek(days, Weekday.SUNDAY) <= 53 && 0 <= PrintedWeek(days, Weekday.MONDAY) <= 53
            && 0 <= PrintedTwoDigits(date.year) <= 99 && 0 <= PrintedTwoDigits(PrintedG(days)) <= 99
  {
    hide Civil.ToDays, Civil.FromDays, Jan1, PrintedV, PrintedWeek, CheckedWeek, PrintedG;
    var days := Civil.ToDays(date);
    Civil.OkIsValid(date);
    Civil.FromDaysInverts(date);
    YearOfDay(days, date.year);
    YearLength(date.year);
    var thursday := HasThursday(days);
    IsoWeekIsCounted(thursday, days);
    WeekIsCounted(days, Weekday.SUNDAY);
    WeekIsCounted(days, Weekday.MONDAY);
  }

  /** A field of fixed width is read whole, whatever follows. */
  lemma ReadsNumber(text: string, pos: nat, width: nat, s: string, n: int)
    requires 0 < width < 10 && |s| == width && AllDigits(s) && Value(s) == n
    requires pos + width <= |text| && text[pos..pos + width] == s
    ensures UnsignedAt(text, pos, 1, width) == Some(Read(n, pos + width))
    ensures SignedAt(text, pos, 1, width) == Some(Read(n, pos + width))
  {
    hide UnsignedAt, SignedAt, Value;
    ReadsRun(text, pos, width, s);
    ReadsSigned(text, pos, width, false, s);
  }

  lemma PaddedText(n: int, width: nat)
    requires 0 < width < 5 && 0 <= n < Power10(width)
    ensures |RightAligned(n, width)| == width && AllDigits(RightAligned(n, width)) && Value(RightAligned(n, width)) == n
  {
    hide Power10, Value;
    DecimalLength(n, width);
    DecimalValue(n);
    ZeroFillValue(Decimal(n), width);
  }

  /** The conversions of one unsigned number of fixed width. */
  lemma ReadsNumberOf(text: string, pos: nat, c: char, date: Date)
    requires Civil.Ok(date) && c in {'d', 'g', 'j', 'm', 'u', 'U', 'V', 'w', 'W', 'y'}
    requires pos + |Conversion(date, c)| <= |text| && text[pos..pos + |Conversion(date, c)|] == Conversion(date, c)
    ensures var days, width := Civil.ToDays(date), if c == 'j' then 3 else if c in {'u', 'w'} then 1 else 2;
            var n := match c
              case 'd' => date.day
              case 'g' => PrintedTwoDigits(PrintedG(days))
              case 'j' => days - Jan1(date.year) + 1
              case 'm' => date.month
              case 'u' => IsoEncoding(Weekday.Of(days))
              case 'U' => PrintedWeek(days, Weekday.SUNDAY)
              case 'V' => PrintedV(days)
              case 'w' => Weekday.Of(days)
              case 'W' => PrintedWeek(days, Weekday.MONDAY)
              case _ => PrintedTwoDigits(date.year);
            && |Conversion(date, c)| == width
            && UnsignedAt(text, pos, 1, width) == Some(Read(n, pos + width))
            && SignedAt(text, pos, 1, width) == Some(Read(n, pos + width))
  {
    hide Civil.ToDays, Jan1, PrintedV, PrintedG, PrintedWeek, PrintedTwoDigits, Weekday.Of, UnsignedAt, SignedAt,
         Civil.Ok, RightAligned, TwoDigits, Value;
    OwnValues(date);
    SmallPowers();
    var days := Civil.ToDays(date);
    match c {
      case 'd' =>
        PaddedText(date.day, 2);
        ReadsNumber(text, pos, 2, Conversion(date, c), date.day);
      case 'g' =>
        PaddedText(PrintedTwoDigits(PrintedG(days)), 2);
        ReadsNumber(text, pos, 2, Conversion(date, c), PrintedTwoDigits(PrintedG(days)));
      case 'j' =>
        PaddedText(days - Jan1(date.year) + 1, 3);
        ReadsNumber(text, pos, 3, Conversion(date, c), days - Jan1(date.year) + 1);
      case 'm' =>
        PlainText(date.month);
        ReadsNumber(text, pos, 2, Conversion(date, c), date.month);
      case 'u' =>
        PlainText(IsoEncoding(Weekday.Of(days)));
        ReadsNumber(text, pos, 1, Conversion(date, c), IsoEncoding(Weekday.Of(days)));
      case 'U' =>
        PlainText(PrintedWeek(days, Weekday.SUNDAY));
        ReadsNumber(text, pos, 2, Conversion(date, c), PrintedWeek(days, Weekday.SUNDAY));
      case 'V' =>
        PlainText(PrintedV(days));
        ReadsNumber(text, pos, 2, Conversion(date, c), PrintedV(days));
      case 'w' =>
        PlainText(Weekday.Of(days));
        ReadsNumber(text, pos, 1, Conversion(date, c), Weekday.Of(days));
      case 'W' =>
        PlainText(PrintedWeek(days, Weekday.MONDAY));
        ReadsNumber(text, pos, 2, Conversion(date, c), PrintedWeek(days, Weekday.MONDAY));
      case _ =>
        PlainText(PrintedTwoDigits(date.year));
        ReadsNumber(text, pos, 2, Conversion(date, c), PrintedTwoDigits(date.year));
    }
  }

  /** The conversions of a year or a century, which may have a sign. */
  lemma ReadsYearOf(text: string, pos: nat, c: char, date: Date)
    requires c in {'C', 'G', 'Y'} && TextFits(date, c)
    requires pos + |Conversion(date, c)| <= |text| && text[pos..pos + |Conversion(date, c)|] == Conversion(date, c)
    ensures var n := match c
              case 'C' => PrintedC(date.year)
              case 'G' => PrintedG(Civil.ToDays(date))
              case _ => date.year;
            SignedAt(text, pos, 1, if c == 'C' then 2 else 4) == Some(Read(n, pos + |Conversion(date, c)|))
  {
    hide Civil.ToDays, PrintedG, SignedAt;
    if c == 'C' {
      CenturyReads(date.year, text, pos);
    } else {
      YearTextReads(if c == 'G' then PrintedG(Civil.ToDays(date)) else date.year, text, pos);
    }
  }

  /** What a conversion printed is read back by the same conversion, wherever it stands and whatever
      follows, and agrees with anything the format selected before. */
  lemma ConversionReads(text: string, pos: nat, c: char, f: Fields, date: Date)
    requires Civil.Ok(date) && Converts(c) && TextFits(date, c) && OwnFields(f, date)
    requires pos + |Conversion(date, c)| <= |text| && text[pos..pos + |Conversion(date, c)|] == Conversion(date, c)
    ensures ConvertAt(text, pos, c, f) == Some(Scan(With(f, date, c), pos + |Conversion(date, c)|))
    ensures OwnFields(With(f, date, c), date)
  {
    hide Civil.ToDays, Jan1, PrintedV, PrintedG, PrintedWeek, PrintedC, PrintedTwoDigits, Weekday.Of, UnsignedAt,
         SignedAt, FullDateAt, FullDateText, RightAligned, TwoDigits, CenturyText, YearText, Civil.Ok;
    OwnValues(date);
    if c == 'F' {
      FullDateReads(text, pos, date);
    } else if c in {'C', 'G', 'Y'} {
      ReadsYearOf(text, pos, c, date);
    } else if c == '%' {
      assert text[pos] == text[pos..pos + 1][0];
    } else {
      ReadsNumberOf(text, pos, c, date);
    }
  }

  /** A whole format reads what it printed, from any place in the input, and ends where the text ends. */
  lemma {:induction false} FormatReads(text: string, pos: nat, fmt: string, command: bool, f: Fields, date: Date)
    requires Civil.Ok(date) && Supported(fmt, command) && AllFit(date, fmt, command) && OwnFields(f, date)
    requires var t := Printed(date, fmt, command); pos + |t| <= |text| && text[pos..pos + |t|] == t
    ensures Parsed(text, pos, fmt, command, f)
            == Some(Scan(Selected(f, date, fmt, command), pos + |Printed(date, fmt, command)|))
    ensures OwnFields(Selected(f, date, fmt, command), date)
    decreases |fmt|
  {
    hide Conversion, ConvertAt, OwnFields, With, TextFits, Converts, Plain, Civil.Ok, CharAt;
    if fmt != "" {
      var c, rest := fmt[0], Printed(date, fmt[1..], !command && fmt[0] == '%');
      if command {
        FrontAndRest(text, pos, Conversion(date, c), rest);
        ConversionReads(text, pos, c, f, date);
        FormatReads(text, pos + |Conversion(date, c)|, fmt[1..], false, With(f, date, c), date);
      } else if c == '%' {
        FormatReads(text, pos, fmt[1..], true, f, date);
      } else {
        FrontAndRest(text, pos, [c], rest);
        CharIs(text, pos, c);
        FormatReads(text, pos + 1, fmt[1..], false, f, date);
      }
    }
  }

  lemma CharIs(text: string, pos: nat, c: char)
    requires pos < |text| && text[pos..pos + 1] == [c]
    ensures CharAt(text, pos, c) == Some(pos + 1)
  {
  }

  lemma FrontAndRest(text: string, pos: nat, a: string, b: string)
    requires pos + |a + b| <= |text| && text[pos..pos + |a + b|] == a + b
    ensures text[pos..pos + |a|] == a && text[pos + |a|..pos + |a| + |b|] == b
  {
    assert text[pos..pos + |a|] == text[pos..pos + |a + b|][..|a|];
    assert text[pos + |a|..pos + |a| + |b|] == text[pos..pos + |a + b|][|a|..];
  }

  /** The year is given, or can be told from the two digits. */
  predicate YearTold(f: Fields, date: Date) {
    f.C == NOT_A_CENTURY ==>
      if f.HasY() then !(date.year < 0 && date.year % 100 == 0) else 1969 <= date.year <= 2068
  }

  /** The fields once the two-digit year was resolved to the year. */
  function WithYear(f: Fields, date: Date): Fields {
    if f.y == NOT_A_2DIGIT_YEAR then f else f.(Y := date.year, C := PrintedC(date.year))
  }

  /** Selected fields that determine the date: a two-digit year tells its year, and the fields are then sufficient;
      a two-digit week year tells its week year, or is passed over because a week of the calendar year gives the day. */
  predicate Recoverable(f: Fields, date: Date) {
    && (f.y != NOT_A_2DIGIT_YEAR ==> YearTold(f, date))
    && var known, weekYear := WithYear(f, date), PrintedG(Civil.ToDays(date));
       if f.g == NOT_A_2DIGIT_YEAR then Sufficient(known)
       else if WeekYearTold(known, weekYear) then Sufficient(known.(G := weekYear))
       else !f.HasG() && !(f.HasV() && f.HasWd()) && known.HasY() && f.HasWd() && (f.HasU() || f.HasW())
  }

  lemma YearResolves(f: Fields, date: Date)
    requires OwnFields(f, date) && f.y != NOT_A_2DIGIT_YEAR
    requires YEAR_MIN <= date.year <= YEAR_MAX
    ensures if YearTold(f, date) then ResolveYear(f) == Some(WithYear(f, date))
            else ResolveYear(f).Some? ==> var r := ResolveYear(f).value;
              r == f.(Y := r.Y, C := r.C) && YEAR_MIN <= r.Y <= YEAR_MAX && r.Y != date.year
  {
    hide Civil.ToDays, PrintedG, PrintedV, PrintedWeek, Jan1, Weekday.Of;
    CenturyRoundTrip(date.year);
    CenturyUnique(if f.C == NOT_A_CENTURY then AssumedCentury(f.Y, f.y) else f.C, date.year);
    if f.HasY() && f.C == NOT_A_CENTURY {
      YearWithTwoDigits(f);
    }
  }

  lemma OwnAssembles(f: Fields, date: Date)
    requires Civil.Ok(date) && Own(f, date)
    ensures Assemble(f) == Some(date) <==> Sufficient(f)
  {
    hide Civil.ToDays, PrintedG, PrintedV, PrintedWeek, Jan1, Weekday.Of, Assemble, Civil.Ok, Agrees;
    WeekdayIsOk(Civil.ToDays(date));
    AssembleExactly(f, date);
    if Sufficient(f) {
      OwnFieldsSuffice(f, date);
    }
  }

  /** A wrong week year is harmless exactly when a week of the calendar year gives the day and no ISO week does. */
  lemma WrongWeekYear(f: Fields, weekYear: int, date: Date)
    requires Civil.Ok(date) && Own(f, date) && !f.HasG()
    requires weekYear != PrintedG(Civil.ToDays(date)) && weekYear != Civil.NOT_A_YEAR
    ensures Assemble(f.(G := weekYear)) == Some(date)
            <==> !(f.HasV() && f.HasWd()) && f.HasY() && f.HasWd() && (f.HasU() || f.HasW())
  {
    hide Civil.ToDays, Civil.FromDays, PrintedG, PrintedV, PrintedWeek, RebuildIso, Jan1, Weekday.Of, Assemble,
         Civil.Ok;
    var days := Civil.ToDays(date);
    WeekdayIsOk(days);
    Civil.OkIsValid(date);
    Civil.FromDaysInverts(date);
    AssembleExactly(f.(G := weekYear), date);
    IsoRoundTrip(days);
    if f.HasV() && f.HasWd() {
      OtherYearOtherDay(weekYear, PrintedG(days), f.V, f.wd);
    }
  }

  lemma OtherYearOtherDay(a: int, b: int, v: int, wd: int)
    requires a != b
    ensures RebuildIso(a, v, wd) != RebuildIso(b, v, wd)
  {
    hide IsoStart, IsoWeeks;
    var low, high := if a < b then a else b, if a < b then b else a;
    IsoWeeksAreThursdays(low);
    IsoStartsGrow(low + 1, high);
  }

  /** The week year of a date is within a year of its calendar year. */
  lemma WeekYearNear(date: Date)
    requires Civil.Ok(date)
    ensures date.year - 1 <= PrintedG(Civil.ToDays(date)) <= date.year + 1
  {
    hide Civil.ToDays, Civil.FromDays, PrintedG, Jan1, IsoStart;
    var days := Civil.ToDays(date);
    Civil.OkIsValid(date);
    Civil.FromDaysInverts(date);
    YearOfDay(days, date.year);
    var thursday := HasThursday(days);
    IsoYearOf(thursday, days);
    YearLength(date.year - 1);
    YearLength(date.year);
    YearLength(date.year + 1);
    YearOfDay(thursday, date.year - 1);
    YearOfDay(thursday, date.year);
    YearOfDay(thursday, date.year + 1);
  }

  lemma NotTheSentinel(year: int, weekYear: int)
    requires year - 1 <= weekYear <= year + 1 && PrintedC(year) != PrintedC(weekYear)
    ensures CombineCentury(PrintedC(year), PrintedTwoDigits(weekYear)) != Civil.NOT_A_YEAR
  {
  }

  /** What the two-digit week year becomes, told or not. */
  lemma WeekYearStep(f: Fields, date: Date)
    requires Civil.Ok(date) && OwnFields(f, date) && f.g != NOT_A_2DIGIT_YEAR
    requires f.C == NOT_A_CENTURY || f.C == PrintedC(date.year)
    ensures var weekYear, r := PrintedG(Civil.ToDays(date)), ResolveWeekYear(f);
            if WeekYearTold(f, weekYear) then r.Some? && r.value == f.(G := weekYear, C := r.value.C)
            else r.Some? ==> !f.HasG() && r.value == f.(G := r.value.G, C := r.value.C)
                             && r.value.G != weekYear && r.value.G != Civil.NOT_A_YEAR
    ensures f.HasG() && !WeekYearTold(f, PrintedG(Civil.ToDays(date))) <==> ResolveWeekYear(f).None?
  {
    hide Civil.ToDays, PrintedG, PrintedV, PrintedWeek, Jan1, Weekday.Of, Civil.Ok, PrintedC, PrintedTwoDigits;
    var weekYear := PrintedG(Civil.ToDays(date));
    WeekYearResolves(f, weekYear);
    WeekYearNear(date);
    CenturyRoundTrip(weekYear);
    if f.C == PrintedC(date.year) && PrintedC(date.year) != PrintedC(weekYear) {
      NotTheSentinel(date.year, weekYear);
    }
  }

  lemma NoTwoDigits(f: Fields)
    ensures f.y == NOT_A_2DIGIT_YEAR ==> ResolveYear(f) == Some(f)
  {
  }

  lemma SameButCentury(a: Fields, b: Fields)
    requires b == a.(C := b.C)
    ensures Sufficient(a) <==> Sufficient(b)
  {
  }

  lemma KnownResolves(f: Fields, date: Date)
    requires Civil.Ok(date) && OwnFields(f, date) && YEAR_MIN <= date.year <= YEAR_MAX
    ensures var r, weekYear := ResolveWeekYear(f), PrintedG(Civil.ToDays(date));
            r.Some? && Assemble(ClampYear(r.value)) == Some(date)
            <==> if f.g == NOT_A_2DIGIT_YEAR then Sufficient(f)
                 else if WeekYearTold(f, weekYear) then Sufficient(f.(G := weekYear))
                 else !f.HasG() && !(f.HasV() && f.HasWd()) && f.HasY() && f.HasWd() && (f.HasU() || f.HasW())
  {
    hide Assemble, Civil.Ok, Sufficient, WeekYearTold, Civil.ToDays, PrintedG, PrintedV, PrintedWeek,
         PrintedC, PrintedTwoDigits, Jan1, Weekday.Of, AssumedCentury, CombineCentury;
    if f.g == NOT_A_2DIGIT_YEAR {
      OwnAssembles(f, date);
    } else {
      WeekYearStep(f, date);
      hide ResolveWeekYear;
      if ResolveWeekYear(f).Some? {
        var r := ResolveWeekYear(f).value;
        SameButCentury(f.(G := r.G), r);
        if WeekYearTold(f, PrintedG(Civil.ToDays(date))) {
          OwnAssembles(r, date);
        } else {
          WrongWeekYear(r.(G := Civil.NOT_A_YEAR), r.G, date);
          SameButCentury(f, r.(G := Civil.NOT_A_YEAR));
        }
      }
    }
  }

  /** The rest of the parser finds the date in its own fields exactly when they determine it. */
  lemma ResolvesOwn(f: Fields, date: Date)
    requires Civil.Ok(date) && OwnFields(f, date) && YEAR_MIN <= date.year <= YEAR_MAX
    ensures Resolve(f) == Some(date) <==> Recoverable(f, date)
  {
    hide Assemble, Civil.Ok, Sufficient, ResolveYear, ResolveWeekYear, YearTold, WeekYearTold, Civil.ToDays,
         PrintedG, PrintedV, PrintedWeek, PrintedC, PrintedTwoDigits, Jan1, Weekday.Of;
    NoTwoDigits(f);
    if f.y != NOT_A_2DIGIT_YEAR {
      YearResolves(f, date);
    }
    if f.y != NOT_A_2DIGIT_YEAR && !YearTold(f, date) {
      if ResolveYear(f).Some? {
        WeekdayIsOk(Civil.ToDays(date));
        WrongYear(ResolveYear(f).value, date);
      }
    } else {
      KnownResolves(WithYear(f, date), date);
    }
  }

  lemma WrongYear(f: Fields, date: Date)
    requires Civil.Ok(date) && f.WeekdayRead() && YEAR_MIN <= f.Y <= YEAR_MAX && f.Y != date.year
    ensures ResolveWeekYear(f).Some? ==> Assemble(ClampYear(ResolveWeekYear(f).value)) != Some(date)
  {
    hide Assemble, Civil.Ok, AssumedCentury, CombineCentury, Sufficient;
    if ResolveWeekYear(f).Some? {
      AssembleExactly(ResolveWeekYear(f).value, date);
    }
  }

  /** For every format and every date whose years fit: the text printed by the format, followed by anything,
      is read by the same format up to its end; and the date found is the date printed if and only if the
      selected fields determine it. */
  lemma FormatRoundTrip(date: Date, fmt: string, rest: string)
    requires Civil.Ok(date) && YEAR_MIN <= date.year <= YEAR_MAX
    requires Supported(fmt, false) && AllFit(date, fmt, false)
    ensures var text := Printed(date, fmt, false);
            && Parsed(text + rest, 0, fmt, false, NOTHING) == Some(Scan(Selected(NOTHING, date, fmt, false), |text|))
            && (DateFrom(text + rest, 0, fmt) == Some(date) <==> Recoverable(Selected(NOTHING, date, fmt, false), date))
  {
    hide Printed, Parsed, Selected, Resolve, Recoverable, Civil.Ok, Supported, AllFit, Own;
    var text := Printed(date, fmt, false);
    assert (text + rest)[0..|text|] == text;
    NothingIsOwn(date);
    FormatReads(text + rest, 0, fmt, false, NOTHING, date);
    ResolvesOwn(Selected(NOTHING, date, fmt, false), date);
  }

  lemma NothingIsOwn(date: Date)
    ensures OwnFields(NOTHING, date)
  {
  }

  // ---------- Particular formats ----------

  lemma ConversionFirst(text: string, pos: nat, date: Date, c: char, fmt: string, f: Fields)
    requires pos <= |text| && Converts(c) && Supported(fmt, false)
    ensures Supported(['%', c] + fmt, false)
    ensures Printed(date, ['%', c] + fmt, false) == Conversion(date, c) + Printed(date, fmt, false)
    ensures var r := ConvertAt(text, pos, c, f);
            Parsed(text, pos, ['%', c] + fmt, false, f)
            == if r.None? then None else Parsed(text, r.value.pos, fmt, false, r.value.fields)
  {
  }

  lemma PlainFirst(text: string, pos: nat, date: Date, c: char, fmt: string, f: Fields)
    requires pos <= |text| && c != '%' && Plain(c) && Supported(fmt, false)
    ensures Supported([c] + fmt, false)
    ensures Printed(date, [c] + fmt, false) == [c] + Printed(date, fmt, false)
    ensures var r := CharAt(text, pos, c);
            Parsed(text, pos, [c] + fmt, false, f) == if r.None? then None else Parsed(text, r.value, fmt, false, f)
  {
  }

  /** The formats with a round trip of their own are formats like any other. */
  lemma FullDateFormat(text: string, pos: nat, date: Date)
    requires pos <= |text|
    ensures Printed(date, "%F", false) == FullDateText(date)
    ensures Parsed(text, pos, "%F", false, NOTHING) == FullDateAt(text, pos)
  {
    assert "%F" == ['%', 'F'] + "";
    ConversionFirst(text, pos, date, 'F', "", NOTHING);
  }

  lemma CenturyFormat(text: string, pos: nat, date: Date)
    requires pos <= |text|
    ensures Printed(date, "%C%y", false) == CenturyText(date.year) + TwoDigits(PrintedTwoDigits(date.year))
    ensures Parsed(text, pos, "%C%y", false, NOTHING) == CenturyAndYearAt(text, pos)
  {
    hide SignedAt, UnsignedAt, CenturyText, TwoDigits, Printed, Parsed;
    assert "%C%y" == ['%', 'C'] + "%y" && "%y" == ['%', 'y'] + "";
    ConversionFirst(text, pos, date, 'C', "%y", NOTHING);
    var r := ConvertAt(text, pos, 'C', NOTHING);
    var p, f := if r.Some? then r.value.pos else pos, if r.Some? then r.value.fields else NOTHING;
    ConversionFirst(text, p, date, 'y', "", f);
    Ends(text, date);
  }

  lemma WeekDateFormat(text: string, pos: nat, date: Date)
    requires pos <= |text|
    ensures Printed(date, WEEK_DATE, false) == WeekDateText(Civil.ToDays(date))
    ensures Parsed(text, pos, WEEK_DATE, false, NOTHING) == WeekDateAt(text, pos)
  {
    hide Printed, Parsed, WeekDateAt, WeekDateText;
    WeekDateFormatPrints(date);
    WeekDateFormatParses(text, pos);
  }

  const WEEK_DATE := "%G-W%V-%u"

  lemma WeekDateFormatPrints(date: Date)
    ensures Printed(date, WEEK_DATE, false) == WeekDateText(Civil.ToDays(date))
  {
    hide Printed, Parsed, ConvertAt, CharAt, YearText, TwoDigits, RightAligned, Civil.ToDays, PrintedG, PrintedV,
         Weekday.Of, Supported;
    Ends("", date);
    ConversionFirst("", 0, date, 'u', "", NOTHING);
    PlainFirst("", 0, date, '-', ['%', 'u'] + "", NOTHING);
    ConversionFirst("", 0, date, 'V', ['-'] + (['%', 'u'] + ""), NOTHING);
    PlainFirst("", 0, date, 'W', ['%', 'V'] + (['-'] + (['%', 'u'] + "")), NOTHING);
    PlainFirst("", 0, date, '-', ['W'] + (['%', 'V'] + (['-'] + (['%', 'u'] + ""))), NOTHING);
    ConversionFirst("", 0, date, 'G', ['-'] + (['W'] + (['%', 'V'] + (['-'] + (['%', 'u'] + "")))), NOTHING);
    assert WEEK_DATE == ['%', 'G'] + (['-'] + (['W'] + (['%', 'V'] + (['-'] + (['%', 'u'] + "")))));
  }

  /** The conversions and characters of the week date, one after the other. */
  function WeekDateParts(text: string, pos: nat): Option<Scan>
    requires pos <= |text|
  {
    var g :- ConvertAt(text, pos, 'G', NOTHING);
    var p :- CharAt(text, g.pos, '-');
    var q :- CharAt(text, p, 'W');
    var v :- ConvertAt(text, q, 'V', g.fields);
    var r :- CharAt(text, v.pos, '-');
    ConvertAt(text, r, 'u', v.fields)
  }

  lemma WeekDateFormatParses(text: string, pos: nat)
    requires pos <= |text|
    ensures Parsed(text, pos, WEEK_DATE, false, NOTHING) == WeekDateAt(text, pos)
  {
    hide ConvertAt, CharAt, Printed, Parsed, Conversion, Supported, WeekDateAt;
    PartsAreWeekDate(text, pos);
    Ends(text, EPOCH);
    var u := ['%', 'u'] + "";
    ConversionFirst(text, 0, EPOCH, 'u', "", NOTHING);
    PlainFirst(text, 0, EPOCH, '-', u, NOTHING);
    ConversionFirst(text, 0, EPOCH, 'V', ['-'] + u, NOTHING);
    var week := ['%', 'V'] + (['-'] + u);
    PlainFirst(text, 0, EPOCH, 'W', week, NOTHING);
    PlainFirst(text, 0, EPOCH, '-', ['W'] + week, NOTHING);
    ConversionFirst(text, pos, EPOCH, 'G', ['-'] + (['W'] + week), NOTHING);
    assert WEEK_DATE == ['%', 'G'] + (['-'] + (['W'] + week));
    var g := ConvertAt(text, pos, 'G', NOTHING);
    if g.Some? {
      PlainFirst(text, g.value.pos, EPOCH, '-', ['W'] + week, g.value.fields);
      var p := CharAt(text, g.value.pos, '-');
      if p.Some? {
        PlainFirst(text, p.value, EPOCH, 'W', week, g.value.fields);
        var q := CharAt(text, p.value, 'W');
        if q.Some? {
          ConversionFirst(text, q.value, EPOCH, 'V', ['-'] + u, g.value.fields);
          var v := ConvertAt(text, q.value, 'V', g.value.fields);
          if v.Some? {
            PlainFirst(text, v.value.pos, EPOCH, '-', u, v.value.fields);
            var r := CharAt(text, v.value.pos, '-');
            if r.Some? {
              ConversionFirst(text, r.value, EPOCH, 'u', "", v.value.fields);
            }
          }
        }
      }
    }
  }

  lemma PartsAreWeekDate(text: string, pos: nat)
    requires pos <= |text|
    ensures WeekDateParts(text, pos) == WeekDateAt(text, pos)
  {
    hide SignedAt, UnsignedAt, CharAt;
  }

  lemma Ends(text: string, date: Date)
    ensures Printed(date, "", false) == ""
    ensures forall pos: nat, f | pos <= |text| :: Parsed(text, pos, "", false, f) == Some(Scan(f, pos))
  {
  }
}
