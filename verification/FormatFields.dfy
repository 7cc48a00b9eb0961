/** What a format makes of any text, also of one that was not printed: which numbers it reads, when they go together,
    and which formats determine the date they print. */
module FormatFields {
  import opened Options
  import opened Calendar
  import opened Streams
  import opened ParsedDate
  import opened Formats
  import opened FormatStrings
  import opened WeekDates
  import Civil
  import Weekday

  // ---------- Formats as lists of reads ----------

  datatype Field =
    | Year | YearOfCentury | Century | WeekYear | WeekYearOfCentury
    | SundayWeek | IsoWeek | MondayWeek | DayOfWeek | Month | Day | DayOfYear

  /** A character; a number of at most so many digits for a field, with or without a sign; or one digit for the day of
      the week, counted from 0 or from 1. */
  datatype Item =
    | Literal(c: char)
    | Number(field: Field, signed: bool, most: nat)
    | WeekdayNumber(first: int)

  function Items(c: char): seq<Item>
    requires Converts(c)
  {
    match c
    case 'C' => [Number(Century, true, 2)]
    case 'd' => [Number(Day, true, 2)]
    case 'F' => [Number(Year, true, 4), Literal('-'), Number(Month, false, 2), Literal('-'), Number(Day, false, 2)]
    case 'g' => [Number(WeekYearOfCentury, false, 2)]
    case 'G' => [Number(WeekYear, true, 4)]
    case 'j' => [Number(DayOfYear, false, 3)]
    case 'm' => [Number(Month, true, 2)]
    case 'u' => [WeekdayNumber(1)]
    case 'U' => [Number(SundayWeek, false, 2)]
    case 'V' => [Number(IsoWeek, false, 2)]
    case 'w' => [WeekdayNumber(0)]
    case 'W' => [Number(MondayWeek, false, 2)]
    case 'y' => [Number(YearOfCentury, false, 2)]
    case 'Y' => [Number(Year, true, 4)]
    case _ => [Literal('%')]
  }

  function Script(fmt: string, command: bool): seq<Item>
    requires Supported(fmt, command)
  {
    if fmt == "" then []
    else if command then Items(fmt[0]) + Script(fmt[1..], false)
    else if fmt[0] == '%' then Script(fmt[1..], true)
    else [Literal(fmt[0])] + Script(fmt[1..], false)
  }

  datatype Reading = Reading(field: Field, value: int)

  /** The numbers read in order, and the position after the last character. */
  datatype Readings = Readings(values: seq<Reading>, pos: nat)

  function ReadItem(text: string, pos: nat, item: Item): (r: Option<Readings>)
    requires pos <= |text|
    ensures r.Some? ==> r.value.pos <= |text|
  {
    match item
    case Literal(c) => if pos < |text| && text[pos] == c then Some(Readings([], pos + 1)) else None
    case Number(field, signed, most) =>
      var r :- if signed then SignedAt(text, pos, 1, most) else UnsignedAt(text, pos, 1, most);
      Some(Readings([Reading(field, r.value)], r.pos))
    case WeekdayNumber(first) =>
      var r :- UnsignedAt(text, pos, 1, 1);
      if first <= r.value < first + 7 then Some(Readings([Reading(DayOfWeek, r.value % 7)], r.pos)) else None
  }

  function ReadAll(text: string, pos: nat, items: seq<Item>): (r: Option<Readings>)
    requires pos <= |text|
    ensures r.Some? ==> r.value.pos <= |text|
    decreases |items|
  {
    if items == [] then Some(Readings([], pos))
    else
      var first :- ReadItem(text, pos, items[0]);
      var rest :- ReadAll(text, first.pos, items[1..]);
      Some(Readings(first.values + rest.values, rest.pos))
  }

  lemma {:induction false} ReadBoth(text: string, pos: nat, a: seq<Item>, b: seq<Item>)
    requires pos <= |text|
    ensures var r := ReadAll(text, pos, a);
            ReadAll(text, pos, a + b)
            == if r.None? then None
               else var s := ReadAll(text, r.value.pos, b);
                 if s.None? then None else Some(Readings(r.value.values + s.value.values, s.value.pos))
    decreases |a|
  {
    hide ReadItem;
    if a == [] {
      assert a + b == b;
      var s := ReadAll(text, pos, b);
      assert s.Some? ==> [] + s.value.values == s.value.values;
    } else {
      assert (a + b)[0] == a[0] && (a + b)[1..] == a[1..] + b;
      var first := ReadItem(text, pos, a[0]);
      if first.Some? {
        ReadBoth(text, first.value.pos, a[1..], b);
        var rest := ReadAll(text, first.value.pos, a[1..]);
        if rest.Some? {
          var s := ReadAll(text, rest.value.pos, b);
          assert s.Some? ==>
            first.value.values + (rest.value.values + s.value.values)
            == first.value.values + rest.value.values + s.value.values;
        }
      }
    }
  }

  // ---------- Fields ----------

  function Get(f: Fields, field: Field): int {
    match field
    case Year => f.Y
    case YearOfCentury => f.y
    case Century => f.C
    case WeekYear => f.G
    case WeekYearOfCentury => f.g
    case SundayWeek => f.U
    case IsoWeek => f.V
    case MondayWeek => f.W
    case DayOfWeek => f.wd
    case Month => f.m
    case Day => f.d
    case DayOfYear => f.j
  }

  function Put(f: Fields, field: Field, value: int): Fields {
    match field
    case Year => f.(Y := value)
    case YearOfCentury => f.(y := value)
    case Century => f.(C := value)
    case WeekYear => f.(G := value)
    case WeekYearOfCentury => f.(g := value)
    case SundayWeek => f.(U := value)
    case IsoWeek => f.(V := value)
    case MondayWeek => f.(W := value)
    case DayOfWeek => f.(wd := value)
    case Month => f.(m := value)
    case Day => f.(d := value)
    case DayOfYear => f.(j := value)
  }

  /** The value of each field that stands for none. */
  function NotGiven(field: Field): int {
    match field
    case Year => -32768
    case WeekYear => -32768
    case Century => -327
    case DayOfWeek => 8
    case Month => 0
    case Day => 0
    case DayOfYear => -1
    case _ => 100
  }

  lemma NothingIsGiven(field: Field)
    ensures Get(NOTHING, field) == NotGiven(field)
  {
  }

  /** Once a field is given, every number read for it is its value. */
  predicate Consistent(f: Fields, values: seq<Reading>) {
    && (forall i | 0 <= i < |values| ::
          Get(f, values[i].field) != NotGiven(values[i].field) ==> values[i].value == Get(f, values[i].field))
    && (forall i, j | 0 <= i < j < |values| && values[i].field == values[j].field ::
          values[i].value != NotGiven(values[i].field) ==> values[j].value == values[i].value)
  }

  /** The last number read for the field, or its value before. */
  function Last(values: seq<Reading>, field: Field, value: int): int
    decreases |values|
  {
    if values == [] then value
    else Last(values[1..], field, if values[0].field == field then values[0].value else value)
  }

  function StoreAll(f: Fields, values: seq<Reading>): Option<Fields>
    decreases |values|
  {
    if values == [] then Some(f)
    else
      var v :- Checked(Get(f, values[0].field), values[0].value, NotGiven(values[0].field));
      StoreAll(Put(f, values[0].field, v), values[1..])
  }

  lemma {:induction false} StoreBoth(f: Fields, a: seq<Reading>, b: seq<Reading>)
    ensures StoreAll(f, a + b) == var r := StoreAll(f, a); if r.None? then None else StoreAll(r.value, b)
    decreases |a|
  {
    hide Checked, Get, Put, NotGiven;
    if a == [] {
      assert a + b == b;
    } else {
      assert (a + b)[0] == a[0] && (a + b)[1..] == a[1..] + b;
      var v := Checked(Get(f, a[0].field), a[0].value, NotGiven(a[0].field));
      if v.Some? {
        StoreBoth(Put(f, a[0].field, v.value), a[1..], b);
      }
    }
  }

  lemma GetPut(f: Fields, a: Field, b: Field, value: int)
    ensures Get(Put(f, a, value), b) == if a == b then value else Get(f, b)
  {
  }

  /** A field takes a number when it has no value yet or this one. */
  lemma CheckedExactly(value: int, from: int, missing: int)
    ensures Checked(value, from, missing) == if value == missing || value == from then Some(from) else None
  {
  }

  lemma ConsistentNext(f: Fields, values: seq<Reading>)
    requires values != []
    ensures Consistent(f, values)
            <==> (Get(f, values[0].field) == NotGiven(values[0].field) || Get(f, values[0].field) == values[0].value)
                 && Consistent(Put(f, values[0].field, values[0].value), values[1..])
  {
    hide Get, Put, NotGiven;
    var g, rest := Put(f, values[0].field, values[0].value), values[1..];
    forall field ensures Get(g, field) == if values[0].field == field then values[0].value else Get(f, field) {
      GetPut(f, values[0].field, field, values[0].value);
    }
    forall i | 0 <= i < |rest| ensures rest[i] == values[i + 1] {
    }
    if Consistent(f, values) {
      assert forall i | 0 <= i < |rest| :: rest[i] == values[i + 1];
    }
    if Consistent(g, rest)
       && (Get(f, values[0].field) == NotGiven(values[0].field) || Get(f, values[0].field) == values[0].value) {
      forall i | 0 <= i < |values|
        ensures Get(f, values[i].field) != NotGiven(values[i].field) ==> values[i].value == Get(f, values[i].field)
      {
        assert i > 0 ==> values[i] == rest[i - 1];
      }
      forall i, j | 0 <= i < j < |values| && values[i].field == values[j].field
        ensures values[i].value != NotGiven(values[i].field) ==> values[j].value == values[i].value
      {
        assert values[j] == rest[j - 1];
        assert i > 0 ==> values[i] == rest[i - 1];
      }
    }
  }

  /** The numbers are stored if and only if they are consistent, and then each field has the last one read for it. */
  lemma {:induction false} StoresExactly(f: Fields, values: seq<Reading>)
    ensures var r := StoreAll(f, values);
            && (r.Some? <==> Consistent(f, values))
            && (r.Some? ==> forall field :: Get(r.value, field) == Last(values, field, Get(f, field)))
    decreases |values|
  {
    hide Get, Put, NotGiven, Checked, Consistent;
    if values == [] {
      NoneIsConsistent(f);
    } else {
      var first := values[0];
      ConsistentNext(f, values);
      CheckedExactly(Get(f, first.field), first.value, NotGiven(first.field));
      var g := Put(f, first.field, first.value);
      StoresExactly(g, values[1..]);
      forall field ensures Get(g, field) == if first.field == field then first.value else Get(f, field) {
        GetPut(f, first.field, field, first.value);
      }
    }
  }

  lemma NoneIsConsistent(f: Fields)
    ensures Consistent(f, [])
  {
  }

  // ---------- Every text ----------

  function ThenStore(f: Fields, r: Option<Readings>): Option<Scan> {
    if r.None? then None
    else var g := StoreAll(f, r.value.values); if g.None? then None else Some(Scan(g.value, r.value.pos))
  }

  lemma OneItem(text: string, pos: nat, item: Item)
    requires pos <= |text|
    ensures ReadAll(text, pos, [item]) == ReadItem(text, pos, item)
  {
    hide ReadItem;
    var r := ReadItem(text, pos, item);
    assert r.Some? ==> r.value.values + [] == r.value.values;
  }

  lemma OneReading(f: Fields, reading: Reading)
    ensures StoreAll(f, [reading])
            == var v := Checked(Get(f, reading.field), reading.value, NotGiven(reading.field));
               if v.None? then None else Some(Put(f, reading.field, v.value))
  {
    hide Checked;
  }

  lemma ConvertsByItems(text: string, pos: nat, c: char, f: Fields)
    requires pos <= |text| && Converts(c)
    ensures ConvertAt(text, pos, c, f) == ThenStore(f, ReadAll(text, pos, Items(c)))
  {
    hide SignedAt, UnsignedAt, Checked, ReadAll, StoreAll, FullDateAt;
    if c == 'F' {
      FullDateByItems(text, pos, f);
    } else {
      OneItem(text, pos, Items(c)[0]);
      var r := ReadItem(text, pos, Items(c)[0]);
      if r.Some? && r.value.values != [] {
        assert r.value.values == [r.value.values[0]];
        OneReading(f, r.value.values[0]);
      } else if r.Some? {
        NoReading(f);
      }
    }
  }

  lemma NoReading(f: Fields)
    ensures StoreAll(f, []) == Some(f)
  {
  }

  lemma FullDateByItems(text: string, pos: nat, f: Fields)
    requires pos <= |text|
    ensures ConvertAt(text, pos, 'F', f) == ThenStore(f, ReadAll(text, pos, Items('F')))
  {
    hide SignedAt, UnsignedAt, Checked, ReadAll, Items, FullDateAt, StoreAll;
    var all := ReadAll(text, pos, Items('F'));
    FullDateReadings(text, pos);
    if all.Some? {
      var v := all.value.values;
      StoresThree(f, v[0], v[1], v[2]);
    }
  }

  lemma StoresThree(f: Fields, a: Reading, b: Reading, c: Reading)
    ensures StoreAll(f, [a, b, c])
            == var r := StoreAll(f, [a]);
               if r.None? then None
               else var s := StoreAll(r.value, [b]); if s.None? then None else StoreAll(s.value, [c])
    ensures forall g: Fields, reading: Reading :: StoreAll(g, [reading]) ==
              var v := Checked(Get(g, reading.field), reading.value, NotGiven(reading.field));
              if v.None? then None else Some(Put(g, reading.field, v.value))
  {
    hide Checked, Get, Put, NotGiven;
    assert [a, b, c] == [a] + ([b] + [c]);
    StoreBoth(f, [a], [b] + [c]);
    var r := StoreAll(f, [a]);
    if r.Some? {
      StoreBoth(r.value, [b], [c]);
    }
    forall g: Fields, reading: Reading
      ensures StoreAll(g, [reading]) == var v := Checked(Get(g, reading.field), reading.value, NotGiven(reading.field));
                                        if v.None? then None else Some(Put(g, reading.field, v.value))
    {
      OneReading(g, reading);
    }
  }

  lemma FullDateReadings(text: string, pos: nat)
    requires pos <= |text|
    ensures var r, all := FullDateAt(text, pos), ReadAll(text, pos, Items('F'));
            && (r.None? <==> all.None?)
            && (r.Some? ==> all.value.pos == r.value.pos
                            && all.value.values == [Reading(Year, r.value.fields.Y), Reading(Month, r.value.fields.m),
                                                    Reading(Day, r.value.fields.d)])
  {
    hide SignedAt, UnsignedAt, ReadAll;
    var month, day := Number(Month, false, 2), Number(Day, false, 2);
    assert Items('F') == [Number(Year, true, 4)] + ([Literal('-')] + ([month] + ([Literal('-')] + [day])));
    NumberFirst(text, pos, Year, true, 4, [Literal('-')] + ([month] + ([Literal('-')] + [day])));
    var y := SignedAt(text, pos, 1, 4);
    if y.Some? {
      var p := y.value.pos;
      LiteralFirst(text, p, '-', [month] + ([Literal('-')] + [day]));
      if p < |text| {
        NumberFirst(text, p + 1, Month, false, 2, [Literal('-')] + [day]);
        var m := UnsignedAt(text, p + 1, 1, 2);
        if m.Some? {
          LiteralFirst(text, m.value.pos, '-', [day]);
          if m.value.pos < |text| {
            OneItem(text, m.value.pos + 1, day);
          }
        }
      }
    }
  }

  lemma NumberFirst(text: string, pos: nat, field: Field, signed: bool, most: nat, items: seq<Item>)
    requires pos <= |text|
    ensures var r := if signed then SignedAt(text, pos, 1, most) else UnsignedAt(text, pos, 1, most);
            ReadAll(text, pos, [Number(field, signed, most)] + items)
            == if r.None? then None
               else var rest := ReadAll(text, r.value.pos, items);
                 if rest.None? then None
                 else Some(Readings([Reading(field, r.value.value)] + rest.value.values, rest.value.pos))
  {
    hide SignedAt, UnsignedAt;
    OneItem(text, pos, Number(field, signed, most));
    ReadBoth(text, pos, [Number(field, signed, most)], items);
  }

  lemma {:induction false} ParsedByItems(text: string, pos: nat, fmt: string, command: bool, f: Fields)
    requires pos <= |text| && Supported(fmt, command)
    ensures Parsed(text, pos, fmt, command, f) == ThenStore(f, ReadAll(text, pos, Script(fmt, command)))
    decreases |fmt|
  {
    hide ConvertAt, ReadItem, Items, Converts, Plain;
    if fmt == "" {
    } else if command {
      var c, rest := fmt[0], Script(fmt[1..], false);
      ConvertsByItems(text, pos, c, f);
      ReadBoth(text, pos, Items(c), rest);
      var r := ReadAll(text, pos, Items(c));
      if r.Some? {
        var s := ReadAll(text, r.value.pos, rest);
        if s.Some? {
          StoreBoth(f, r.value.values, s.value.values);
        }
        if StoreAll(f, r.value.values).Some? {
          ParsedByItems(text, r.value.pos, fmt[1..], false, StoreAll(f, r.value.values).value);
        }
      }
    } else if fmt[0] == '%' {
      ParsedByItems(text, pos, fmt[1..], true, f);
    } else {
      LiteralFirst(text, pos, fmt[0], Script(fmt[1..], false));
      if pos < |text| && text[pos] == fmt[0] {
        ParsedByItems(text, pos + 1, fmt[1..], false, f);
      }
    }
  }

  lemma LiteralFirst(text: string, pos: nat, c: char, items: seq<Item>)
    requires pos <= |text|
    ensures ReadAll(text, pos, [Literal(c)] + items)
            == if pos < |text| && text[pos] == c then ReadAll(text, pos + 1, items) else None
  {
    OneItem(text, pos, Literal(c));
    ReadBoth(text, pos, [Literal(c)], items);
    if pos < |text| && text[pos] == c {
      var r := ReadAll(text, pos + 1, items);
      assert r.Some? ==> [] + r.value.values == r.value.values;
    }
  }

  /** For every format and every text: the format reads it if and only if all its characters and numbers are there and
      the numbers are consistent; and then each field has the last number read for it. */
  lemma ParsedExactly(text: string, pos: nat, fmt: string, command: bool, f: Fields)
    requires pos <= |text| && Supported(fmt, command)
    ensures var r, all := Parsed(text, pos, fmt, command, f), ReadAll(text, pos, Script(fmt, command));
            && (r.Some? <==> all.Some? && Consistent(f, all.value.values))
            && (r.Some? ==> && r.value.pos == all.value.pos
                            && forall field :: Get(r.value.fields, field)
                                               == Last(all.value.values, field, Get(f, field)))
  {
    hide Parsed, ReadAll, Script, Consistent, Supported;
    ParsedByItems(text, pos, fmt, command, f);
    var all := ReadAll(text, pos, Script(fmt, command));
    if all.Some? {
      StoresExactly(f, all.value.values);
    }
  }

  /** A text with two different numbers for one field, of which the first is not the value for none, gives no date. */
  lemma DifferentNumbersFail(text: string, pos: nat, fmt: string, i: nat, j: nat)
    requires pos <= |text| && Supported(fmt, false)
    requires var all := ReadAll(text, pos, Script(fmt, false));
             all.Some? && i < j < |all.value.values|
             && all.value.values[i].field == all.value.values[j].field
             && all.value.values[i].value != all.value.values[j].value
             && all.value.values[i].value != NotGiven(all.value.values[i].field)
    ensures DateFrom(text, pos, fmt) == None
  {
    hide Parsed, ReadAll, Script, Supported, Resolve;
    ParsedExactly(text, pos, fmt, false, NOTHING);
  }

  const TWO_DAYS := "%F/%d"

  /** The readings of a full date in January 2021 and another day of the month. */
  function TwoDays(first: int, second: int): seq<Reading> {
    [Reading(Year, 2021), Reading(Month, 1), Reading(Day, first), Reading(Day, second)]
  }

  lemma ReadsTwoDays(first: string, second: string, x: int, y: int)
    requires |first| == 2 && AllDigits(first) && Value(first) == x
    requires |second| == 2 && AllDigits(second) && Value(second) == y
    ensures Supported(TWO_DAYS, false)
    ensures ReadAll("2021-01-" + first + "/" + second, 0, Script(TWO_DAYS, false)) == Some(Readings(TwoDays(x, y), 13))
  {
    TwoDaysScript();
    hide Script, ReadAll, SignedAt, UnsignedAt, Value, Supported, ReadItem;
    var text := "2021-01-" + first + "/" + second;
    SmallValues();
    assert text[0..4] == "2021" && text[5..7] == "01" && text[8..10] == first && text[11..13] == second;
    assert text[4] == '-' && text[7] == '-' && text[10] == '/';
    ReadsNumber(text, 0, 4, "2021", 2021);
    ReadsNumber(text, 5, 2, "01", 1);
    ReadsNumber(text, 8, 2, first, x);
    ReadsNumber(text, 11, 2, second, y);
    var last := [Number(Day, true, 2)];
    OneItem(text, 11, last[0]);
    LastNumber(text, y);
    LiteralFirst(text, 10, '/', last);
    var days := [Literal('/')] + last;
    NumberFirst(text, 8, Day, false, 2, days);
    LiteralFirst(text, 7, '-', [Number(Day, false, 2)] + days);
    var months := [Literal('-')] + ([Number(Day, false, 2)] + days);
    NumberFirst(text, 5, Month, false, 2, months);
    LiteralFirst(text, 4, '-', [Number(Month, false, 2)] + months);
    NumberFirst(text, 0, Year, true, 4, [Literal('-')] + ([Number(Month, false, 2)] + months));
    assert [Reading(Year, 2021)] + ([Reading(Month, 1)] + ([Reading(Day, x)] + [Reading(Day, y)])) == TwoDays(x, y);
  }

  lemma LastNumber(text: string, y: int)
    requires |text| >= 11 && SignedAt(text, 11, 1, 2) == Some(Read(y, 13))
    ensures ReadItem(text, 11, Number(Day, true, 2)) == Some(Readings([Reading(Day, y)], 13))
  {
  }

  lemma SmallValues()
    ensures AllDigits("2021") && Value("2021") == 2021 && AllDigits("01") && Value("01") == 1
    ensures AllDigits("00") && Value("00") == 0 && AllDigits("05") && Value("05") == 5
    ensures AllDigits("06") && Value("06") == 6
  {
    assert "2021"[..3] == "202" && "202"[..2] == "20" && "20"[..1] == "2" && "2"[..0] == "";
    assert "01"[..1] == "0" && "00"[..1] == "0" && "05"[..1] == "0" && "06"[..1] == "0" && "0"[..0] == "";
  }

  lemma TwoDaysScript()
    ensures Supported(TWO_DAYS, false)
    ensures Script(TWO_DAYS, false)
            == [Number(Year, true, 4)] + ([Literal('-')] + ([Number(Month, false, 2)] + ([Literal('-')]
               + ([Number(Day, false, 2)] + ([Literal('/')] + [Number(Day, true, 2)])))))
  {
    var rest := TWO_DAYS[2..];
    assert TWO_DAYS[1..][1..] == rest && rest == "/%d" && rest[1..] == "%d" && rest[1..][1..] == "d";
    assert "d"[1..] == "";
    assert Script("d", true) == [Number(Day, true, 2)] + [];
  }

  /** A number that stands for none gives way to a later one: day 00 to day 05. Day 05 does not give way to day 06. */
  lemma ZeroGivesWay()
    ensures Supported(TWO_DAYS, false)
    ensures DateFrom("2021-01-00/05", 0, TWO_DAYS) == Some(Date(2021, 1, 5))
    ensures DateFrom("2021-01-05/06", 0, TWO_DAYS) == None
  {
    hide Script, ReadAll, Parsed, Resolve, Value, Supported;
    SmallValues();
    ReadsTwoDays("00", "05", 0, 5);
    assert "2021-01-" + "00" + "/" + "05" == "2021-01-00/05";
    ParsedExactly("2021-01-00/05", 0, TWO_DAYS, false, NOTHING);
    ReadsTwoDays("05", "06", 5, 6);
    assert "2021-01-" + "05" + "/" + "06" == "2021-01-05/06";
    ParsedExactly("2021-01-05/06", 0, TWO_DAYS, false, NOTHING);
    assert TwoDays(5, 6)[2].value != TwoDays(5, 6)[3].value;
    JanuaryFifth(Parsed("2021-01-00/05", 0, TWO_DAYS, false, NOTHING).value.fields);
  }

  lemma JanuaryFifth(f: Fields)
    requires forall field :: Get(f, field) == Last(TwoDays(0, 5), field, Get(NOTHING, field))
    ensures Resolve(f) == Some(Date(2021, 1, 5))
  {
    var values := TwoDays(0, 5);
    assert values[1..] == [Reading(Month, 1), Reading(Day, 0), Reading(Day, 5)];
    assert values[1..][1..] == [Reading(Day, 0), Reading(Day, 5)];
    assert values[1..][1..][1..] == [Reading(Day, 5)] && values[1..][1..][1..][1..] == [];
    forall field ensures Last(values, field, Get(NOTHING, field))
                         == Get(NOTHING.(Y := 2021, m := 1, d := 5), field)
    {
    }
    SameGet(f, NOTHING.(Y := 2021, m := 1, d := 5));
    ResolvesYmd(2021, 1, 5, Date(2021, 1, 5));
    Civil.OkIsValid(Date(2021, 1, 5));
  }

  lemma SameGet(f: Fields, g: Fields)
    requires forall field :: Get(f, field) == Get(g, field)
    ensures f == g
  {
    assert Get(f, Year) == Get(g, Year) && Get(f, YearOfCentury) == Get(g, YearOfCentury);
    assert Get(f, Century) == Get(g, Century) && Get(f, WeekYear) == Get(g, WeekYear);
    assert Get(f, WeekYearOfCentury) == Get(g, WeekYearOfCentury) && Get(f, SundayWeek) == Get(g, SundayWeek);
    assert Get(f, IsoWeek) == Get(g, IsoWeek) && Get(f, MondayWeek) == Get(g, MondayWeek);
    assert Get(f, DayOfWeek) == Get(g, DayOfWeek) && Get(f, Month) == Get(g, Month);
    assert Get(f, Day) == Get(g, Day) && Get(f, DayOfYear) == Get(g, DayOfYear);
  }

  // ---------- Which formats determine the date ----------

  /** The conversion occurs in the format. */
  predicate Has(fmt: string, command: bool, c: char) {
    fmt != "" && ((command && fmt[0] == c) || Has(fmt[1..], !command && fmt[0] == '%', c))
  }

  predicate Uses(fmt: string, c: char) {
    Has(fmt, false, c)
  }

  predicate YearInFull(fmt: string) {
    Uses(fmt, 'Y') || Uses(fmt, 'F')
  }

  predicate UsesWeekday(fmt: string) {
    Uses(fmt, 'u') || Uses(fmt, 'w')
  }

  /** A week of the calendar year and the day of the week. */
  predicate ByWeek(fmt: string) {
    (YearInFull(fmt) || Uses(fmt, 'y')) && UsesWeekday(fmt) && (Uses(fmt, 'U') || Uses(fmt, 'W'))
  }

  /** A year, and what tells the day in it. */
  predicate ByYear(fmt: string) {
    ByWeek(fmt)
    || ((YearInFull(fmt) || Uses(fmt, 'y'))
        && (Uses(fmt, 'F') || (Uses(fmt, 'm') && Uses(fmt, 'd')) || Uses(fmt, 'j')))
  }

  /** The two digits mean the year: with the century, with the year itself if it is no negative multiple of 100, or
      by themselves if it is one from 1969 to 2068. */
  predicate MeansYear(fmt: string, year: int) {
    Uses(fmt, 'C') || if YearInFull(fmt) then !(year < 0 && year % 100 == 0) else 1969 <= year <= 2068
  }

  /** Likewise the week year, but with the century of the calendar year. */
  predicate MeansWeekYear(fmt: string, year: int, week: int) {
    if Uses(fmt, 'C') || Uses(fmt, 'y') then year / 100 == week / 100
    else if Uses(fmt, 'G') then !(week < 0 && week % 100 == 0)
    else 1969 <= week <= 2068
  }

  /** What the conversions of a format must be for it to determine the date: by its year or by an ISO week date. A
      two-digit year must mean the year; and a two-digit week year the week year, or be of no use. */
  predicate Determines(fmt: string, date: Date) {
    var week := PrintedG(Civil.ToDays(date));
    && (Uses(fmt, 'y') ==> MeansYear(fmt, date.year))
    && if !Uses(fmt, 'g') then ByYear(fmt) || (Uses(fmt, 'G') && Uses(fmt, 'V') && UsesWeekday(fmt))
       else if MeansWeekYear(fmt, date.year, week) then ByYear(fmt) || (Uses(fmt, 'V') && UsesWeekday(fmt))
       else !Uses(fmt, 'G') && !(Uses(fmt, 'V') && UsesWeekday(fmt)) && ByWeek(fmt)
  }

  lemma OwnIsGiven(date: Date, c: char, f: Fields)
    requires Civil.Ok(date) && Converts(c) && TextFits(date, c)
    ensures var g := With(f, date, c);
            && (g.HasY() <==> f.HasY() || c in {'F', 'Y'})
            && (g.HasM() <==> f.HasM() || c in {'F', 'm'})
            && (g.HasD() <==> f.HasD() || c in {'F', 'd'})
            && (g.HasG() <==> f.HasG() || c == 'G')
            && (g.HasU() <==> f.HasU() || c == 'U')
            && (g.HasV() <==> f.HasV() || c == 'V')
            && (g.HasW() <==> f.HasW() || c == 'W')
            && (g.HasWd() <==> f.HasWd() || c in {'u', 'w'})
            && (g.HasJ() <==> f.HasJ() || c == 'j')
            && (g.y != NOT_A_2DIGIT_YEAR <==> f.y != NOT_A_2DIGIT_YEAR || c == 'y')
            && (g.g != NOT_A_2DIGIT_YEAR <==> f.g != NOT_A_2DIGIT_YEAR || c == 'g')
            && (g.C != NOT_A_CENTURY <==> f.C != NOT_A_CENTURY || c == 'C')
  {
    hide Civil.ToDays, Jan1, PrintedV, PrintedG, PrintedWeek, PrintedTwoDigits, PrintedC, Weekday.Of, Civil.Ok;
    OwnValues(date);
    OkIsYear(date);
    if c == 'C' {
      SmallCentury(date.year);
    }
    match c {
      case 'C' =>
      case 'd' =>
      case 'F' =>
      case 'g' =>
      case 'G' =>
      case 'j' =>
      case 'm' =>
      case 'u' =>
      case 'U' =>
      case 'V' =>
      case 'w' =>
      case 'W' =>
      case 'y' =>
      case 'Y' =>
      case _ =>
    }
  }

  lemma OkIsYear(date: Date)
    requires Civil.Ok(date)
    ensures date.year != Civil.NOT_A_YEAR
  {
  }

  lemma SmallCentury(year: int)
    requires -9900 <= year
    ensures PrintedC(year) >= -99
  {
  }

  /** The fields selected are those of the conversions of the format. */
  lemma {:induction false} SelectedAreGiven(date: Date, fmt: string, command: bool, f: Fields)
    requires Civil.Ok(date) && Supported(fmt, command) && AllFit(date, fmt, command)
    ensures var g := Selected(f, date, fmt, command);
            && (g.HasY() <==> f.HasY() || Has(fmt, command, 'F') || Has(fmt, command, 'Y'))
            && (g.HasM() <==> f.HasM() || Has(fmt, command, 'F') || Has(fmt, command, 'm'))
            && (g.HasD() <==> f.HasD() || Has(fmt, command, 'F') || Has(fmt, command, 'd'))
            && (g.HasG() <==> f.HasG() || Has(fmt, command, 'G'))
            && (g.HasU() <==> f.HasU() || Has(fmt, command, 'U'))
            && (g.HasV() <==> f.HasV() || Has(fmt, command, 'V'))
            && (g.HasW() <==> f.HasW() || Has(fmt, command, 'W'))
            && (g.HasWd() <==> f.HasWd() || Has(fmt, command, 'u') || Has(fmt, command, 'w'))
            && (g.HasJ() <==> f.HasJ() || Has(fmt, command, 'j'))
            && (g.y != NOT_A_2DIGIT_YEAR <==> f.y != NOT_A_2DIGIT_YEAR || Has(fmt, command, 'y'))
            && (g.g != NOT_A_2DIGIT_YEAR <==> f.g != NOT_A_2DIGIT_YEAR || Has(fmt, command, 'g'))
            && (g.C != NOT_A_CENTURY <==> f.C != NOT_A_CENTURY || Has(fmt, command, 'C'))
    decreases |fmt|
  {
    hide With, TextFits, Converts, Plain, Civil.Ok;
    if fmt != "" {
      if command {
        OwnIsGiven(date, fmt[0], f);
        SelectedAreGiven(date, fmt[1..], false, With(f, date, fmt[0]));
      } else {
        SelectedAreGiven(date, fmt[1..], fmt[0] == '%', f);
      }
    }
  }

  lemma CenturiesAre(year: int)
    ensures PrintedC(year) == year / 100
  {
  }

  /** The printed text of a date, followed by anything, is read back to the date if and only if the conversions of the
      format determine it. */
  lemma RoundTripByConversions(date: Date, fmt: string, rest: string)
    requires Civil.Ok(date) && YEAR_MIN <= date.year <= YEAR_MAX
    requires Supported(fmt, false) && AllFit(date, fmt, false)
    ensures DateFrom(Printed(date, fmt, false) + rest, 0, fmt) == Some(date) <==> Determines(fmt, date)
  {
    hide Printed, Selected, Civil.Ok, Supported, AllFit, DateFrom, Parsed, Determines, Recoverable, OwnFields, Has;
    FormatRoundTrip(date, fmt, rest);
    SelectedAreOwn(date, fmt);
    DeterminesRecovers(date, fmt);
  }

  /** Which fields are given, as the conversions of the format say. */
  predicate GivenBy(f: Fields, fmt: string) {
    && (f.HasY() <==> YearInFull(fmt)) && (f.HasG() <==> Uses(fmt, 'G'))
    && (f.HasM() <==> Uses(fmt, 'F') || Uses(fmt, 'm')) && (f.HasD() <==> Uses(fmt, 'F') || Uses(fmt, 'd'))
    && (f.HasU() <==> Uses(fmt, 'U')) && (f.HasV() <==> Uses(fmt, 'V')) && (f.HasW() <==> Uses(fmt, 'W'))
    && (f.HasWd() <==> UsesWeekday(fmt)) && (f.HasJ() <==> Uses(fmt, 'j'))
    && (f.y != NOT_A_2DIGIT_YEAR <==> Uses(fmt, 'y')) && (f.g != NOT_A_2DIGIT_YEAR <==> Uses(fmt, 'g'))
    && (f.C != NOT_A_CENTURY <==> Uses(fmt, 'C'))
  }

  lemma KnownYear(f: Fields, date: Date, fmt: string)
    requires GivenBy(f, fmt) && date.year != Civil.NOT_A_YEAR
    ensures var known := WithYear(f, date);
            && (known.HasY() <==> YearInFull(fmt) || Uses(fmt, 'y'))
            && (Sufficient(known) <==> ByYear(fmt) || (Uses(fmt, 'G') && Uses(fmt, 'V') && UsesWeekday(fmt)))
            && (known.HasY() && f.HasWd() && (f.HasU() || f.HasW()) <==> ByWeek(fmt))
            && forall week | week != Civil.NOT_A_YEAR ::
                 Sufficient(known.(G := week)) <==> ByYear(fmt) || (Uses(fmt, 'V') && UsesWeekday(fmt))
    ensures YearTold(f, date) <==> MeansYear(fmt, date.year)
  {
    hide Uses, PrintedC;
  }

  lemma KnownWeekYear(f: Fields, date: Date, fmt: string, week: int)
    requires GivenBy(f, fmt) && (f.C == NOT_A_CENTURY || f.C == PrintedC(date.year))
    requires Uses(fmt, 'y') ==> PrintedC(date.year) != NOT_A_CENTURY
    ensures WeekYearTold(WithYear(f, date), week) <==> MeansWeekYear(fmt, date.year, week)
  {
    hide Uses, PrintedC, UsesWeekday, YearInFull;
    CenturiesAre(date.year);
    CenturiesAre(week);
  }

  /** Where the texts fit, no year or century is one that stands for none. */
  lemma YearsAreGiven(date: Date, fmt: string)
    requires Civil.Ok(date) && AllFit(date, fmt, false)
    requires Uses(fmt, 'y') ==> MeansYear(fmt, date.year)
    ensures Uses(fmt, 'y') ==> PrintedC(date.year) != NOT_A_CENTURY
    ensures Uses(fmt, 'g') && MeansWeekYear(fmt, date.year, PrintedG(Civil.ToDays(date)))
            ==> PrintedG(Civil.ToDays(date)) != Civil.NOT_A_YEAR
  {
    hide PrintedG, PrintedC, Civil.ToDays, AllFit, Has, FullYear, Civil.Ok;
    CenturiesAre(date.year);
    WeekYearNear(date);
    WhereFits(date, fmt, false, 'C');
    WhereFits(date, fmt, false, 'Y');
    WhereFits(date, fmt, false, 'F');
    WhereFits(date, fmt, false, 'G');
    FullYearBounds(date.year);
  }

  lemma DeterminesRecovers(date: Date, fmt: string)
    requires Civil.Ok(date) && Supported(fmt, false) && AllFit(date, fmt, false)
    requires OwnFields(Selected(NOTHING, date, fmt, false), date)
    ensures Recoverable(Selected(NOTHING, date, fmt, false), date) <==> Determines(fmt, date)
  {
    hide Selected, Civil.Ok, Supported, AllFit, Own, Civil.ToDays, PrintedG, PrintedC, ByYear, ByWeek, UsesWeekday,
         MeansYear, MeansWeekYear, WithYear, YearTold, WeekYearTold, Sufficient, Uses, Has;
    var f := Selected(NOTHING, date, fmt, false);
    SelectedAreGivenBy(date, fmt);
    OkIsYear(date);
    KnownYear(f, date, fmt);
    if Uses(fmt, 'y') ==> MeansYear(fmt, date.year) {
      YearsAreGiven(date, fmt);
      KnownWeekYear(f, date, fmt, PrintedG(Civil.ToDays(date)));
    }
  }

  lemma SelectedAreGivenBy(date: Date, fmt: string)
    requires Civil.Ok(date) && Supported(fmt, false) && AllFit(date, fmt, false)
    ensures GivenBy(Selected(NOTHING, date, fmt, false), fmt)
  {
    hide Selected, Civil.Ok, Supported, AllFit, Has;
    SelectedAreGiven(date, fmt, false, NOTHING);
  }

  lemma FullYearBounds(year: int)
    ensures FullYear(year) ==> -9999 <= year <= 9999
  {
  }

  lemma {:induction false} WhereFits(date: Date, fmt: string, command: bool, c: char)
    requires AllFit(date, fmt, command)
    ensures Has(fmt, command, c) ==> TextFits(date, c)
    decreases |fmt|
  {
    hide TextFits;
    if fmt != "" {
      WhereFits(date, fmt[1..], !command && fmt[0] == '%', c);
    }
  }

  lemma SelectedAreOwn(date: Date, fmt: string)
    requires Civil.Ok(date) && Supported(fmt, false) && AllFit(date, fmt, false)
    ensures OwnFields(Selected(NOTHING, date, fmt, false), date)
  {
    hide Civil.Ok, Supported, AllFit, OwnFields, Selected, Parsed;
    NothingIsOwn(date);
    var text := Printed(date, fmt, false);
    assert text[0..|text|] == text;
    FormatReads(text, 0, fmt, false, NOTHING, date);
  }
}
