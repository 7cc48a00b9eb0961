/** The input stream the parser reads from, and its numeric and literal reads. */
module Streams {
  import opened Options
  import opened MachineCivil

  predicate IsDigit(c: char) {
    '0' <= c <= '9'
  }

  function DigitValue(c: char): int
    requires IsDigit(c)
  {
    (c - '0') as int
  }

  predicate AllDigits(s: string) {
    forall i | 0 <= i < |s| :: IsDigit(s[i])
  }

  /** The number a string of digits denotes. */
  function Value(s: string): (v: nat)
    requires AllDigits(s)
  {
    if s == "" then 0 else 10 * Value(s[..|s| - 1]) + DigitValue(s[|s| - 1])
  }

  /** A number read, and the position after it. */
  datatype Read = Read(value: int, pos: nat)

  /** How many characters from `pos` on are digits, up to `most` of them; 0 is no limit. */
  function DigitRun(text: string, pos: nat, most: nat): (k: nat)
    requires pos <= |text|
    ensures pos + k <= |text| && (most > 0 ==> k <= most)
    ensures AllDigits(text[pos..pos + k])
    ensures pos + k == |text| || k == most > 0 || !IsDigit(text[pos + k])
    decreases |text| - pos
  {
    if pos == |text| || !IsDigit(text[pos]) then 0
    else if most == 1 then 1
    else
      var k := DigitRun(text, pos + 1, if most == 0 then 0 else most - 1);
      assert text[pos..pos + 1 + k] == [text[pos]] + text[pos + 1..pos + 1 + k];
      1 + k
  }

  function UnsignedAt(text: string, pos: nat, least: nat, most: nat): (r: Option<Read>)
    requires pos <= |text|
    ensures r.Some? ==> pos <= r.value.pos <= |text|
  {
    var k := DigitRun(text, pos, most);
    if k < least then None else Some(Read(U32(Value(text[pos..pos + k])), pos + k))
  }

  /** A number with an optional sign; without any digit or sign it is 0 when no digit is asked for. */
  function SignedAt(text: string, pos: nat, least: nat, most: nat): (r: Option<Read>)
    requires pos <= |text|
    ensures r.Some? ==> pos <= r.value.pos <= |text|
  {
    var digits := if least == 0 then 1 else least;
    if pos < |text| && IsDigit(text[pos]) then
      var u :- UnsignedAt(text, pos, digits, most);
      Some(u.(value := S32(u.value)))
    else if pos < |text| && (text[pos] == '-' || text[pos] == '+') then
      var u :- UnsignedAt(text, pos + 1, digits, most);
      Some(u.(value := if text[pos] == '-' then S32(-S32(u.value)) else S32(u.value)))
    else if least > 0 then None
    else Some(Read(0, pos))
  }

  function CharAt(text: string, pos: nat, c: char): (r: Option<nat>)
    requires pos <= |text|
    ensures r.Some? ==> r.value <= |text|
  {
    if pos < |text| && text[pos] == c then Some(pos + 1) else None
  }

  class Input {
    const text: string
    var pos: nat
    var eof: bool
    var fail: bool

    ghost predicate Valid()
      reads this
    {
      pos <= |text| && (eof ==> pos == |text|)
    }

    predicate Good()
      reads this
    {
      !eof && !fail
    }

    constructor (text: string)
      ensures Valid() && Good() && this.text == text && pos == 0
    {
      this.text := text;
      pos, eof, fail := 0, false, false;
    }

    /** Look at the next character. A stream that is not good fails; at the end it remembers so. */
    method Peek() returns (c: Option<char>)
      requires Valid()
      modifies this`eof, this`fail
      ensures Valid()
      ensures c == if old(Good()) && pos < |text| then Some(text[pos]) else None
      ensures fail == old(fail || eof)
      ensures eof == (old(eof) || (old(!fail) && pos == |text|))
    {
      if !Good() {
        fail := true;
        return None;
      }
      if pos == |text| {
        eof := true;
        return None;
      }
      return Some(text[pos]);
    }

    /** Consume the character that was just looked at. */
    method Get()
      requires Valid() && Good() && pos < |text|
      modifies this`pos
      ensures Valid() && pos == old(pos) + 1
    {
      pos := pos + 1;
    }

    /** Read at least `least` and at most `most` digits, all that there are; fails exactly when there are too few. */
    method ReadUnsigned(least: nat, most: nat) returns (x: int)
      requires Valid() && !fail
      modifies this`pos, this`eof, this`fail
      ensures Valid()
      ensures fail <==> (if least > 0 then DigitRun(text, old(pos), most) < least else old(eof))
      ensures !fail ==> pos == old(pos) + DigitRun(text, old(pos), most) && AllDigits(text[old(pos)..pos])
                        && x == U32(Value(text[old(pos)..pos]))
      ensures least > 0 ==> (fail <==> UnsignedAt(text, old(pos), least, most).None?)
      ensures !fail ==> UnsignedAt(text, old(pos), least, most) == Some(Read(x, pos))
    {
      hide U32, DigitRun, Value, AllDigits;
      x := 0;
      var count: nat := 0;
      ghost var start := pos;
      EmptyValue(text[start..start]);
      ghost var k := DigitRun(text, start, most);
      while true
        invariant Valid() && !fail && eof == old(eof)
        invariant count <= k && pos == start + count
        invariant AllDigits(text[start..start + count])
        invariant k == DigitRun(text, start, most)
        invariant x == U32(Value(text[start..start + count]))
        invariant most == 0 || count < most
        decreases k - count
      {
        var ic := Peek();
        if ic.None? {
          break;
        }
        var c := ic.value;
        if !IsDigit(c) {
          break;
        }
        Get();
        RunContinues(text, start, most, count);
        OneMoreDigit(text, start, count);
        count := count + 1;
        x := U32(10 * x + DigitValue(c));
        if count == most {
          break;
        }
      }
      RunStops(text, start, most, count);
      if count < least {
        fail := true;
      }
    }

    /** Read an optional sign and at least `least` digits; one digit when there is a sign, and nothing at all for 0
        when no digit is asked for and no number begins. */
    method ReadSigned(least: nat, most: nat) returns (x: int)
      requires Valid() && !fail
      modifies this`pos, this`eof, this`fail
      ensures Valid()
      ensures var start := if old(pos) < |text| && text[old(pos)] in {'-', '+'} then old(pos) + 1 else old(pos);
              var k := DigitRun(text, start, most);
              var begins := start > old(pos) || k > 0;
              && (fail <==> if begins then k == 0 || k < least else least > 0 || old(eof))
              && (!fail && begins ==> pos == start + k && AllDigits(text[start..pos])
                                      && x == if text[old(pos)] == '-' then S32(-S32(U32(Value(text[start..pos]))))
                                              else S32(U32(Value(text[start..pos]))))
              && (!fail && !begins ==> pos == old(pos) && x == 0)
      ensures fail <==> (least == 0 && old(eof)) || SignedAt(text, old(pos), least, most).None?
      ensures !fail ==> SignedAt(text, old(pos), least, most) == Some(Read(x, pos))
    {
      hide U32, S32, DigitRun, Value, AllDigits;
      NoDigitHere(text, pos, most);
      var ic := Peek();
      if ic.Some? {
        var c := ic.value;
        if IsDigit(c) || c == '-' || c == '+' {
          if c == '-' || c == '+' {
            Get();
          }
          var u := ReadUnsigned(if least == 0 then 1 else least, most);
          if !fail {
            x := S32(u);
            if c == '-' {
              x := S32(-x);
            }
            return x;
          }
        }
      }
      if least > 0 {
        fail := true;
      }
      return 0;
    }

    /** Read one literal character; fails exactly at the end and at any other character. */
    method ReadChar(c: char)
      requires Valid() && !fail
      modifies this`pos, this`eof, this`fail
      ensures Valid()
      ensures fail <==> old(pos) == |text| || text[old(pos)] != c
      ensures !fail ==> pos == old(pos) + 1
      ensures fail <==> CharAt(text, old(pos), c).None?
      ensures !fail ==> CharAt(text, old(pos), c) == Some(pos)
    {
      var ic := Peek();
      if ic.None? || ic.value != c {
        fail := true;
        return;
      }
      Get();
    }
  }

  lemma NoDigitHere(text: string, pos: nat, most: nat)
    requires pos <= |text|
    ensures DigitRun(text, pos, most) > 0 <==> pos < |text| && IsDigit(text[pos])
  {
  }

  lemma RunContinues(text: string, start: nat, most: nat, count: nat)
    requires start <= |text| && count <= DigitRun(text, start, most)
    requires start + count < |text| && IsDigit(text[start + count]) && (most == 0 || count < most)
    ensures count < DigitRun(text, start, most)
  {
  }

  lemma RunStops(text: string, start: nat, most: nat, count: nat)
    requires start <= |text| && count <= DigitRun(text, start, most)
    requires start + count == |text| || !IsDigit(text[start + count]) || count == most > 0
    ensures count == DigitRun(text, start, most)
  {
  }

  lemma EmptyValue(s: string)
    requires s == ""
    ensures AllDigits(s) && U32(Value(s)) == 0
  {
  }

  lemma OneMoreDigit(text: string, start: nat, count: nat)
    requires start + count < |text| && IsDigit(text[start + count])
    requires AllDigits(text[start..start + count])
    ensures AllDigits(text[start..start + count + 1])
    ensures U32(10 * U32(Value(text[start..start + count])) + DigitValue(text[start + count]))
            == U32(Value(text[start..start + count + 1]))
  {
    hide U32;
    assert text[start..start + count + 1][..count] == text[start..start + count];
    Wraps(Value(text[start..start + count]), DigitValue(text[start + count]));
  }

  /** One more digit may wrap the accumulated number again; the remainder is the same. */
  lemma Wraps(v: nat, digit: int)
    requires 0 <= digit <= 9
    ensures U32(10 * U32(v) + digit) == U32(10 * v + digit)
  {
    U32IsRemainder(v);
    U32IsRemainder(10 * U32(v) + digit);
    U32IsRemainder(10 * v + digit);
    hide U32;
    var q, r := v / TWO32, v % TWO32;
    assert 10 * v + digit == 10 * r + digit + TWO32 * (10 * q);
    Periodic(10 * r + digit, 10 * q);
  }

  lemma U32IsRemainder(x: int)
    ensures U32(x) == x % TWO32
  {
  }

  lemma Periodic(a: int, k: int)
    ensures (a + TWO32 * k) % TWO32 == a % TWO32
  {
  }
}
