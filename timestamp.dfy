/**
  The `last_edited` column: a UTC date-time written with chrono's `to_rfc3339()`
  (the `date-time` production of section 5.6 of RFC 3339, fraction in chrono's
  automatic width, offset `+00:00`) and read back with `str::parse`.
  Both directions are modelled as total functions on `string`, and the round trip
  `Parse(Format(t)) == Some(t)` is proved.
*/
module Timestamp {
  import opened Wrappers

  /** The fields of a calendar date and a time of day, with nanosecond precision. */
  datatype DateTime = DateTime(year: nat, month: nat, day: nat,
                               hour: nat, minute: nat, second: nat, nanosecond: nat)
  {
    /** A real proleptic-Gregorian date and time of day (no leap second). */
    predicate Valid() {
      && year <= 9999
      && 1 <= month <= 12
      && 1 <= day <= DaysInMonth(year, month)
      && hour < 24 && minute < 60 && second < 60
      && nanosecond < 1_000_000_000
    }
  }

  /** chrono's `DateTime<Utc>`: only valid instants exist. */
  type UtcDateTime = d: DateTime | d.Valid() witness DateTime(1970, 1, 1, 0, 0, 0, 0)

  predicate IsLeapYear(y: nat) {
    y % 4 == 0 && (y % 100 != 0 || y % 400 == 0)
  }

  function DaysInMonth(y: nat, m: nat): nat {
    if m == 2 then (if IsLeapYear(y) then 29 else 28)
    else if m == 4 || m == 6 || m == 9 || m == 11 then 30
    else 31
  }

  // ---------------------------------------------------------------- digits

  predicate IsDigit(c: char) {
    '0' <= c <= '9'
  }

  predicate AllDigits(s: string) {
    forall i :: 0 <= i < |s| ==> IsDigit(s[i])
  }

  function Pow10(n: nat): (p: nat)
    ensures p >= 1
  {
    if n == 0 then 1 else 10 * Pow10(n - 1)
  }

  function DigitChar(d: nat): (c: char)
    requires d < 10
    ensures IsDigit(c)
  {
    ('0' as int + d) as char
  }

  /** `n` in exactly `w` decimal places, zero-padded on the left (`{:0w}`). */
  function Pad(n: nat, w: nat): (s: string)
    ensures |s| == w && AllDigits(s)
  {
    if w == 0 then [] else Pad(n / 10, w - 1) + [DigitChar(n % 10)]
  }

  /** The number a string of decimal digits denotes. */
  function NatOf(s: string): (n: nat)
    requires AllDigits(s)
    ensures n < Pow10(|s|)
  {
    if s == [] then 0 else NatOf(s[..|s| - 1]) * 10 + (s[|s| - 1] as int - '0' as int)
  }

  /** The length of the longest prefix of `s` made of digits. */
  function DigitRun(s: string): (k: nat)
    ensures k <= |s| && AllDigits(s[..k])
    ensures k < |s| ==> !IsDigit(s[k])
  {
    if s == [] || !IsDigit(s[0]) then 0
    else
      var k := DigitRun(s[1..]);
      assert s[..1 + k] == [s[0]] + s[1..][..k];
      1 + k
  }

  lemma {:induction false} NatOfPad(n: nat, w: nat)
    requires n < Pow10(w)
    ensures NatOf(Pad(n, w)) == n
  {
    if w > 0 {
      var p := Pad(n / 10, w - 1);
      assert Pad(n, w)[..w - 1] == p;
      NatOfPad(n / 10, w - 1);
    }
  }

  lemma {:induction false} DigitRunOfDigits(d: string, rest: string)
    requires AllDigits(d) && |rest| > 0 && !IsDigit(rest[0])
    ensures DigitRun(d + rest) == |d|
  {
    if d == [] {
      assert d + rest == rest;
    } else {
      assert (d + rest)[1..] == d[1..] + rest;
      DigitRunOfDigits(d[1..], rest);
    }
  }

  // ---------------------------------------------------------------- writing

  /** chrono's automatic fraction: none, or 3, 6 or 9 digits, the fewest that are exact. */
  function FractionText(nanos: nat): string {
    if nanos == 0 then ""
    else if nanos % 1_000_000 == 0 then "." + Pad(nanos / 1_000_000, 3)
    else if nanos % 1_000 == 0 then "." + Pad(nanos / 1_000, 6)
    else "." + Pad(nanos, 9)
  }

  /** `YYYY-MM-DDTHH:MM:SS[.fff]` followed by `offset`. The pieces are nested to the
      right so that a parser can peel them off in order. */
  function Text(d: UtcDateTime, offset: string): string {
    Pad(d.year, 4) + ("-" + (Pad(d.month, 2) + ("-" + (Pad(d.day, 2) +
    ("T" + (Pad(d.hour, 2) + (":" + (Pad(d.minute, 2) + (":" + (Pad(d.second, 2) +
    (FractionText(d.nanosecond) + offset)))))))))))
  }

  lemma AppendAssoc(x: string, y: string, z: string)
    ensures (x + y) + z == x + (y + z)
  {
  }

  /** The offset is a suffix of the nested text. */
  lemma TextOffset(d: UtcDateTime, offset: string)
    ensures Text(d, offset) == Text(d, "") + offset
  {
    var f := FractionText(d.nanosecond);
    assert f + "" == f;
    // Move the offset outwards one level at a time.
    var b11 := Pad(d.second, 2) + f;
    var b10 := ":" + b11;
    var b9 := Pad(d.minute, 2) + b10;
    var b8 := ":" + b9;
    var b7 := Pad(d.hour, 2) + b8;
    var b6 := "T" + b7;
    var b5 := Pad(d.day, 2) + b6;
    var b4 := "-" + b5;
    var b3 := Pad(d.month, 2) + b4;
    var b2 := "-" + b3;
    AppendAssoc(Pad(d.second, 2), f, offset);
    AppendAssoc(":", b11, offset);
    AppendAssoc(Pad(d.minute, 2), b10, offset);
    AppendAssoc(":", b9, offset);
    AppendAssoc(Pad(d.hour, 2), b8, offset);
    AppendAssoc("T", b7, offset);
    AppendAssoc(Pad(d.day, 2), b6, offset);
    AppendAssoc("-", b5, offset);
    AppendAssoc(Pad(d.month, 2), b4, offset);
    AppendAssoc("-", b3, offset);
    AppendAssoc(Pad(d.year, 4), b2, offset);
    assert Text(d, "") == Pad(d.year, 4) + b2;
  }

  /** `to_rfc3339()` of a UTC instant: `YYYY-MM-DDTHH:MM:SS[.fff]+00:00`. */
  function Format(d: UtcDateTime): (s: string)
    ensures |s| == 25 || |s| == 29 || |s| == 32 || |s| == 35
    ensures AllDigits(s[..4]) && s[4] == '-' && s[7] == '-' && s[10] == 'T' && s[13] == ':' && s[16] == ':'
    ensures s[|s| - 6..] == "+00:00"
  {
    TextOffset(d, "+00:00");
    Text(d, "+00:00")
  }

  // ---------------------------------------------------------------- reading

  /** A number and the text after it. */
  datatype Parsed = Parsed(value: nat, rest: string)

  /** Exactly `w` digits at the front of `s`. */
  function Number(s: string, w: nat): Option<Parsed> {
    if w <= |s| && AllDigits(s[..w]) then Some(Parsed(NatOf(s[..w]), s[w..])) else None
  }

  /** The literal `lit` at the front of `s`; what follows it. */
  function Literal(s: string, lit: string): Option<string> {
    if |lit| <= |s| && s[..|lit|] == lit then Some(s[|lit|..]) else None
  }

  /** The separator between date and time: `T`, `t` or a space. */
  function Separator(s: string): Option<string> {
    if |s| > 0 && (s[0] == 'T' || s[0] == 't' || s[0] == ' ') then Some(s[1..]) else None
  }

  /** An optional `.` and one or more digits of a second; digits past the ninth are
      consumed and dropped. A `.` without a digit is an error. */
  function Fraction(s: string): Option<Parsed> {
    if |s| == 0 || s[0] != '.' then Some(Parsed(0, s))
    else
      var k := DigitRun(s[1..]);
      if k == 0 then None
      else
        var kept := if k <= 9 then k else 9;
        assert s[1..][..kept] == s[1..1 + kept];
        Some(Parsed(NatOf(s[1..1 + kept]) * Pow10(9 - kept), s[1 + k..]))
  }

  /** The offsets that denote UTC. */
  predicate IsUtcOffset(s: string) {
    s == "Z" || s == "z" || s == "+00:00" || s == "-00:00"
  }

  /** `str::parse::<DateTime<Utc>>()`: `None` for any text that is not a UTC
      RFC 3339 date-time naming a real instant. */
  function Parse(s: string): (r: Option<UtcDateTime>)
    ensures r.Some? ==> 4 < |s| && AllDigits(s[..4]) && r.value.year == NatOf(s[..4]) && s[4] == '-'
  {
    var year :- Number(s, 4);
    var s1 :- Literal(year.rest, "-");
    var month :- Number(s1, 2);
    var s2 :- Literal(month.rest, "-");
    var day :- Number(s2, 2);
    var s3 :- Separator(day.rest);
    var hour :- Number(s3, 2);
    var s4 :- Literal(hour.rest, ":");
    var minute :- Number(s4, 2);
    var s5 :- Literal(minute.rest, ":");
    var second :- Number(s5, 2);
    var fraction :- Fraction(second.rest);
    var d := DateTime(year.value, month.value, day.value,
                      hour.value, minute.value, second.value, fraction.value);
    if IsUtcOffset(fraction.rest) && d.Valid() then Some(d) else None
  }

  // ---------------------------------------------------------------- round trip

  lemma NumberOfPad(n: nat, w: nat, rest: string)
    requires n < Pow10(w)
    ensures Number(Pad(n, w) + rest, w) == Some(Parsed(n, rest))
  {
    var s := Pad(n, w) + rest;
    assert s[..w] == Pad(n, w);
    assert s[w..] == rest;
    NatOfPad(n, w);
  }

  lemma LiteralOf(lit: string, rest: string)
    ensures Literal(lit + rest, lit) == Some(rest)
  {
    assert (lit + rest)[..|lit|] == lit;
    assert (lit + rest)[|lit|..] == rest;
  }

  lemma FractionOfDigits(v: nat, w: nat, rest: string)
    requires 1 <= w <= 9 && v < Pow10(w)
    requires |rest| > 0 && !IsDigit(rest[0])
    ensures Fraction("." + Pad(v, w) + rest) == Some(Parsed(v * Pow10(9 - w), rest))
  {
    var digits := Pad(v, w);
    var s := "." + digits + rest;
    assert s[0] == '.';
    assert s[1..] == digits + rest;
    DigitRunOfDigits(digits, rest);
    assert DigitRun(s[1..]) == w;
    assert s[1..1 + w] == digits;
    assert s[1 + w..] == rest;
    NatOfPad(v, w);
    assert NatOf(s[1..1 + w]) == v;
  }

  lemma FractionOfText(nanos: nat, rest: string)
    requires nanos < 1_000_000_000
    requires |rest| > 0 && !IsDigit(rest[0]) && rest[0] != '.'
    ensures Fraction(FractionText(nanos) + rest) == Some(Parsed(nanos, rest))
  {
    assert Pow10(3) == 1_000;
    assert Pow10(6) == 1_000_000;
    assert Pow10(9) == 1_000_000_000;
    if nanos == 0 {
      assert FractionText(nanos) + rest == rest;
    } else if nanos % 1_000_000 == 0 {
      var v := nanos / 1_000_000;
      assert v * 1_000_000 == nanos && v < 1_000;
      FractionOfDigits(v, 3, rest);
    } else if nanos % 1_000 == 0 {
      var v := nanos / 1_000;
      assert v * 1_000 == nanos && v < 1_000_000;
      FractionOfDigits(v, 6, rest);
    } else {
      FractionOfDigits(nanos, 9, rest);
    }
  }

  /** What `to_rfc3339()` writes, `parse()` reads back as the same instant. */
  lemma ParseFormat(d: UtcDateTime)
    ensures Parse(Format(d)) == Some(d)
  {
    var r12 := FractionText(d.nanosecond) + "+00:00";
    var r11 := Pad(d.second, 2) + r12;
    var r10 := ":" + r11;
    var r9 := Pad(d.minute, 2) + r10;
    var r8 := ":" + r9;
    var r7 := Pad(d.hour, 2) + r8;
    var r6 := "T" + r7;
    var r5 := Pad(d.day, 2) + r6;
    var r4 := "-" + r5;
    var r3 := Pad(d.month, 2) + r4;
    var r2 := "-" + r3;
    assert Format(d) == Pad(d.year, 4) + r2;
    assert Pow10(4) == 10000 && Pow10(2) == 100;
    NumberOfPad(d.year, 4, r2);
    LiteralOf("-", r3);
    NumberOfPad(d.month, 2, r4);
    LiteralOf("-", r5);
    NumberOfPad(d.day, 2, r6);
    assert Separator(r6) == Some(r7);
    NumberOfPad(d.hour, 2, r8);
    LiteralOf(":", r9);
    NumberOfPad(d.minute, 2, r10);
    LiteralOf(":", r11);
    NumberOfPad(d.second, 2, r12);
    FractionOfText(d.nanosecond, "+00:00");
  }

  /** Writing is injective: two different instants never share a stored text. */
  lemma FormatInjective(d1: UtcDateTime, d2: UtcDateTime)
    ensures Format(d1) == Format(d2) ==> d1 == d2
  {
    ParseFormat(d1);
    ParseFormat(d2);
  }
}
