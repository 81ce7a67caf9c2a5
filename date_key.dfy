/** The `YYYY-MM-DD` keys the calendar views build with a template string:
    `${year}-${String(month + 1).padStart(2, "0")}-${String(day).padStart(2, "0")}`,
    together with a parser that inverts them. */
module DateKey {
  import opened Basics

  predicate IsDigit(c: char) { '0' <= c <= '9' }

  predicate AllDigits(s: string) { forall i :: 0 <= i < |s| ==> IsDigit(s[i]) }

  function DigitChar(d: int): (c: char)
    requires 0 <= d < 10
    ensures IsDigit(c)
  {
    ['0', '1', '2', '3', '4', '5', '6', '7', '8', '9'][d]
  }

  function DigitValue(c: char): (d: int)
    requires IsDigit(c)
    ensures 0 <= d < 10
  {
    c as int - '0' as int
  }

  /** `String(n)` for a non-negative integer: decimal, no leading zeros. */
  function NatToString(n: nat): (s: string)
    ensures 1 <= |s| && AllDigits(s)
    ensures |s| == 1 <==> n < 10
    ensures n < 100 ==> |s| <= 2
    ensures 1000 <= n < 10000 ==> |s| == 4
  {
    if n < 10 then [DigitChar(n)] else NatToString(n / 10) + [DigitChar(n % 10)]
  }

  /** `String(i)` for any integer: a minus sign before negative values. */
  function IntToString(i: int): (s: string)
    ensures 1 <= |s|
  {
    if i < 0 then "-" + NatToString(-i) else NatToString(i)
  }

  /** The value of a run of decimal digits. */
  function DigitsValue(s: string): (n: nat)
    requires AllDigits(s)
  {
    if s == [] then 0 else 10 * DigitsValue(s[..|s| - 1]) + DigitValue(s[|s| - 1])
  }

  /** The inverse of `IntToString`. */
  function ParseInt(s: string): Option<int> {
    if |s| >= 2 && s[0] == '-' && AllDigits(s[1..]) then Some(0 - DigitsValue(s[1..]) as int)
    else if |s| >= 1 && AllDigits(s) then Some(DigitsValue(s) as int)
    else None
  }

  /** `s.padStart(2, "0")`. */
  function Pad2(s: string): (r: string)
    ensures |r| == if |s| >= 2 then |s| else 2
  {
    if |s| == 0 then "00" else if |s| == 1 then "0" + s else s
  }

  /** The date key of day `day` of month `month` (0-based) of `year`. */
  function Key(year: int, month: int, day: int): string {
    IntToString(year) + "-" + Pad2(IntToString(month + 1)) + "-" + Pad2(IntToString(day))
  }

  /** Reads a key back: year, 0-based month and day. */
  function ParseKey(s: string): Option<(int, int, int)> {
    if |s| < 7 || s[|s| - 3] != '-' || s[|s| - 6] != '-' then None
    else
      var mm := s[|s| - 5..|s| - 3];
      var dd := s[|s| - 2..];
      if !AllDigits(mm) || !AllDigits(dd) then None
      else match ParseInt(s[..|s| - 6])
        case None => None
        case Some(y) => Some((y, DigitsValue(mm) - 1, DigitsValue(dd)))
  }

  // ---------------------------------------------------------------- lemmas

  lemma {:induction false} NatToStringRoundTrip(n: nat)
    ensures DigitsValue(NatToString(n)) == n
  {
    if n >= 10 {
      NatToStringRoundTrip(n / 10);
      var s := NatToString(n);
      assert s[..|s| - 1] == NatToString(n / 10);
    }
  }

  lemma ParseDigits(digits: string)
    requires 1 <= |digits| && AllDigits(digits)
    ensures ParseInt(digits) == Some(DigitsValue(digits) as int)
    ensures ParseInt("-" + digits) == Some(0 - DigitsValue(digits) as int)
  {
    assert IsDigit(digits[0]);
    assert ("-" + digits)[1..] == digits;
  }

  /** `ParseInt` undoes `IntToString`. */
  lemma IntToStringRoundTrip(i: int)
    ensures ParseInt(IntToString(i)) == Some(i)
  {
    var n := if i < 0 then -i else i;
    NatToStringRoundTrip(n);
    ParseDigits(NatToString(n));
  }

  /** A one- or two-digit number padded to two places reads back as itself. */
  lemma Pad2RoundTrip(n: nat)
    requires n < 100
    ensures var p := Pad2(IntToString(n)); |p| == 2 && AllDigits(p) && DigitsValue(p) == n
  {
    NatToStringRoundTrip(n);
    var s := NatToString(n);
    if |s| == 1 {
      assert Pad2(s)[..1] == "0";
      assert DigitsValue("0") == 0;
    }
  }

  /** Where the parts of `ys-mm-dd` sit, for two-character `mm` and `dd`. */
  lemma KeyLayout(ys: string, mm: string, dd: string)
    requires |mm| == 2 && |dd| == 2
    ensures var s := ys + "-" + mm + "-" + dd;
            && |s| == |ys| + 6 && s[|s| - 3] == '-' && s[|s| - 6] == '-'
            && s[|s| - 5..|s| - 3] == mm && s[|s| - 2..] == dd && s[..|s| - 6] == ys
  {
  }

  /** Parsing a key gives back the year, month and day it was built from. */
  lemma KeyRoundTrip(year: int, month: int, day: int)
    requires 0 <= month < 12 && 1 <= day <= 31
    ensures ParseKey(Key(year, month, day)) == Some((year, month, day))
  {
    var ys := IntToString(year);
    var mm := Pad2(IntToString(month + 1));
    var dd := Pad2(IntToString(day));
    Pad2RoundTrip(month + 1);
    Pad2RoundTrip(day);
    IntToStringRoundTrip(year);
    ParseLayout(ys, mm, dd, year);
  }

  lemma ParseLayout(ys: string, mm: string, dd: string, year: int)
    requires |mm| == 2 && |dd| == 2 && AllDigits(mm) && AllDigits(dd)
    requires ParseInt(ys) == Some(year)
    ensures ParseKey(ys + "-" + mm + "-" + dd) == Some((year, DigitsValue(mm) - 1, DigitsValue(dd)))
  {
    KeyLayout(ys, mm, dd);
  }

  /** Different dates have different keys, so comparing keys compares dates. */
  lemma KeyInjective(y1: int, m1: int, d1: int, y2: int, m2: int, d2: int)
    requires 0 <= m1 < 12 && 1 <= d1 <= 31
    requires 0 <= m2 < 12 && 1 <= d2 <= 31
    ensures Key(y1, m1, d1) == Key(y2, m2, d2) <==> (y1, m1, d1) == (y2, m2, d2)
  {
    KeyRoundTrip(y1, m1, d1);
    KeyRoundTrip(y2, m2, d2);
  }

  /** Four-digit years give the ten-character `YYYY-MM-DD` form. */
  lemma KeyShape(year: int, month: int, day: int)
    requires 1000 <= year < 10000 && 0 <= month < 12 && 1 <= day <= 31
    ensures var s := Key(year, month, day);
            |s| == 10 && s[4] == '-' && s[7] == '-'
            && AllDigits(s[..4]) && AllDigits(s[5..7]) && AllDigits(s[8..])
  {
    Pad2RoundTrip(month + 1);
    Pad2RoundTrip(day);
    var ys := IntToString(year);
    KeyLayout(ys, Pad2(IntToString(month + 1)), Pad2(IntToString(day)));
    assert |ys| == 4;
  }

  lemma YearStrings()
    ensures IntToString(2026) == "2026" && IntToString(2024) == "2024"
  {
    assert NatToString(2) == "2";
    assert NatToString(20) == NatToString(2) + [DigitChar(0)] == "20";
    assert NatToString(202) == NatToString(20) + [DigitChar(2)] == "202";
    assert NatToString(2026) == NatToString(202) + [DigitChar(6)] == "2026";
    assert NatToString(2024) == NatToString(202) + [DigitChar(4)] == "2024";
  }

  lemma PaddedStrings()
    ensures Pad2(IntToString(10)) == "10" && Pad2(IntToString(14)) == "14"
    ensures Pad2(IntToString(1)) == "01" && Pad2(IntToString(5)) == "05"
  {
    assert NatToString(10) == NatToString(1) + [DigitChar(0)] == "10";
    assert NatToString(14) == NatToString(1) + [DigitChar(4)] == "14";
  }

  /** The key of 14 October 2026. */
  lemma KeyExample()
    ensures Key(2026, 9, 14) == "2026-10-14"
    ensures Key(2024, 0, 5) == "2024-01-05"
  {
    YearStrings();
    PaddedStrings();
  }
}
