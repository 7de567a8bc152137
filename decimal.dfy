/** Decimal text of integers: what Python's str() prints for a
    non-negative int, and the part of int() the recorder relies on to
    read a line from the serial port. */
module Decimal {
  import opened Results

  predicate IsDigit(c: char) {
    '0' <= c <= '9'
  }

  predicate IsDigits(s: string) {
    forall i :: 0 <= i < |s| ==> IsDigit(s[i])
  }

  /** A digit string as str() prints a non-negative int: at least one digit,
      and no leading zero unless the number is 0 itself. */
  predicate IsCanonical(s: string) {
    |s| > 0 && IsDigits(s) && (s[0] == '0' ==> |s| == 1)
  }

  function DigitChar(d: nat): (c: char)
    requires d < 10
    ensures IsDigit(c)
  {
    ('0' as int + d) as char
  }

  function DigitValue(c: char): (d: nat)
    requires IsDigit(c)
    ensures d < 10
  {
    c as int - '0' as int
  }

  /** str(n) for a non-negative int n: plain decimal, no padding. */
  function NatToString(n: nat): (s: string)
    ensures IsCanonical(s)
    ensures s[0] == '0' <==> n == 0
    decreases n
  {
    if n < 10 then [DigitChar(n)] else NatToString(n / 10) + [DigitChar(n % 10)]
  }

  /** The number a digit string denotes, read most significant digit first. */
  function DigitsValue(s: string): nat
    requires IsDigits(s)
    decreases |s|
  {
    if s == [] then 0 else DigitsValue(s[..|s| - 1]) * 10 + DigitValue(s[|s| - 1])
  }

  /** Reading back what NatToString prints gives the number again. */
  lemma {:induction false} DigitsValueOfNatToString(n: nat)
    ensures DigitsValue(NatToString(n)) == n
    decreases n
  {
    if n >= 10 {
      var s := NatToString(n);
      assert s[..|s| - 1] == NatToString(n / 10);
      DigitsValueOfNatToString(n / 10);
    }
  }

  lemma {:induction false} LeadingNonZeroIsPositive(s: string)
    requires |s| > 0 && IsDigits(s) && s[0] != '0'
    ensures DigitsValue(s) > 0
    decreases |s|
  {
    if |s| > 1 {
      var p := s[..|s| - 1];
      assert p[0] == s[0];
      LeadingNonZeroIsPositive(p);
    }
  }

  /** Every canonical digit string is what NatToString prints for its value,
      so NatToString is a bijection between naturals and canonical strings. */
  lemma {:induction false} NatToStringOfDigitsValue(s: string)
    requires IsCanonical(s)
    ensures NatToString(DigitsValue(s)) == s
    decreases |s|
  {
    var last := s[|s| - 1];
    if |s| == 1 {
      assert s[..0] == [];
      assert s == [last];
    } else {
      var p := s[..|s| - 1];
      assert p[0] == s[0];
      LeadingNonZeroIsPositive(p);
      NatToStringOfDigitsValue(p);
      assert s == p + [last];
    }
  }

  predicate IsSpace(c: char) {
    c == ' ' || c == '\t' || c == '\n' || c == '\r' || c as int == 11 || c as int == 12
  }

  function TrimStart(s: string): string
    decreases |s|
  {
    if s != [] && IsSpace(s[0]) then TrimStart(s[1..]) else s
  }

  function TrimEnd(s: string): string
    decreases |s|
  {
    if s != [] && IsSpace(s[|s| - 1]) then TrimEnd(s[..|s| - 1]) else s
  }

  /** TrimStart drops a prefix. */
  lemma {:induction false} TrimStartIsSuffix(s: string)
    ensures |TrimStart(s)| <= |s| && TrimStart(s) == s[|s| - |TrimStart(s)|..]
    decreases |s|
  {
    if s != [] && IsSpace(s[0]) {
      TrimStartIsSuffix(s[1..]);
    }
  }

  /** TrimEnd drops a suffix. */
  lemma {:induction false} TrimEndIsPrefix(s: string)
    ensures |TrimEnd(s)| <= |s| && TrimEnd(s) == s[..|TrimEnd(s)|]
    decreases |s|
  {
    if s != [] && IsSpace(s[|s| - 1]) {
      TrimEndIsPrefix(s[..|s| - 1]);
    }
  }

  /** The text int() looks at once surrounding ASCII whitespace is dropped. */
  function Strip(s: string): string {
    TrimEnd(TrimStart(s))
  }

  /** int(line) on one line read from the serial port, for the forms this model
      accepts: optional ASCII whitespace around an optional sign and one or more
      decimal digits (leading zeros allowed). None stands for the ValueError int()
      raises on anything else. */
  function ParseInt(s: string): Option<int> {
    var t := Strip(s);
    if |t| > 0 && (t[0] == '-' || t[0] == '+') then
      if |t| > 1 && IsDigits(t[1..]) then
        var magnitude: int := DigitsValue(t[1..]);
        Some(if t[0] == '-' then -magnitude else magnitude)
      else None
    else if |t| > 0 && IsDigits(t) then Some(DigitsValue(t))
    else None
  }

  /** The text '%d' prints for an int: a minus sign for negatives, then the digits. */
  function IntToString(i: int): string {
    if i < 0 then "-" + NatToString(-i) else NatToString(i)
  }

  lemma StripLine(t: string)
    requires t != [] && !IsSpace(t[0]) && !IsSpace(t[|t| - 1])
    ensures Strip(t + "\n") == t
  {
    var line := t + "\n";
    assert line[0] == t[0];
    assert TrimStart(line) == line;
    assert IsSpace(line[|line| - 1]);
    assert line[..|line| - 1] == t;
    assert TrimEnd(line) == TrimEnd(t);
  }

  /** A line "<n>\n" as a device prints it is read back as n. */
  lemma ParseIntOfLine(i: int)
    ensures ParseInt(IntToString(i) + "\n") == Some(i)
  {
    var t := IntToString(i);
    StripLine(t);
    if i < 0 {
      var digits := NatToString(-i);
      assert t[1..] == digits;
      DigitsValueOfNatToString(-i);
    } else {
      DigitsValueOfNatToString(i);
    }
  }

  /** A line holding no decimal digit at all (an empty read, "abc") is rejected. */
  lemma NoDigitNoInt(s: string)
    requires forall i :: 0 <= i < |s| ==> !IsDigit(s[i])
    ensures ParseInt(s) == None
  {
    var t1 := TrimStart(s);
    var t := Strip(s);
    TrimStartIsSuffix(s);
    TrimEndIsPrefix(t1);
    assert forall i :: 0 <= i < |t| ==> t[i] == s[|s| - |t1| + i];
    if |t| > 1 {
      assert !IsDigit(t[1]);
    }
    if |t| > 0 {
      assert !IsDigit(t[0]);
    }
  }
}
