/** laptime/misc.py: formatting a lap duration and naming the output file. */
module Misc {
  import opened Results
  import opened Decimal

  /** The argument human_readable receives: a Python int, or a value of any
      other type. */
  datatype PyValue = Int(i: int) | NonInt

  /** The message both of human_readable's exceptions carry. */
  const PositiveIntMessage := "millis must be a positive integer"

  /** Python's divmod on non-negative operands (floor and Euclidean division
      agree there). */
  function DivMod(a: nat, b: nat): (qr: (nat, nat))
    requires b > 0
    ensures qr.0 * b + qr.1 == a && qr.1 < b
  {
    (a / b, a % b)
  }

  /** The (minutes, seconds, milliseconds) human_readable prints, obtained by
      the same two divmod steps. */
  function Components(m: nat): (parts: (nat, nat, nat))
    ensures parts.1 < 60 && parts.2 < 1000
    ensures parts.0 * 60000 + parts.1 * 1000 + parts.2 == m
  {
    var (seconds, ms) := DivMod(m, 1000);
    var (minutes, secondsInMinute) := DivMod(seconds, 60);
    (minutes, secondsInMinute, ms)
  }

  /** The split into minutes, seconds below 60 and milliseconds below 1000 is
      the only one that adds up to m. */
  lemma ComponentsUnique(m: nat, minutes: nat, seconds: nat, ms: nat)
    requires seconds < 60 && ms < 1000
    requires minutes * 60000 + seconds * 1000 + ms == m
    ensures Components(m) == (minutes, seconds, ms)
  {
  }

  /** "{minutes}:{seconds}.{ms}", each part plain decimal. */
  function FormatDuration(m: nat): string {
    var (minutes, seconds, ms) := Components(m);
    NatToString(minutes) + ":" + NatToString(seconds) + "." + NatToString(ms)
  }

  /** human_readable(millis): the type check first, then the sign check, then
      the formatted duration. */
  function HumanReadable(x: PyValue): (r: Result<string>)
    ensures r.Ok? <==> x.Int? && x.i >= 0
  {
    if !x.Int? then Err(TypeError(PositiveIntMessage))
    else if x.i < 0 then Err(ValueError(PositiveIntMessage))
    else Ok(FormatDuration(x.i))
  }

  /** On success the text is the formatted duration. */
  lemma HumanReadableOk(m: int, text: string)
    requires HumanReadable(Int(m)) == Ok(text)
    ensures m >= 0 && text == FormatDuration(m)
  {
  }

  /** A value that is not an int raises TypeError, even before the sign is
      looked at; a negative int raises ValueError; no string is produced. */
  lemma HumanReadableErrors(x: PyValue)
    ensures x.NonInt? ==> HumanReadable(x) == Err(TypeError(PositiveIntMessage))
    ensures x.Int? && x.i < 0 ==> HumanReadable(x) == Err(ValueError(PositiveIntMessage))
  {
  }

  /** human_readable(m) == "{m // 60000}:{(m // 1000) % 60}.{m % 1000}". */
  lemma HumanReadableFormat(m: nat)
    ensures HumanReadable(Int(m))
         == Ok(NatToString(m / 60000) + ":" + NatToString((m / 1000) % 60) + "." + NatToString(m % 1000))
  {
    var seconds := m / 1000;
    assert m == (seconds / 60) * 60000 + (seconds % 60) * 1000 + m % 1000;
    ComponentsUnique(m, m / 60000, (m / 1000) % 60, m % 1000);
  }

  /** The index of the first c in s, or |s| when there is none. */
  function IndexOf(s: string, c: char): (k: nat)
    ensures k <= |s|
    ensures k < |s| ==> s[k] == c
    ensures forall j :: 0 <= j < k ==> s[j] != c
    decreases |s|
  {
    if s == [] then 0 else if s[0] == c then 0 else 1 + IndexOf(s[1..], c)
  }

  /** The text before and after the first c in s, if there is one. */
  function SplitAt(s: string, c: char): (r: Option<(string, string)>)
    ensures r.Some? ==> s == r.value.0 + [c] + r.value.1
    ensures r.Some? ==> c !in r.value.0
    ensures r.None? <==> c !in s
  {
    var i := IndexOf(s, c);
    if i == |s| then None
    else
      assert s == s[..i] + [c] + s[i + 1..];
      Some((s[..i], s[i + 1..]))
  }

  /** Reads a "min:sec.ms" string back into milliseconds; it accepts exactly
      the strings human_readable can print. */
  function ParseDuration(s: string): Option<nat> {
    match SplitAt(s, ':')
    case None => None
    case Some((minutes, rest)) =>
      match SplitAt(rest, '.')
      case None => None
      case Some((seconds, ms)) =>
        if IsCanonical(minutes) && IsCanonical(seconds) && IsCanonical(ms)
           && DigitsValue(seconds) < 60 && DigitsValue(ms) < 1000
        then Some(DigitsValue(minutes) * 60000 + DigitsValue(seconds) * 1000 + DigitsValue(ms))
        else None
  }

  lemma SplitAtAfterDigits(p: string, c: char, q: string)
    requires IsDigits(p) && !IsDigit(c)
    ensures SplitAt(p + [c] + q, c) == Some((p, q))
  {
    var s := p + [c] + q;
    assert s[|p|] == c;
    assert IndexOf(s, c) == |p|;
    assert s[..|p|] == p;
    assert s[|p| + 1..] == q;
  }

  lemma ParseDurationOfSplits(s: string, sa: string, tail: string, sb: string, sc: string)
    requires SplitAt(s, ':') == Some((sa, tail)) && SplitAt(tail, '.') == Some((sb, sc))
    requires IsCanonical(sa) && IsCanonical(sb) && IsCanonical(sc)
    requires DigitsValue(sb) < 60 && DigitsValue(sc) < 1000
    ensures ParseDuration(s) == Some(DigitsValue(sa) * 60000 + DigitsValue(sb) * 1000 + DigitsValue(sc))
  {
  }

  /** The text human_readable prints for the parts (a, b, c). */
  lemma ParseDurationOfParts(sa: string, sb: string, sc: string)
    requires IsCanonical(sa) && IsCanonical(sb) && IsCanonical(sc)
    requires DigitsValue(sb) < 60 && DigitsValue(sc) < 1000
    ensures ParseDuration(sa + ":" + sb + "." + sc)
         == Some(DigitsValue(sa) * 60000 + DigitsValue(sb) * 1000 + DigitsValue(sc))
  {
    var tail := sb + "." + sc;
    var s := sa + ":" + sb + "." + sc;
    assert s == sa + [':'] + tail;
    SplitAtAfterDigits(sa, ':', tail);
    assert tail == sb + ['.'] + sc;
    SplitAtAfterDigits(sb, '.', sc);
    ParseDurationOfSplits(s, sa, tail, sb, sc);
  }

  /** The printed components reassemble to the original count:
      parsing human_readable's output gives m back. */
  lemma HumanReadableRoundTrip(m: nat)
    ensures HumanReadable(Int(m)).Ok?
    ensures ParseDuration(HumanReadable(Int(m)).value) == Some(m)
  {
    var (a, b, c) := Components(m);
    DigitsValueOfNatToString(a);
    DigitsValueOfNatToString(b);
    DigitsValueOfNatToString(c);
    ParseDurationOfParts(NatToString(a), NatToString(b), NatToString(c));
  }

  /** What ParseDuration accepts is three canonical digit strings around
      ':' and '.', the last two below 60 and 1000. */
  lemma ParseDurationParts(s: string, m: nat) returns (sa: string, sb: string, sc: string)
    requires ParseDuration(s) == Some(m)
    ensures IsCanonical(sa) && IsCanonical(sb) && IsCanonical(sc)
    ensures DigitsValue(sb) < 60 && DigitsValue(sc) < 1000
    ensures s == sa + ":" + sb + "." + sc
    ensures m == DigitsValue(sa) * 60000 + DigitsValue(sb) * 1000 + DigitsValue(sc)
  {
    var first := SplitAt(s, ':').value;
    var second := SplitAt(first.1, '.').value;
    sa, sb, sc := first.0, second.0, second.1;
    assert s == sa + ":" + sb + "." + sc;
  }

  /** The converse: a string ParseDuration accepts is exactly what
      human_readable prints for the count it reads. */
  lemma ParseDurationRoundTrip(s: string, m: nat)
    requires ParseDuration(s) == Some(m)
    ensures HumanReadable(Int(m)) == Ok(s)
  {
    var sa, sb, sc := ParseDurationParts(s, m);
    NatToStringOfDigitsValue(sa);
    NatToStringOfDigitsValue(sb);
    NatToStringOfDigitsValue(sc);
    ComponentsUnique(m, DigitsValue(sa), DigitsValue(sb), DigitsValue(sc));
    assert FormatDuration(m) == s;
  }

  /** Distinct durations are printed differently. */
  lemma HumanReadableInjective(m: nat, n: nat)
    requires HumanReadable(Int(m)) == HumanReadable(Int(n))
    ensures m == n
  {
    HumanReadableRoundTrip(m);
    HumanReadableRoundTrip(n);
  }

  /** A couple of milliseconds: 124 is printed "0:0.124". */
  lemma HumanReadableMillis()
    ensures HumanReadable(Int(124)) == Ok("0:0.124")
  {
    HumanReadableFormat(124);
    assert 124 / 60000 == 0 && (124 / 1000) % 60 == 0 && 124 % 1000 == 124;
    assert NatToString(0) == "0" && NatToString(124) == "124";
    assert "0" + ":" + "0" + "." + "124" == "0:0.124";
  }

  /** A couple of seconds: 1234 is printed "0:1.234". */
  lemma HumanReadableSeconds()
    ensures HumanReadable(Int(1234)) == Ok("0:1.234")
  {
    HumanReadableFormat(1234);
    assert 1234 / 60000 == 0 && (1234 / 1000) % 60 == 1 && 1234 % 1000 == 234;
    assert NatToString(1) == "1" && NatToString(234) == "234";
    assert "0" + ":" + "1" + "." + "234" == "0:1.234";
  }

  /** A couple of minutes: 5 min 5.657 s is printed "5:5.657", unpadded. */
  lemma HumanReadableMinutes()
    ensures HumanReadable(Int(1000 * 60 * 5 + 5 * 1000 + 657)) == Ok("5:5.657")
  {
    HumanReadableFormat(305657);
    assert 305657 / 60000 == 5 && (305657 / 1000) % 60 == 5 && 305657 % 1000 == 657;
    assert NatToString(5) == "5" && NatToString(657) == "657";
    assert "5" + ":" + "5" + "." + "657" == "5:5.657";
  }

  /** The default base name of the output file. */
  const DefaultBase := "track_times"

  /** generate_filename(base, ...) with the timestamp text already formatted:
      "{base}_{stamp}.csv", refused with ValueError when it holds a '/'. */
  function GenerateFilename(base: string, stamp: string): (r: Result<string>) {
    var name := base + "_" + stamp + ".csv";
    if '/' in name then Err(ValueError("Invalid filename: " + name)) else Ok(name)
  }

  /** The name is refused exactly when base or stamp holds a '/'; the error
      message quotes the assembled name. */
  lemma GenerateFilenameRefusesSlash(base: string, stamp: string)
    ensures GenerateFilename(base, stamp).Ok? <==> '/' !in base && '/' !in stamp
    ensures GenerateFilename(base, stamp).Err? ==>
      GenerateFilename(base, stamp).error == ValueError("Invalid filename: " + base + "_" + stamp + ".csv")
  {
    var name := base + "_" + stamp + ".csv";
    assert name == base + ("_" + stamp + ".csv");
    assert "_" + stamp + ".csv" == "_" + (stamp + ".csv");
  }

  /** Every name returned has no '/', begins with base + "_", ends in ".csv",
      and gives back the stamp between the two. */
  lemma GenerateFilenameShape(base: string, stamp: string, name: string)
    requires GenerateFilename(base, stamp) == Ok(name)
    ensures '/' !in name
    ensures |name| == |base| + |stamp| + 5
    ensures name[..|base| + 1] == base + "_"
    ensures name[|name| - 4..] == ".csv"
    ensures name[|base| + 1..|name| - 4] == stamp
  {
  }

  /** A stamp shaped like the default format %Y-%m-%d_%H%M prints it:
      four digits, '-', two digits, '-', two digits, '_', four digits. */
  predicate IsDefaultStamp(s: string) {
    |s| == 15 && s[4] == '-' && s[7] == '-' && s[10] == '_'
    && forall i :: 0 <= i < 15 && i != 4 && i != 7 && i != 10 ==> IsDigit(s[i])
  }

  /** With a default-shaped stamp, any base without '/' (the default one, or
      "foo") yields base + "_" + stamp + ".csv". */
  lemma DefaultStampAccepted(base: string, stamp: string)
    requires '/' !in base && IsDefaultStamp(stamp)
    ensures GenerateFilename(base, stamp) == Ok(base + "_" + stamp + ".csv")
    ensures GenerateFilename(DefaultBase, stamp) == Ok("track_times_" + stamp + ".csv")
  {
    assert forall i :: 0 <= i < |stamp| ==> stamp[i] != '/';
    GenerateFilenameRefusesSlash(base, stamp);
    GenerateFilenameRefusesSlash(DefaultBase, stamp);
    assert DefaultBase + "_" + stamp == "track_times_" + stamp;
  }

  /** The timestamp format '%x %X' prints the date as "04/19/16", so the name
      is refused with a ValueError. */
  lemma SlashStampRefused()
    ensures GenerateFilename(DefaultBase, "04/19/16 12:16:47").Err?
    ensures GenerateFilename(DefaultBase, "04/19/16 12:16:47").error.ValueError?
  {
    var stamp := "04/19/16 12:16:47";
    assert stamp[2] == '/';
    GenerateFilenameRefusesSlash(DefaultBase, stamp);
  }
}
