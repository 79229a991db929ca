/** The start-time normaliser both instance generators apply to an explicit
    start time of a limited task: time.Parse tried with three layouts in
    turn, the first success formatted back as "2006-01-02 15:04:05". */
module StartTime {
  import opened Outcomes
  import opened Numerals
  import opened Calendar

  /** Go's getnum: one or two leading digits; with `fixed`, exactly two. */
  function GetNum(s: string, fixed: bool): (r: Option<(nat, string)>)
    ensures r.Some? ==> r.value.0 < 100
  {
    if |s| == 0 || !IsDigit(s[0]) then None
    else if |s| < 2 || !IsDigit(s[1]) then
      if fixed then None else Some((DigitValue(s[0]), s[1..]))
    else Some((10 * DigitValue(s[0]) + DigitValue(s[1]), s[2..]))
  }

  /** The "2006" field: four characters, all of them digits. */
  function GetYear(s: string): (r: Option<(nat, string)>)
    ensures r.Some? ==> r.value.0 < 10000 && |s| >= 4 && r.value.1 == s[4..]
  {
    if |s| < 4 || !AllDigits(s[..4]) then None
    else
      assert Pow10(4) == 10000;
      Some((Num(s[..4]), s[4..]))
  }

  /** s with its leading spaces removed (Go's cutspace). */
  function CutSpace(s: string): (r: string)
    ensures |r| > 0 ==> r[0] != ' '
  {
    if |s| > 0 && s[0] == ' ' then CutSpace(s[1..]) else s
  }

  /** Go's skip for a one-character piece of layout text: a space matches a
      run of spaces in the value (or its end), any other character itself. */
  function Skip(s: string, c: char): (r: Option<string>)
  {
    if c == ' ' then
      if |s| > 0 && s[0] != ' ' then None else Some(CutSpace(s))
    else if |s| == 0 || s[0] != c then None
    else Some(s[1..])
  }

  /** A fractional second ("." or "," and digits) that time.Parse reads after
      the seconds field although the layout does not mention it. */
  function SkipFraction(s: string): string
  {
    if |s| >= 2 && (s[0] == '.' || s[0] == ',') && IsDigit(s[1]) then s[1 + DigitRun(s[1..])..]
    else s
  }

  /** The "2006-01-02" part of a layout: the date fields and the text after
      them. */
  function DatePart(s: string): (r: Option<(Date, string)>)
    ensures r.Some? ==> r.value.0.year < 10000
  {
    var y := GetYear(s);
    if y.None? then None else
    var s1 := Skip(y.value.1, '-');
    if s1.None? then None else
    var mo := GetNum(s1.value, true);
    if mo.None? then None else
    var s2 := Skip(mo.value.1, '-');
    if s2.None? then None else
    var d := GetNum(s2.value, true);
    if d.None? then None else Some((Date(y.value.0, mo.value.0, d.value.0), d.value.1))
  }

  /** The "15:04" part of a layout and, when withSeconds, ":05"; the value
      must end there. */
  function ClockPart(s: string, withSeconds: bool): (r: Option<(nat, nat, nat)>)
    ensures r.Some? && !withSeconds ==> r.value.2 == 0
  {
    var h := GetNum(s, false);
    if h.None? then None else
    var s1 := Skip(h.value.1, ':');
    if s1.None? then None else
    var mi := GetNum(s1.value, true);
    if mi.None? then None else
    var sec := Seconds(mi.value.1, withSeconds);
    if sec.None? || sec.value.1 != "" then None
    else Some((h.value.0, mi.value.0, sec.value.0))
  }

  /** time.Parse(layout, s) for the layout "2006-01-02" + sep + "15:04",
      followed by ":05" when withSeconds: the fields are read in order, the
      whole value must be consumed, and the fields must name a real time. */
  function ParseLayout(s: string, sep: char, withSeconds: bool): (r: Option<DateTime>)
    ensures r.Some? ==> ValidDateTime(r.value) && r.value.date.year < 10000
    ensures r.Some? && !withSeconds ==> r.value.second == 0
  {
    var d := DatePart(s);
    if d.None? then None else
    var rest := Skip(d.value.1, sep);
    if rest.None? then None else
    var c := ClockPart(rest.value, withSeconds);
    if c.None? then None else
    var t := DateTime(d.value.0, c.value.0, c.value.1, c.value.2);
    if ValidDateTime(t) then Some(t) else None
  }

  /** The ":05" part of a layout, or second 0 when the layout has none. */
  function Seconds(s: string, withSeconds: bool): (r: Option<(nat, string)>)
  {
    if !withSeconds then Some((0, s))
    else
      var s5 := Skip(s, ':');
      if s5.None? then None
      else
        var x := GetNum(s5.value, true);
        if x.None? then None else Some((x.value.0, SkipFraction(x.value.1)))
  }

  /** The three layouts tried in turn; the first that parses is formatted
      back in the canonical layout. */
  function Normalize(s: string): (r: Option<string>)
  {
    var a := ParseLayout(s, ' ', true);
    if a.Some? then Some(Format(a.value))
    else
      var b := ParseLayout(s, 'T', true);
      if b.Some? then Some(Format(b.value))
      else
        var c := ParseLayout(s, 'T', false);
        if c.Some? then Some(Format(c.value)) else None
  }

  /** The start time of a new limited instance: the current time when the
      argument is empty, its normal form otherwise, and no value (an error)
      when it is in none of the layouts. */
  function StartFor(arg: string, now: Instant): (r: Option<string>)
    requires ValidInstant(now)
    ensures arg == "" ==> r == Some(Stamp(now))
    ensures arg != "" ==> r == Normalize(arg)
  {
    if arg == "" then Some(Stamp(now)) else Normalize(arg)
  }

  /** "2006-01-02T15:04:05" */
  function FormatT(t: DateTime): string
  {
    DateText(t.date) + "T" + ClockText(t)
  }

  /** "2006-01-02T15:04", the value of an HTML datetime-local field. */
  function FormatShort(t: DateTime): string
  {
    DateText(t.date) + "T" + Digits(t.hour, 2) + ":" + Digits(t.minute, 2)
  }

  lemma GetNumDigits(n: nat, rest: string, fixed: bool)
    requires n < 100
    ensures GetNum(Digits(n, 2) + rest, fixed) == Some((n, rest))
  {
    var d := Digits(n, 2);
    assert Pow10(2) == 100;
    DigitsWidth(n, 2);
    NumDigits(n, 2);
    assert d[..1][..0] == [];
    assert Num(d[..1]) == DigitValue(d[0]);
    assert d[..|d| - 1] == d[..1];
    assert (d + rest)[2..] == rest;
  }

  lemma GetYearDigits(n: nat, rest: string)
    requires n < 10000
    ensures GetYear(Digits(n, 4) + rest) == Some((n, rest))
  {
    assert Pow10(4) == 10000;
    DigitsWidth(n, 4);
    NumDigits(n, 4);
    assert (Digits(n, 4) + rest)[..4] == Digits(n, 4);
    assert (Digits(n, 4) + rest)[4..] == rest;
  }

  lemma SkipChar(c: char, rest: string)
    requires |rest| > 0 && rest[0] != ' '
    ensures Skip([c] + rest, c) == Some(rest)
  {
    if c == ' ' {
      assert CutSpace(rest) == rest;
      assert ([c] + rest)[1..] == rest;
    } else {
      assert ([c] + rest)[1..] == rest;
    }
  }

  lemma DigitsHead(n: nat, w: nat, rest: string)
    ensures |Digits(n, w) + rest| > 0 && IsDigit((Digits(n, w) + rest)[0])
  {
  }

  /** Reading the date fields of DateText gives the date back and leaves
      what followed it. */
  lemma DatePartText(d: Date, rest: string)
    requires d.year < 10000 && d.month < 100 && d.day < 100
    ensures DatePart(DateText(d) + rest) == Some((d, rest))
  {
    var r2 := Digits(d.day, 2) + rest;
    var r1 := Digits(d.month, 2) + (['-'] + r2);
    assert DateText(d) + rest == Digits(d.year, 4) + (['-'] + r1);
    GetYearDigits(d.year, ['-'] + r1);
    DigitsHead(d.month, 2, ['-'] + r2);
    SkipChar('-', r1);
    GetNumDigits(d.month, ['-'] + r2, true);
    DigitsHead(d.day, 2, rest);
    SkipChar('-', r2);
    GetNumDigits(d.day, rest, true);
  }

  /** Reading "15:04:05" gives the hour, minute and second back. */
  lemma ClockPartText(t: DateTime)
    requires t.hour < 100 && t.minute < 100 && t.second < 100
    ensures ClockPart(ClockText(t), true) == Some((t.hour, t.minute, t.second))
  {
    var ds := Digits(t.second, 2);
    var r1 := Digits(t.minute, 2) + ([':'] + ds);
    assert ClockText(t) == Digits(t.hour, 2) + ([':'] + r1);
    GetNumDigits(t.hour, [':'] + r1, false);
    DigitsHead(t.minute, 2, [':'] + ds);
    SkipChar(':', r1);
    GetNumDigits(t.minute, [':'] + ds, true);
    DigitsHead(t.second, 2, "");
    assert ds + "" == ds;
    SkipChar(':', ds);
    GetNumDigits(t.second, "", true);
  }

  /** Reading "15:04" gives the hour and minute with second 0 when the
      layout stops there, and fails when the layout expects seconds. */
  lemma ClockPartShort(h: nat, m: nat)
    requires h < 100 && m < 100
    ensures ClockPart(Digits(h, 2) + ":" + Digits(m, 2), false) == Some((h, m, 0))
    ensures ClockPart(Digits(h, 2) + ":" + Digits(m, 2), true).None?
  {
    var dm := Digits(m, 2);
    var s := Digits(h, 2) + ":" + dm;
    assert s == Digits(h, 2) + ([':'] + dm);
    GetNumDigits(h, [':'] + dm, false);
    DigitsHead(m, 2, "");
    SkipChar(':', dm);
    assert dm + "" == dm;
    GetNumDigits(m, "", true);
    SecondsAtEnd();
  }

  lemma SecondsAtEnd()
    ensures Seconds("", false) == Some((0, ""))
    ensures Seconds("", true).None?
  {
  }

  /** time.Parse with the canonical layout reads back what Format wrote. */
  lemma ParseFormat(t: DateTime)
    requires ValidDateTime(t) && t.date.year < 10000
    ensures ParseLayout(Format(t), ' ', true) == Some(t)
  {
    assert Format(t) == DateText(t.date) + ([' '] + ClockText(t));
    DatePartText(t.date, [' '] + ClockText(t));
    DigitsHead(t.hour, 2, ":" + Digits(t.minute, 2) + ":" + Digits(t.second, 2));
    SkipChar(' ', ClockText(t));
    ClockPartText(t);
  }

  /** The "T" layout with seconds reads back FormatT, which the space
      layout refuses. */
  lemma ParseFormatT(t: DateTime)
    requires ValidDateTime(t) && t.date.year < 10000
    ensures ParseLayout(FormatT(t), 'T', true) == Some(t)
    ensures ParseLayout(FormatT(t), ' ', true).None?
  {
    assert FormatT(t) == DateText(t.date) + (['T'] + ClockText(t));
    DatePartText(t.date, ['T'] + ClockText(t));
    DigitsHead(t.hour, 2, ":" + Digits(t.minute, 2) + ":" + Digits(t.second, 2));
    SkipChar('T', ClockText(t));
    ClockPartText(t);
  }

  /** The short "T" layout reads back FormatShort with second 0, which the
      two layouts with seconds refuse. */
  lemma ParseFormatShort(t: DateTime)
    requires ValidDateTime(t) && t.date.year < 10000
    ensures ParseLayout(FormatShort(t), 'T', false) == Some(t.(second := 0))
    ensures ParseLayout(FormatShort(t), 'T', true).None?
    ensures ParseLayout(FormatShort(t), ' ', true).None?
  {
    var clock := Digits(t.hour, 2) + ":" + Digits(t.minute, 2);
    assert FormatShort(t) == DateText(t.date) + (['T'] + clock);
    DatePartText(t.date, ['T'] + clock);
    DigitsHead(t.hour, 2, ":" + Digits(t.minute, 2));
    SkipChar('T', clock);
    ClockPartShort(t.hour, t.minute);
  }

  /** Canonical text is a fixed point: the first layout accepts it. */
  lemma NormalizeCanonical(t: DateTime)
    requires ValidDateTime(t) && t.date.year < 10000
    ensures Normalize(Format(t)) == Some(Format(t))
  {
    ParseFormat(t);
  }

  /** "2006-01-02T15:04:05" normalises to "2006-01-02 15:04:05". */
  lemma NormalizeT(t: DateTime)
    requires ValidDateTime(t) && t.date.year < 10000
    ensures Normalize(FormatT(t)) == Some(Format(t))
  {
    ParseFormatT(t);
  }

  /** "2006-01-02T15:04" normalises to "2006-01-02 15:04:00". */
  lemma NormalizeShort(t: DateTime)
    requires ValidDateTime(t) && t.date.year < 10000
    ensures Normalize(FormatShort(t)) == Some(Format(t.(second := 0)))
  {
    ParseFormatShort(t);
  }

  /** Normalising twice gives the same text as normalising once. */
  lemma NormalizeIdempotent(s: string)
    requires Normalize(s).Some?
    ensures Normalize(Normalize(s).value) == Normalize(s)
  {
    var a := ParseLayout(s, ' ', true);
    var b := ParseLayout(s, 'T', true);
    var c := ParseLayout(s, 'T', false);
    if a.Some? {
      NormalizeCanonical(a.value);
    } else if b.Some? {
      NormalizeCanonical(b.value);
    } else {
      NormalizeCanonical(c.value);
    }
  }

  /** Every normalised start time is the canonical text of a real time with
      a four-digit year. */
  lemma NormalizeShape(s: string)
    requires Normalize(s).Some?
    ensures exists t :: ValidDateTime(t) && t.date.year < 10000 && Normalize(s) == Some(Format(t))
  {
    var a := ParseLayout(s, ' ', true);
    var b := ParseLayout(s, 'T', true);
    var c := ParseLayout(s, 'T', false);
    if a.Some? {
      assert Normalize(s) == Some(Format(a.value));
    } else if b.Some? {
      assert Normalize(s) == Some(Format(b.value));
    } else {
      assert Normalize(s) == Some(Format(c.value));
    }
  }

  lemma Digits2(n: nat)
    requires n < 100
    ensures Digits(n, 2) == [DigitChar(n / 10), DigitChar(n % 10)]
  {
    assert Digits(n / 10, 1) == [DigitChar(n / 10)];
  }

  lemma Year2025()
    ensures Digits(2025, 4) == "2025"
  {
    assert Digits(2, 1) == "2";
    assert Digits(20, 2) == "20";
    assert Digits(202, 3) == "202";
  }

  /** The three layouts on one example time. */
  lemma NormalizeExamples()
    ensures Normalize("2025-01-02 15:04:05") == Some("2025-01-02 15:04:05")
    ensures Normalize("2025-01-02T15:04:05") == Some("2025-01-02 15:04:05")
    ensures Normalize("2025-01-02T15:04") == Some("2025-01-02 15:04:00")
  {
    var t := DateTime(Date(2025, 1, 2), 15, 4, 5);
    Year2025();
    Digits2(1);
    Digits2(2);
    Digits2(15);
    Digits2(4);
    Digits2(5);
    Digits2(0);
    assert DateText(t.date) == "2025-01-02";
    assert ClockText(t) == "15:04:05";
    assert Format(t) == "2025-01-02 15:04:05";
    assert FormatT(t) == "2025-01-02T15:04:05";
    assert FormatShort(t) == "2025-01-02T15:04";
    assert Format(t.(second := 0)) == "2025-01-02 15:04:00";
    NormalizeCanonical(t);
    NormalizeT(t);
    NormalizeShort(t);
  }

  /** time.Parse also takes a one-digit hour and a run of spaces for the
      space; the normal form pads the hour. */
  lemma NormalizeLoose()
    ensures Normalize("2025-01-02  9:04:05") == Some("2025-01-02 09:04:05")
  {
    LooseParse();
    LooseFormat();
  }

  lemma LooseParse()
    ensures ParseLayout("2025-01-02  9:04:05", ' ', true) == Some(DateTime(Date(2025, 1, 2), 9, 4, 5))
  {
    var d := Date(2025, 1, 2);
    Year2025();
    Digits2(1);
    Digits2(2);
    assert DateText(d) == "2025-01-02";
    assert "2025-01-02  9:04:05" == DateText(d) + "  9:04:05";
    DatePartText(d, "  9:04:05");
    LooseClock();
  }

  lemma LooseFormat()
    ensures Format(DateTime(Date(2025, 1, 2), 9, 4, 5)) == "2025-01-02 09:04:05"
  {
    Year2025();
    Digits2(1);
    Digits2(2);
    Digits2(9);
    Digits2(4);
    Digits2(5);
  }

  lemma LooseClock()
    ensures Skip("  9:04:05", ' ') == Some("9:04:05")
    ensures ClockPart("9:04:05", true) == Some((9, 4, 5))
  {
    assert CutSpace("  9:04:05") == CutSpace(" 9:04:05") == CutSpace("9:04:05") == "9:04:05";
    assert GetNum("9:04:05", false) == Some((9, ":04:05"));
    assert Skip(":04:05", ':') == Some("04:05");
    assert GetNum("04:05", true) == Some((4, ":05"));
    assert Skip(":05", ':') == Some("05");
    assert |"05"| == 2 && IsDigit("05"[0]) && IsDigit("05"[1]) && "05"[2..] == "";
    assert DigitValue('0') == 0 && DigitValue('5') == 5;
    assert GetNum("05", true) == Some((5, ""));
    assert SkipFraction("") == "";
    assert Seconds(":05", true) == Some((5, ""));
  }

  /** Text that does not start with a four-digit year is refused. */
  lemma NormalizeRejects()
    ensures Normalize("not-a-date").None?
    ensures Normalize("").None?
  {
    assert !IsDigit("not-a-date"[0]);
  }
}
