/** Calendar dates, day numbers and the "2006-01-02 15:04:05" timestamps the
    application writes into its TEXT columns and compares as text. Time zones
    are not modelled: every instant is a local wall-clock time. */
module Calendar {
  import opened Numerals
  import Text

  datatype Date = Date(year: nat, month: nat, day: nat)

  /** Go's leap-year rule (proleptic Gregorian calendar). */
  predicate IsLeap(year: nat)
  {
    year % 4 == 0 && (year % 100 != 0 || year % 400 == 0)
  }

  /** The number of days of a month (Go's daysIn). */
  function DaysIn(month: nat, year: nat): (n: nat)
    requires 1 <= month <= 12
    ensures 28 <= n <= 31
    ensures n == 29 <==> month == 2 && IsLeap(year)
  {
    if month == 2 then (if IsLeap(year) then 29 else 28)
    else if month == 4 || month == 6 || month == 9 || month == 11 then 30
    else 31
  }

  predicate ValidDate(d: Date)
  {
    1 <= d.month <= 12 && 1 <= d.day <= DaysIn(d.month, d.year)
  }

  /** Chronological order of dates. */
  predicate DateBefore(a: Date, b: Date)
  {
    a.year < b.year
    || (a.year == b.year && (a.month < b.month || (a.month == b.month && a.day < b.day)))
  }

  /** The day after d. */
  function Next(d: Date): (e: Date)
    requires ValidDate(d)
    ensures ValidDate(e) && DateBefore(d, e)
  {
    if d.day < DaysIn(d.month, d.year) then d.(day := d.day + 1)
    else if d.month < 12 then Date(d.year, d.month + 1, 1)
    else Date(d.year + 1, 1, 1)
  }

  /** No valid date lies strictly between a date and the next one. */
  lemma NextImmediate(d: Date, x: Date)
    requires ValidDate(d) && ValidDate(x) && DateBefore(d, x)
    ensures !DateBefore(x, Next(d))
  {
  }

  const Epoch: Date := Date(1970, 1, 1)

  /** The calendar date of day number n, day 0 being 1970-01-01. */
  function Civil(n: nat): (d: Date)
    ensures ValidDate(d) && d.year >= 1970
  {
    if n == 0 then Epoch else Next(Civil(n - 1))
  }

  lemma {:induction false} CivilMonotone(m: nat, n: nat)
    requires m < n
    ensures DateBefore(Civil(m), Civil(n))
    decreases n
  {
    if m < n - 1 {
      CivilMonotone(m, n - 1);
    }
  }

  /** Day numbers and calendar dates are in order-preserving one-to-one
      correspondence. */
  lemma CivilOrder(m: nat, n: nat)
    ensures DateBefore(Civil(m), Civil(n)) <==> m < n
    ensures Civil(m) == Civil(n) <==> m == n
  {
    if m < n {
      CivilMonotone(m, n);
    } else if n < m {
      CivilMonotone(n, m);
    }
  }

  /** time.Weekday of day number n: Sunday is 0, and 1970-01-01 was a
      Thursday. */
  function Weekday(n: nat): (w: nat)
    ensures w < 7
  {
    (n + 4) % 7
  }

  /** Seven consecutive days show every weekday exactly once: weekday w
      falls at offset (w - Weekday(n)) mod 7 from day n. */
  lemma WeekdayOffset(n: nat, w: nat)
    requires w < 7
    ensures Weekday(n + (w + 7 - Weekday(n)) % 7) == w
  {
    var o := (w + 7 - Weekday(n)) % 7;
    var k := (n + 4) / 7;
    assert n + 4 == 7 * k + Weekday(n);
    if Weekday(n) <= w {
      assert o == w - Weekday(n);
      assert n + o + 4 == 7 * k + w;
    } else {
      assert o == w + 7 - Weekday(n);
      assert n + o + 4 == 7 * (k + 1) + w;
    }
  }

  const SecondsPerDay: nat := 86400

  /** A local wall-clock instant: a day number and the second of that day. */
  datatype Instant = Instant(day: nat, second: nat)

  predicate ValidInstant(t: Instant)
  {
    t.second < SecondsPerDay
  }

  /** Chronological order of instants. */
  predicate Earlier(a: Instant, b: Instant)
  {
    a.day < b.day || (a.day == b.day && a.second < b.second)
  }

  /** The first and the last second of a day. */
  function DayStart(day: nat): (t: Instant)
    ensures ValidInstant(t) && t.day == day
  {
    Instant(day, 0)
  }

  function DayEnd(day: nat): (t: Instant)
    ensures ValidInstant(t) && t.day == day && Earlier(DayStart(day), t)
  {
    Instant(day, SecondsPerDay - 1)
  }

  /** A broken-down time, as time.Date takes it and time.Parse produces it. */
  datatype DateTime = DateTime(date: Date, hour: nat, minute: nat, second: nat)

  predicate ValidDateTime(t: DateTime)
  {
    ValidDate(t.date) && t.hour < 24 && t.minute < 60 && t.second < 60
  }

  /** Lexicographic order of broken-down times. */
  predicate DateTimeBefore(a: DateTime, b: DateTime)
  {
    DateBefore(a.date, b.date)
    || (a.date == b.date
        && (a.hour < b.hour
            || (a.hour == b.hour
                && (a.minute < b.minute || (a.minute == b.minute && a.second < b.second)))))
  }

  /** The broken-down form of an instant (Go's absClock). */
  function ClockOf(t: Instant): (c: DateTime)
    requires ValidInstant(t)
    ensures ValidDateTime(c) && c.date == Civil(t.day)
    ensures t.second == 3600 * c.hour + 60 * c.minute + c.second
  {
    DateTime(Civil(t.day), t.second / 3600, t.second % 3600 / 60, t.second % 3600 % 60)
  }

  /** "2006-01-02" */
  function DateText(d: Date): string
  {
    Digits(d.year, 4) + "-" + Digits(d.month, 2) + "-" + Digits(d.day, 2)
  }

  /** "15:04:05" */
  function ClockText(t: DateTime): string
  {
    Digits(t.hour, 2) + ":" + Digits(t.minute, 2) + ":" + Digits(t.second, 2)
  }

  /** t.Format("2006-01-02 15:04:05") */
  function Format(t: DateTime): string
  {
    DateText(t.date) + " " + ClockText(t)
  }

  /** The text the application stores for an instant. */
  function Stamp(t: Instant): string
    requires ValidInstant(t)
  {
    Format(ClockOf(t))
  }

  /** Four-digit years: the range in which stamps have their fixed width. */
  predicate InRange(day: nat)
  {
    Civil(day).year < 10000
  }

  lemma InRangeBelow(m: nat, n: nat)
    requires m <= n && InRange(n)
    ensures InRange(m)
  {
    if m < n {
      CivilMonotone(m, n);
    }
  }

  lemma Pow10Values()
    ensures Pow10(2) == 100 && Pow10(4) == 10000
  {
  }

  /** Comparing two texts that start with equal-width numerals: the numbers
      decide unless they are equal, and then the rests do. */
  lemma FieldLess(n: nat, m: nat, w: nat, r: string, s: string)
    requires 1 <= w && n < Pow10(w) && m < Pow10(w)
    ensures Text.Less(Digits(n, w) + r, Digits(m, w) + s) <==> n < m || (n == m && Text.Less(r, s))
  {
    DigitsWidth(n, w);
    DigitsWidth(m, w);
    Text.LessAppend(Digits(n, w), Digits(m, w), r, s);
    DigitsOrder(n, m, w);
    if Digits(n, w) == Digits(m, w) {
      DigitsInjective(n, m, w);
    }
  }

  /** A common separator character does not affect the comparison. */
  lemma SepLess(c: char, r: string, s: string)
    ensures Text.Less([c] + r, [c] + s) <==> Text.Less(r, s)
  {
    Text.LessAppend([c], [c], r, s);
    Text.LessIrreflexive([c]);
  }

  /** A numeral, a separator and a rest compare field first. */
  lemma FieldThen(n: nat, m: nat, w: nat, c: char, r: string, s: string)
    requires 1 <= w && n < Pow10(w) && m < Pow10(w)
    ensures Text.Less(Digits(n, w) + ([c] + r), Digits(m, w) + ([c] + s)) <==> n < m || (n == m && Text.Less(r, s))
  {
    FieldLess(n, m, w, [c] + r, [c] + s);
    SepLess(c, r, s);
  }

  lemma ClockTextShape(t: DateTime)
    ensures ClockText(t) == Digits(t.hour, 2) + ([':'] + (Digits(t.minute, 2) + ([':'] + Digits(t.second, 2))))
  {
  }

  /** The clock parts of two formatted times compare as the clocks do. */
  lemma ClockTextOrder(a: DateTime, b: DateTime)
    requires ValidDateTime(a) && ValidDateTime(b)
    ensures Text.Less(ClockText(a), ClockText(b)) <==>
      (a.hour < b.hour
       || (a.hour == b.hour && (a.minute < b.minute || (a.minute == b.minute && a.second < b.second))))
  {
    Pow10Values();
    ClockTextShape(a);
    ClockTextShape(b);
    var a5, b5 := Digits(a.second, 2), Digits(b.second, 2);
    DigitsOrder(a.second, b.second, 2);
    FieldThen(a.minute, b.minute, 2, ':', a5, b5);
    FieldThen(a.hour, b.hour, 2, ':', Digits(a.minute, 2) + ([':'] + a5), Digits(b.minute, 2) + ([':'] + b5));
  }

  lemma FormatShape(t: DateTime)
    ensures Format(t) == Digits(t.date.year, 4) + (['-'] + (Digits(t.date.month, 2) + (['-'] +
                         (Digits(t.date.day, 2) + ([' '] + ClockText(t))))))
  {
  }

  /** Formatted times compare as text exactly as they compare in time, as
      long as the year has four digits. */
  lemma FormatOrder(a: DateTime, b: DateTime)
    requires ValidDateTime(a) && ValidDateTime(b)
    requires a.date.year < 10000 && b.date.year < 10000
    ensures Text.Less(Format(a), Format(b)) <==> DateTimeBefore(a, b)
  {
    Pow10Values();
    FormatShape(a);
    FormatShape(b);
    var a2, b2 := Digits(a.date.day, 2) + ([' '] + ClockText(a)), Digits(b.date.day, 2) + ([' '] + ClockText(b));
    ClockTextOrder(a, b);
    FieldThen(a.date.day, b.date.day, 2, ' ', ClockText(a), ClockText(b));
    FieldThen(a.date.month, b.date.month, 2, '-', a2, b2);
    FieldThen(a.date.year, b.date.year, 4, '-', Digits(a.date.month, 2) + (['-'] + a2), Digits(b.date.month, 2) + (['-'] + b2));
  }

  /** The hour, minute and second of a day compare as the seconds do. */
  lemma ClockOrder(x: nat, y: nat)
    requires x < SecondsPerDay && y < SecondsPerDay
    ensures x < y <==>
      (x / 3600 < y / 3600
       || (x / 3600 == y / 3600
           && (x % 3600 / 60 < y % 3600 / 60
               || (x % 3600 / 60 == y % 3600 / 60 && x % 3600 % 60 < y % 3600 % 60))))
  {
  }

  /** Stamps compare as text (SQLite's comparison of TEXT values) exactly
      as the instants they denote compare in time. */
  lemma StampOrder(a: Instant, b: Instant)
    requires ValidInstant(a) && ValidInstant(b) && InRange(a.day) && InRange(b.day)
    ensures Text.Less(Stamp(a), Stamp(b)) <==> Earlier(a, b)
  {
    FormatOrder(ClockOf(a), ClockOf(b));
    CivilOrder(a.day, b.day);
    ClockOrder(a.second, b.second);
  }

  /** Distinct instants have distinct stamps. */
  lemma StampInjective(a: Instant, b: Instant)
    requires ValidInstant(a) && ValidInstant(b) && InRange(a.day) && InRange(b.day)
    requires Stamp(a) == Stamp(b)
    ensures a == b
  {
    StampOrder(a, b);
    StampOrder(b, a);
    Text.LessIrreflexive(Stamp(a));
  }

  /** Stamps are 19 characters long. */
  lemma StampLength(t: Instant)
    requires ValidInstant(t) && InRange(t.day)
    ensures |Stamp(t)| == 19
  {
    Pow10Values();
    var c := ClockOf(t);
    DigitsWidth(c.date.year, 4);
    DigitsWidth(c.date.month, 2);
    DigitsWidth(c.date.day, 2);
    DigitsWidth(c.hour, 2);
    DigitsWidth(c.minute, 2);
    DigitsWidth(c.second, 2);
  }

  /** The stamp of midnight is the date followed by " 00:00:00", the text
      the expiry-based generator compares against. */
  lemma DayStartStamp(day: nat)
    ensures Stamp(DayStart(day)) == DateText(Civil(day)) + " 00:00:00"
  {
    var c := ClockOf(DayStart(day));
    assert c.hour == 0 && c.minute == 0 && c.second == 0;
    MidnightText(c);
    assert Stamp(DayStart(day)) == DateText(Civil(day)) + " " + ClockText(c);
  }

  lemma MidnightText(c: DateTime)
    requires c.hour == 0 && c.minute == 0 && c.second == 0
    ensures ClockText(c) == "00:00:00"
  {
    assert Digits(0, 2) == "00";
  }
}
