/** The weekly recurrence of daily templates: repeat_days is a
    comma-separated list of weekday numbers (Sunday is 0), and a daily
    instance goes on the first of the next seven days, today included,
    whose weekday is listed. */
module Recurrence {
  import opened Outcomes
  import opened Numerals
  import opened Calendar
  import Text

  /** strconv.Itoa of a weekday number. */
  function WeekdayText(w: nat): (s: string)
    requires w < 7
    ensures s == Digits(w, 1) && |s| == 1 && IsDigit(s[0])
  {
    [DigitChar(w)]
  }

  lemma WeekdayTextInjective(v: nat, w: nat)
    requires v < 7 && w < 7 && WeekdayText(v) == WeekdayText(w)
    ensures v == w
  {
    assert DigitValue(WeekdayText(v)[0]) == v;
  }

  /** The pieces of a repeat_days value, as the generators split it. */
  function RepeatDays(repeat: string): (days: seq<string>)
    ensures |days| >= 1
  {
    Text.Split(repeat, ',')
  }

  /** Weekday w is one of the pieces. */
  predicate Listed(days: seq<string>, w: nat)
    requires w < 7
  {
    WeekdayText(w) in days
  }

  /** The range loop over the pieces of repeat_days that stops at the first
      piece equal to `text`. */
  method Contains(days: seq<string>, text: string) returns (found: bool)
    ensures found <==> text in days
  {
    found := false;
    for k := 0 to |days|
      invariant !found
      invariant forall m :: 0 <= m < k ==> days[m] != text
    {
      if days[k] == text {
        found := true;
        break;
      }
    }
  }

  /** Weekday of day today + offset is listed. */
  predicate ListedAt(days: seq<string>, today: nat, offset: nat)
  {
    Listed(days, Weekday(today + offset))
  }

  /** The first offset i with from <= i < 7 at which the weekday of day
      today + i is listed. */
  function FirstMatchFrom(days: seq<string>, today: nat, from: nat): (r: Option<nat>)
    requires from <= 7
    ensures r.Some? ==> from <= r.value < 7 && ListedAt(days, today, r.value)
    ensures r.Some? ==> forall j :: from <= j < r.value ==> !ListedAt(days, today, j)
    ensures r.None? <==> forall j :: from <= j < 7 ==> !ListedAt(days, today, j)
    decreases 7 - from
  {
    if from == 7 then None
    else if ListedAt(days, today, from) then Some(from)
    else FirstMatchFrom(days, today, from + 1)
  }

  /** The offset from today of the day a daily instance goes on, if any of
      the next seven days is listed. */
  function FirstMatch(days: seq<string>, today: nat): (r: Option<nat>)
  {
    FirstMatchFrom(days, today, 0)
  }

  /** Listed at offset i, and at no earlier offset: i is the first match. */
  lemma FirstMatchIs(days: seq<string>, today: nat, i: nat)
    requires i < 7 && ListedAt(days, today, i)
    requires forall j :: 0 <= j < i ==> !ListedAt(days, today, j)
    ensures FirstMatch(days, today) == Some(i)
  {
  }

  /** The generators' search: the days today, today + 1, ..., today + 6 in
      turn, each compared with the pieces in order; the first match wins. */
  method SearchWeek(days: seq<string>, today: nat) returns (found: bool, target: nat)
    ensures found <==> FirstMatch(days, today).Some?
    ensures found ==> target == today + FirstMatch(days, today).value
  {
    found := false;
    target := 0;
    var i := 0;
    while i < 7
      invariant 0 <= i <= 7
      invariant !found
      invariant forall j :: 0 <= j < i ==> !ListedAt(days, today, j)
    {
      var check := today + i;
      var hit := Contains(days, WeekdayText(Weekday(check)));
      if hit {
        target := check;
        found := true;
        FirstMatchIs(days, today, i);
        break;
      }
      i := i + 1;
    }
  }

  /** Seven consecutive days cover every weekday, so the search fails
      exactly when no weekday at all is listed. */
  lemma NoMatchIffNoneListed(days: seq<string>, today: nat)
    ensures FirstMatch(days, today).None? <==> forall w :: 0 <= w < 7 ==> !Listed(days, w)
  {
    if FirstMatch(days, today).None? {
      forall w | 0 <= w < 7
        ensures !Listed(days, w)
      {
        var o := (w + 7 - Weekday(today)) % 7;
        WeekdayOffset(today, w);
        assert !ListedAt(days, today, o);
      }
    }
  }

  /** An empty repeat_days, or one naming no weekday number, never yields a
      day. */
  lemma NoWeekdayNoMatch(repeat: string, today: nat)
    requires forall i :: 0 <= i < |RepeatDays(repeat)| ==> |RepeatDays(repeat)[i]| != 1 || !IsDigit(RepeatDays(repeat)[i][0]) || DigitValue(RepeatDays(repeat)[i][0]) >= 7
    ensures FirstMatch(RepeatDays(repeat), today).None?
  {
    var days := RepeatDays(repeat);
    forall w | 0 <= w < 7
      ensures !Listed(days, w)
    {
    }
    NoMatchIffNoneListed(days, today);
  }

  lemma EmptyRepeatDays(today: nat)
    ensures FirstMatch(RepeatDays(""), today).None?
  {
    NoWeekdayNoMatch("", today);
  }

  /** The form's checked weekdays, joined with "," when the template is
      created, are exactly the weekdays the generators find listed. */
  lemma JoinedDaysListed(values: seq<string>, w: nat)
    requires w < 7
    requires forall i :: 0 <= i < |values| ==> ',' !in values[i]
    ensures Listed(RepeatDays(Text.Join(values, ',')), w) <==> WeekdayText(w) in values
  {
    if |values| == 0 {
      assert RepeatDays("") == [""];
    } else {
      Text.SplitJoin(values, ',');
    }
  }

  /** On a Sunday, "1,3,5" sends the instance to Monday, the next day. */
  lemma SundayExample(today: nat)
    requires Weekday(today) == 0
    ensures FirstMatch(RepeatDays("1,3,5"), today) == Some(1)
  {
    var values := ["1", "3", "5"];
    assert Text.Join(values[2..], ',') == "5";
    assert Text.Join(values[1..], ',') == "3,5";
    assert Text.Join(values, ',') == "1,3,5";
    Text.SplitJoin(values, ',');
    var days := RepeatDays("1,3,5");
    assert days == values;
    assert Weekday(today + 1) == 1;
    assert WeekdayText(0) == "0" && WeekdayText(1) == "1";
    assert !ListedAt(days, today, 0);
    FirstMatchIs(days, today, 1);
  }

  /** The weekday of the next day, as the legacy refresh computes it. */
  lemma TomorrowWeekday(today: nat)
    ensures Weekday(today + 1) == (Weekday(today) + 1) % 7
  {
  }
}
