/** What both instance generators share: the row a daily template gets for
    a day, the row a limited template gets, the forward search for the day,
    the single-shot rule of the limited branch, and carrying out the
    decision against the store. */
module Generation {
  import opened Outcomes
  import opened Calendar
  import opened Recurrence
  import opened StartTime
  import opened Tables
  import opened Models
  import Text
  import Numerals

  /** The instance of a daily template for `day`: it starts at 00:00:00
      and expires at 23:59:59 of that day. */
  function DailyDraft(t: Template, tid: int, day: nat): Draft
  {
    Draft(t.title, t.description, t.difficulty, "daily", t.reward,
          Stamp(DayEnd(day)), Some(Stamp(DayStart(day))), Some(tid))
  }

  /** The instance of a limited template: the expiry argument verbatim and
      the normalised start time. */
  function LimitedDraft(t: Template, tid: int, expiry: string, start: string): Draft
  {
    Draft(t.title, t.description, t.difficulty, t.kind, t.reward, expiry, Some(start), Some(tid))
  }

  /** The day a daily template's next instance goes on: the first of today
      and the six days after it whose weekday its repeat days list, if any. */
  function DailyDay(t: Template, today: nat): (r: Option<nat>)
    ensures r.Some? ==> today <= r.value < today + 7 && Listed(RepeatDays(t.repeatDays), Weekday(r.value))
    ensures r.Some? ==> forall d :: today <= d < r.value ==> !Listed(RepeatDays(t.repeatDays), Weekday(d))
    ensures r.None? <==> forall w :: 0 <= w < 7 ==> !Listed(RepeatDays(t.repeatDays), w)
  {
    var days := RepeatDays(t.repeatDays);
    MatchDays(days, today);
    var m := FirstMatch(days, today);
    if m.Some? then Some(today + m.value) else None
  }

  /** FirstMatch's offsets, read as day numbers. */
  lemma MatchDays(days: seq<string>, today: nat)
    ensures var m := FirstMatch(days, today);
      m.Some? ==> m.value < 7 && Listed(days, Weekday(today + m.value))
    ensures var m := FirstMatch(days, today);
      m.Some? ==> forall d :: today <= d < today + m.value ==> !Listed(days, Weekday(d))
    ensures FirstMatch(days, today).None? <==> forall w :: 0 <= w < 7 ==> !Listed(days, w)
  {
    var m := FirstMatch(days, today);
    if m.Some? {
      forall d | today <= d < today + m.value
        ensures !Listed(days, Weekday(d))
      {
        assert !ListedAt(days, today, d - today);
      }
    }
    NoMatchIffNoneListed(days, today);
  }

  /** A task of template tid that is still to be done. */
  predicate Active(t: Task, tid: int)
  {
    t.template == Some(tid) && (t.status == Available || t.status == Claimed)
  }

  predicate HasInstance(db: Db, tid: int)
  {
    exists id :: id in db.tasks && db.tasks[id].template == Some(tid)
  }

  /** At most one task of template tid is still to be done. */
  predicate AtMostOneActive(db: Db, tid: int)
  {
    forall a, b :: a in db.tasks && b in db.tasks && Active(db.tasks[a], tid) && Active(db.tasks[b], tid) ==> a == b
  }

  /** At most one task was ever made from template tid. */
  predicate AtMostOneInstance(db: Db, tid: int)
  {
    forall a, b ::
      (a in db.tasks && b in db.tasks && db.tasks[a].template == Some(tid) && db.tasks[b].template == Some(tid)) ==> a == b
  }

  /** What one generator call decides: an error, nothing to insert, or one
      row. */
  datatype Plan = Refuse(error: Error) | Skip | Create(draft: Draft)

  /** Carrying out a plan; the insert itself may fail. */
  function Apply(db: Db, p: Plan, now: Instant, insertFails: bool): (Outcome, Db)
  {
    match p
    case Refuse(e) => (Fail(e), db)
    case Skip => (Pass, db)
    case Create(d) => if insertFails then (Fail(StoreFailure), db) else (Pass, CreateTask(db, d, now))
  }

  /** The limited branch: nothing if the template has any instance at all;
      otherwise the start time (now when empty) must be in one of the three
      layouts. */
  function LimitedPlan(db: Db, t: Template, tid: int, expiryArg: string, startArg: string, now: Instant): Plan
    requires ValidInstant(now)
  {
    if HasInstance(db, tid) then Skip
    else
      match StartFor(startArg, now)
      case None => Refuse(BadStartTime)
      case Some(s) => Create(LimitedDraft(t, tid, expiryArg, s))
  }

  /** The daily branch once duplicates are ruled out: one instance on the
      first listed day of the coming week, or nothing. */
  function DailyPlan(t: Template, tid: int, today: nat): Plan
  {
    match DailyDay(t, today)
    case None => Skip
    case Some(day) => Create(DailyDraft(t, tid, day))
  }

  /** The week search with its found flag, then the insert. */
  method CreateDailyInstance(store: Store, t: Template, tid: int, now: Instant, insertFails: bool) returns (o: Outcome)
    modifies store
    ensures (o, store.Snapshot()) == Apply(old(store.Snapshot()), DailyPlan(t, tid, now.day), now, insertFails)
  {
    var found, target := SearchWeek(RepeatDays(t.repeatDays), now.day);
    SearchPlan(t, tid, now.day, found, target);
    if found {
      o := store.CreateTask(DailyDraft(t, tid, target), now, insertFails);
    } else {
      o := Pass;
    }
  }

  /** The week search's result read as the daily plan. */
  lemma SearchPlan(t: Template, tid: int, today: nat, found: bool, target: nat)
    requires found <==> FirstMatch(RepeatDays(t.repeatDays), today).Some?
    requires found ==> target == today + FirstMatch(RepeatDays(t.repeatDays), today).value
    ensures DailyPlan(t, tid, today) == if found then Create(DailyDraft(t, tid, target)) else Skip
  {
    var m := FirstMatch(RepeatDays(t.repeatDays), today);
    assert DailyDay(t, today) == if m.Some? then Some(today + m.value) else None;
    assert DailyDay(t, today) == if found then Some(target) else None;
  }

  /** The count query, the start-time cascade, then the insert. */
  method CreateLimitedInstance(store: Store, t: Template, tid: int, expiryArg: string, startArg: string,
                               now: Instant, insertFails: bool) returns (o: Outcome)
    requires ValidInstant(now)
    modifies store
    ensures (o, store.Snapshot())
         == Apply(old(store.Snapshot()), LimitedPlan(old(store.Snapshot()), t, tid, expiryArg, startArg, now), now, insertFails)
  {
    var any := HasInstance(store.Snapshot(), tid);
    if any {
      return Pass;
    }
    var start := StartFor(startArg, now);
    if start.None? {
      return Fail(BadStartTime);
    }
    o := store.CreateTask(LimitedDraft(t, tid, expiryArg, start.value), now, insertFails);
  }

  /** r keeps every table of db and every task row of db; it may add rows. */
  predicate Grows(db: Db, r: Db)
  {
    r.(tasks := db.tasks, lastTask := db.lastTask) == db
    && forall id :: id in db.tasks ==> id in r.tasks && r.tasks[id] == db.tasks[id]
  }

  /** A planned row names an existing template. */
  predicate Fits(db: Db, p: Plan)
  {
    p.Create? ==> p.draft.template.Some? && p.draft.template.value in db.templates
  }

  /** Carrying out a plan only ever adds the planned row, under a fresh id,
      and keeps the store well formed; it changes the store exactly when the
      plan is to create and the insert succeeds. */
  lemma ApplyGrows(db: Db, p: Plan, now: Instant, insertFails: bool)
    requires Wf(db) && Fits(db, p)
    ensures var (o, r) := Apply(db, p, now, insertFails);
      Wf(r) && Grows(db, r)
      && (r != db <==> p.Create? && !insertFails)
      && (o == Pass <==> !p.Refuse? && !(p.Create? && insertFails))
      && (r != db ==> r.tasks.Keys == db.tasks.Keys + {r.lastTask} && r.lastTask !in db.tasks
                      && r.tasks[r.lastTask] == NewRow(p.draft, now, now))
  {
    if p.Create? && !insertFails {
      InsertFresh(db, p.draft, now, now);
      var r := CreateTask(db, p.draft, now);
      assert r.lastTask !in db.tasks && r.lastTask in r.tasks;
    }
  }

  /** The limited branch creates at most one instance per template, refuses
      an unreadable explicit start time without inserting, and otherwise
      stores the start in canonical form. */
  lemma LimitedRules(db: Db, t: Template, tid: int, expiryArg: string, startArg: string, now: Instant)
    requires ValidInstant(now)
    ensures HasInstance(db, tid) ==> LimitedPlan(db, t, tid, expiryArg, startArg, now) == Skip
    ensures (!HasInstance(db, tid) && startArg != "" && Normalize(startArg).None?) ==>
      LimitedPlan(db, t, tid, expiryArg, startArg, now) == Refuse(BadStartTime)
    ensures (!HasInstance(db, tid) && startArg == "") ==>
      LimitedPlan(db, t, tid, expiryArg, startArg, now) == Create(LimitedDraft(t, tid, expiryArg, Stamp(now)))
    ensures (LimitedPlan(db, t, tid, expiryArg, startArg, now).Create? && startArg != "") ==>
      exists u :: ValidDateTime(u) && LimitedPlan(db, t, tid, expiryArg, startArg, now).draft.start == Some(Format(u))
  {
    if !HasInstance(db, tid) && startArg != "" && Normalize(startArg).Some? {
      NormalizeShape(startArg);
    }
  }

  /** A daily instance spans exactly its day: both stamps carry that date,
      the start is midnight and the expiry the last second. */
  lemma DailySpan(t: Template, tid: int, day: nat)
    requires InRange(day)
    ensures var d := DailyDraft(t, tid, day);
      d.start == Some(DateText(Civil(day)) + " 00:00:00")
      && d.expiry == DateText(Civil(day)) + " 23:59:59"
      && Text.Less(d.start.value, d.expiry)
  {
    DayStartStamp(day);
    EndClock(day);
    StampOrder(DayStart(day), DayEnd(day));
  }

  /** The last second of a day reads 23:59:59. */
  lemma EndClock(day: nat)
    ensures Stamp(DayEnd(day)) == DateText(Civil(day)) + " 23:59:59"
  {
    var c := ClockOf(DayEnd(day));
    LastSecondClock(day);
    LastSecondText(c);
    assert Stamp(DayEnd(day)) == DateText(Civil(day)) + " " + ClockText(c);
  }

  lemma LastSecondClock(day: nat)
    ensures var c := ClockOf(DayEnd(day)); c.hour == 23 && c.minute == 59 && c.second == 59
  {
    assert SecondsPerDay - 1 == 86399;
    assert 86399 / 3600 == 23 && 86399 % 3600 == 3599;
    assert 3599 / 60 == 59 && 3599 % 60 == 59;
  }

  lemma LastSecondText(c: DateTime)
    requires c.hour == 23 && c.minute == 59 && c.second == 59
    ensures ClockText(c) == "23:59:59"
  {
    assert Numerals.Digits(2, 1) == "2" && Numerals.Digits(5, 1) == "5";
    assert Numerals.Digits(23, 2) == "23" && Numerals.Digits(59, 2) == "59";
  }

  /** A daily instance is listed as available exactly during its day (up
      to, not including, its last second) and as upcoming before it. */
  lemma DailyVisibility(t: Template, tid: int, day: nat, now: Instant, createdAt: Instant)
    requires ValidInstant(now) && InRange(day) && InRange(now.day)
    ensures var row := NewRow(DailyDraft(t, tid, day), createdAt, createdAt);
      (OpenAt(row, Stamp(now)) <==> now.day == day && now.second < SecondsPerDay - 1)
      && (UpcomingAt(row, Stamp(now)) <==> now.day < day)
  {
    var s, e := DayStart(day), DayEnd(day);
    StampOrder(s, now);
    StampOrder(now, s);
    StampOrder(now, e);
    if Stamp(s) == Stamp(now) {
      StampInjective(s, now);
    }
  }
}
