/** The expiry-based instance generator and the refresh cycle that runs it
    for every daily template before expiring overdue tasks. A daily
    template is left alone while any of its instances expires today or
    later, whatever that instance's status. */
module Utils {
  import opened Outcomes
  import opened Calendar
  import opened Tables
  import opened Models
  import opened Generation
  import Text

  /** now.Format("2006-01-02") + " 00:00:00" */
  function TodayStart(now: Instant): string
  {
    DateText(Civil(now.day)) + " 00:00:00"
  }

  /** SELECT MAX(expiry_time) FROM tasks WHERE template_id = ? AND
      expiry_time >= ? yields a non-empty value. */
  predicate HasCurrent(db: Db, tid: int, now: Instant): (b: bool)
    ensures b ==> HasInstance(db, tid)
  {
    exists id :: id in db.tasks && db.tasks[id].template == Some(tid) && Text.LessEq(TodayStart(now), db.tasks[id].expiry)
  }

  /** What the generator decides for template tid. */
  function ExpiryPlan(db: Db, tid: int, expiryArg: string, startArg: string, now: Instant): Plan
    requires ValidInstant(now)
  {
    if tid !in db.templates then Refuse(NotFound)
    else
      var t := db.templates[tid];
      if t.kind == "daily" then
        if HasCurrent(db, tid, now) then Skip else DailyPlan(t, tid, now.day)
      else if t.kind == "limited" then LimitedPlan(db, t, tid, expiryArg, startArg, now)
      else Skip
  }

  function ExpiryStep(db: Db, tid: int, expiryArg: string, startArg: string, now: Instant, insertFails: bool): (r: (Outcome, Db))
    requires ValidInstant(now)
    ensures tid !in db.templates ==> r == (Fail(NotFound), db)
    ensures r.0.Fail? ==> r.1 == db
    ensures r.1 != db ==> r.1.tasks.Keys == db.tasks.Keys + {r.1.lastTask}
  {
    Apply(db, ExpiryPlan(db, tid, expiryArg, startArg, now), now, insertFails)
  }

  /** utils.CreateTaskInstancesFromTemplate */
  method CreateTaskInstancesFromTemplate(store: Store, tid: int, expiryArg: string, startArg: string,
                                         now: Instant, insertFails: bool) returns (o: Outcome)
    requires ValidInstant(now)
    modifies store
    ensures (o, store.Snapshot()) == ExpiryStep(old(store.Snapshot()), tid, expiryArg, startArg, now, insertFails)
  {
    var found := store.GetTemplate(tid);
    if found.Err? {
      return Fail(found.error);
    }
    var t := found.value;
    if t.kind == "daily" {
      var current := HasCurrent(store.Snapshot(), tid, now);
      if current {
        return Pass;
      }
      o := CreateDailyInstance(store, t, tid, now, insertFails);
    } else if t.kind == "limited" {
      o := CreateLimitedInstance(store, t, tid, expiryArg, startArg, now, insertFails);
    } else {
      o := Pass;
    }
  }

  /** The generator only adds a row, under a fresh id, and keeps the store
      well formed. */
  lemma ExpiryStepGrows(db: Db, tid: int, e: string, s: string, now: Instant, f: bool)
    requires Wf(db) && ValidInstant(now)
    ensures var r := ExpiryStep(db, tid, e, s, now, f).1;
      Wf(r) && Grows(db, r) && r.tasks.Keys <= db.tasks.Keys + {r.lastTask}
  {
    ApplyGrows(db, ExpiryPlan(db, tid, e, s, now), now, f);
  }

  /** An instance for a day from today on counts as current. */
  lemma DailyRowCurrent(day: nat, now: Instant)
    requires ValidInstant(now) && now.day <= day && InRange(day)
    ensures Text.LessEq(TodayStart(now), Stamp(DayEnd(day)))
  {
    InRangeBelow(now.day, day);
    DayStartStamp(now.day);
    StampOrder(DayStart(now.day), DayEnd(day));
  }

  /** Once a call succeeds, every later call on the same day for the same
      template, whatever its arguments, inserts nothing and succeeds. */
  lemma ExpiryStepIdempotent(db: Db, tid: int, e: string, s: string, now: Instant, f: bool,
                             e2: string, s2: string, now2: Instant, f2: bool)
    requires Wf(db) && ValidInstant(now) && ValidInstant(now2) && now2.day == now.day && InRange(now.day + 6)
    requires ExpiryStep(db, tid, e, s, now, f).0 == Pass
    ensures var db1 := ExpiryStep(db, tid, e, s, now, f).1;
      ExpiryStep(db1, tid, e2, s2, now2, f2) == (Pass, db1)
  {
    var p := ExpiryPlan(db, tid, e, s, now);
    ApplyGrows(db, p, now, f);
    if p.Create? {
      CreatedThenSkip(db, tid, e, s, now, e2, s2, now2);
    } else {
      SkipThenSkip(db, tid, e, s, now, e2, s2, now2);
    }
  }

  lemma SkipThenSkip(db: Db, tid: int, e: string, s: string, now: Instant, e2: string, s2: string, now2: Instant)
    requires ValidInstant(now) && ValidInstant(now2) && now2.day == now.day
    requires ExpiryPlan(db, tid, e, s, now) == Skip
    ensures ExpiryPlan(db, tid, e2, s2, now2) == Skip
  {
    assert TodayStart(now2) == TodayStart(now);
  }

  lemma CreatedThenSkip(db: Db, tid: int, e: string, s: string, now: Instant, e2: string, s2: string, now2: Instant)
    requires Wf(db) && ValidInstant(now) && ValidInstant(now2) && now2.day == now.day && InRange(now.day + 6)
    requires ExpiryPlan(db, tid, e, s, now).Create?
    ensures ExpiryPlan(CreateTask(db, ExpiryPlan(db, tid, e, s, now).draft, now), tid, e2, s2, now2) == Skip
  {
    var p := ExpiryPlan(db, tid, e, s, now);
    var t := db.templates[tid];
    assert CreateTask(db, p.draft, now).templates == db.templates;
    if t.kind == "daily" {
      var day := DailyDay(t, now.day).value;
      assert p.draft == DailyDraft(t, tid, day);
      InRangeBelow(day, now.day + 6);
      DailyCreateCurrent(db, t, tid, day, now, now2);
    } else {
      assert p.draft.template == Some(tid);
      CreateInstance(db, p.draft, tid, now);
    }
  }

  /** The row a daily plan inserts is current for the rest of the day. */
  lemma DailyCreateCurrent(db: Db, t: Template, tid: int, day: nat, now: Instant, now2: Instant)
    requires ValidInstant(now) && now2.day == now.day && now.day <= day && InRange(day)
    ensures HasCurrent(CreateTask(db, DailyDraft(t, tid, day), now), tid, now2)
  {
    var r := CreateTask(db, DailyDraft(t, tid, day), now);
    DailyRowCurrent(day, now);
    assert TodayStart(now2) == TodayStart(now);
    assert r.tasks[r.lastTask].template == Some(tid) && Text.LessEq(TodayStart(now2), r.tasks[r.lastTask].expiry);
  }

  /** Any inserted row of template tid is an instance of it. */
  lemma CreateInstance(db: Db, d: Draft, tid: int, now: Instant)
    requires d.template == Some(tid)
    ensures HasInstance(CreateTask(db, d, now), tid)
  {
    var r := CreateTask(db, d, now);
    assert r.tasks[r.lastTask].template == Some(tid);
  }

  /** Unlike the active-count variant, this one can leave two instances of
      a template to be done: an overdue instance from an earlier day that
      no sweep has expired yet does not stop a new one. */
  lemma ExpiryStale(db: Db, tid: int, stale: int, now: Instant)
    requires Wf(db) && ValidInstant(now)
    requires tid in db.templates && db.templates[tid].kind == "daily"
    requires DailyDay(db.templates[tid], now.day).Some?
    requires !HasCurrent(db, tid, now)
    requires stale in db.tasks && Active(db.tasks[stale], tid)
    ensures ExpiryStep(db, tid, "", "", now, false).0 == Pass
    ensures !AtMostOneActive(ExpiryStep(db, tid, "", "", now, false).1, tid)
  {
    var p := ExpiryPlan(db, tid, "", "", now);
    ApplyGrows(db, p, now, false);
    var r := ExpiryStep(db, tid, "", "", now, false).1;
    assert Active(r.tasks[r.lastTask], tid) && Active(r.tasks[stale], tid) && r.lastTask != stale;
  }

  // ---------------------------------------------------------------------
  // The refresh cycle

  /** The generator run over the templates in `order`; the templates in
      `fails` meet a failing insert. */
  function RefreshFold(db: Db, order: seq<int>, now: Instant, fails: set<int>): Db
    requires ValidInstant(now)
    decreases |order|
  {
    if |order| == 0 then db
    else
      var last := order[|order| - 1];
      ExpiryStep(RefreshFold(db, order[..|order| - 1], now, fails), last, "", "", now, last in fails).1
  }

  /** utils.RefreshDailyTasks: list the daily templates (returning early if
      that fails), run the generator on each, ignoring its errors, then
      expire the overdue tasks. `order` is the order the listing returned. */
  method RefreshDailyTasks(store: Store, now: Instant, listFails: bool, fails: set<int>, sweepFails: bool)
    returns (ghost order: seq<int>)
    requires ValidInstant(now)
    modifies store
    ensures listFails ==> store.Snapshot() == old(store.Snapshot())
    ensures !listFails ==> Lists(order, DailyTemplateIds(old(store.Snapshot())))
    ensures !listFails ==>
      var db1 := RefreshFold(old(store.Snapshot()), order, now, fails);
      store.Snapshot() == if sweepFails then db1 else Sweep(db1, now)
  {
    if listFails {
      return [];
    }
    var ids := store.ListDailyTemplates();
    order := ids;
    ghost var db0 := store.Snapshot();
    for k := 0 to |ids|
      invariant store.Snapshot() == RefreshFold(db0, ids[..k], now, fails)
    {
      assert ids[..k + 1][..k] == ids[..k];
      var o := CreateTaskInstancesFromTemplate(store, ids[k], "", "", now, ids[k] in fails);
    }
    assert ids[..|ids|] == ids;
    var o := store.ExpireOverdue(now, sweepFails);
  }

  /** The cycle only adds task rows and keeps the store well formed. */
  lemma {:induction false} RefreshFoldGrows(db: Db, order: seq<int>, now: Instant, fails: set<int>)
    requires Wf(db) && ValidInstant(now)
    ensures Wf(RefreshFold(db, order, now, fails)) && Grows(db, RefreshFold(db, order, now, fails))
    decreases |order|
  {
    if |order| > 0 {
      var prefix := order[..|order| - 1];
      var last := order[|order| - 1];
      RefreshFoldGrows(db, prefix, now, fails);
      var mid := RefreshFold(db, prefix, now, fails);
      ApplyGrows(mid, ExpiryPlan(mid, last, "", "", now), now, last in fails);
    }
  }

  /** A daily template is settled when it has a current instance, or when
      its repeat days name no weekday and it never will. */
  predicate Settled(db: Db, tid: int, now: Instant)
  {
    tid in db.templates ==> (HasCurrent(db, tid, now) || DailyDay(db.templates[tid], now.day).None?)
  }

  lemma SettledGrows(db: Db, r: Db, tid: int, now: Instant)
    requires Grows(db, r) && Settled(db, tid, now)
    ensures Settled(r, tid, now)
  {
    if tid in r.templates && HasCurrent(db, tid, now) {
      var id :| id in db.tasks && db.tasks[id].template == Some(tid) && Text.LessEq(TodayStart(now), db.tasks[id].expiry);
      assert r.tasks[id] == db.tasks[id];
    }
  }

  /** A successful run of the generator settles its daily template. */
  lemma StepSettles(db: Db, tid: int, now: Instant)
    requires Wf(db) && ValidInstant(now) && InRange(now.day + 6)
    requires tid in db.templates && db.templates[tid].kind == "daily"
    ensures Settled(ExpiryStep(db, tid, "", "", now, false).1, tid, now)
  {
    var t := db.templates[tid];
    var p := ExpiryPlan(db, tid, "", "", now);
    assert p == if HasCurrent(db, tid, now) then Skip else DailyPlan(t, tid, now.day);
    ApplyGrows(db, p, now, false);
    var r := ExpiryStep(db, tid, "", "", now, false).1;
    if p.Create? {
      var day := DailyDay(t, now.day).value;
      InRangeBelow(day, now.day + 6);
      DailyRowCurrent(day, now);
      assert r.tasks[r.lastTask].template == Some(tid) && Text.LessEq(TodayStart(now), r.tasks[r.lastTask].expiry);
    } else {
      SettledGrows(db, r, tid, now);
    }
  }

  lemma {:induction false} RefreshFoldSettles(db: Db, order: seq<int>, now: Instant, fails: set<int>)
    requires Wf(db) && ValidInstant(now) && InRange(now.day + 6)
    ensures forall i :: 0 <= i < |order| && order[i] in DailyTemplateIds(db) && order[i] !in fails ==>
      Settled(RefreshFold(db, order, now, fails), order[i], now)
    decreases |order|
  {
    if |order| > 0 {
      var prefix := order[..|order| - 1];
      var last := order[|order| - 1];
      RefreshFoldSettles(db, prefix, now, fails);
      RefreshFoldGrows(db, prefix, now, fails);
      var mid := RefreshFold(db, prefix, now, fails);
      var r := RefreshFold(db, order, now, fails);
      ApplyGrows(mid, ExpiryPlan(mid, last, "", "", now), now, last in fails);
      forall i | 0 <= i < |order| && order[i] in DailyTemplateIds(db) && order[i] !in fails
        ensures Settled(r, order[i], now)
      {
        if i == |order| - 1 {
          StepSettles(mid, last, now);
        } else {
          assert order[i] == prefix[i];
          SettledGrows(mid, r, order[i], now);
        }
      }
    }
  }

  /** The sweep keeps expiries and templates, so it keeps templates settled. */
  lemma SweepKeepsSettled(db: Db, tid: int, now: Instant)
    requires ValidInstant(now) && Settled(db, tid, now)
    ensures Settled(Sweep(db, now), tid, now)
  {
    var r := Sweep(db, now);
    if tid in db.templates && HasCurrent(db, tid, now) {
      var id :| id in db.tasks && db.tasks[id].template == Some(tid) && Text.LessEq(TodayStart(now), db.tasks[id].expiry);
      assert r.tasks[id].template == db.tasks[id].template && r.tasks[id].expiry == db.tasks[id].expiry;
    }
  }

  /** After a cycle whose listing succeeded, every daily template whose own
      insert did not fail has an instance for today or later (or lists no
      weekday), however the other templates fared; every existing task is
      unchanged or swept; and nothing but task rows changed. */
  lemma RefreshSettles(db: Db, order: seq<int>, now: Instant, fails: set<int>, sweepFails: bool)
    requires Wf(db) && ValidInstant(now) && InRange(now.day + 6)
    requires Lists(order, DailyTemplateIds(db))
    ensures var db1 := RefreshFold(db, order, now, fails);
      var r := if sweepFails then db1 else Sweep(db1, now);
      Wf(r)
      && r.(tasks := db.tasks, lastTask := db.lastTask) == db
      && (forall tid :: tid in DailyTemplateIds(db) && tid !in fails ==> Settled(r, tid, now))
      && (forall id :: id in db.tasks ==>
            id in r.tasks && r.tasks[id] == if sweepFails then db.tasks[id] else ExpireRow(db.tasks[id], Stamp(now)))
  {
    var db1 := RefreshFold(db, order, now, fails);
    RefreshFoldGrows(db, order, now, fails);
    RefreshFoldSettles(db, order, now, fails);
    SweepExact(db1, now);
    forall tid | tid in DailyTemplateIds(db) && tid !in fails
      ensures Settled(if sweepFails then db1 else Sweep(db1, now), tid, now)
    {
      var i :| 0 <= i < |order| && order[i] == tid;
      if !sweepFails {
        SweepKeepsSettled(db1, tid, now);
      }
    }
  }

  /** The delay StartDailyTaskRefresh sets before the first cycle: from now
      to the next midnight. */
  function UntilMidnight(now: Instant): (seconds: nat)
    requires ValidInstant(now)
    ensures 0 < seconds <= SecondsPerDay
    ensures now.day * SecondsPerDay + now.second + seconds == (now.day + 1) * SecondsPerDay
  {
    SecondsPerDay - now.second
  }
}
