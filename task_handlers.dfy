/** The task handlers of the handlers package: the active-count instance
    generator, the claim, completion and verification handlers, and the
    template creation handler with its form validation. Each handler is a
    method on the store, proved against a function (ghost where it needs
    the first player) that states its decision and the new store. */
module TaskHandlers {
  import opened Outcomes
  import opened Numerals
  import opened Calendar
  import opened StartTime
  import opened Tables
  import opened Models
  import opened Generation
  import Text
  import Utils

  // ---------------------------------------------------------------------
  // The active-count generator

  /** SELECT COUNT(*) FROM tasks WHERE template_id = ? AND status IN
      ('available', 'claimed') is not zero. */
  predicate HasActive(db: Db, tid: int)
  {
    exists id :: id in db.tasks && Active(db.tasks[id], tid)
  }

  function ActivePlan(db: Db, tid: int, expiryArg: string, startArg: string, now: Instant): Plan
    requires ValidInstant(now)
  {
    if tid !in db.templates then Refuse(NotFound)
    else
      var t := db.templates[tid];
      if t.kind == "daily" then
        if HasActive(db, tid) then Skip else DailyPlan(t, tid, now.day)
      else if t.kind == "limited" then LimitedPlan(db, t, tid, expiryArg, startArg, now)
      else Skip
  }

  function ActiveStep(db: Db, tid: int, expiryArg: string, startArg: string, now: Instant, insertFails: bool): (Outcome, Db)
    requires ValidInstant(now)
  {
    Apply(db, ActivePlan(db, tid, expiryArg, startArg, now), now, insertFails)
  }

  /** handlers.CreateTaskInstancesFromTemplate */
  method CreateTaskInstancesFromTemplate(store: Store, tid: int, expiryArg: string, startArg: string,
                                         now: Instant, insertFails: bool) returns (o: Outcome)
    requires ValidInstant(now)
    modifies store
    ensures (o, store.Snapshot()) == ActiveStep(old(store.Snapshot()), tid, expiryArg, startArg, now, insertFails)
  {
    var found := store.GetTemplate(tid);
    if found.Err? {
      return Fail(found.error);
    }
    var t := found.value;
    if t.kind == "daily" {
      var active := HasActive(store.Snapshot(), tid);
      if active {
        return Pass;
      }
      o := CreateDailyInstance(store, t, tid, now, insertFails);
    } else if t.kind == "limited" {
      o := CreateLimitedInstance(store, t, tid, expiryArg, startArg, now, insertFails);
    } else {
      o := Pass;
    }
  }

  /** Once a call succeeds, every later call for the same template, at any
      time and with any arguments, inserts nothing and succeeds. */
  lemma ActiveStepIdempotent(db: Db, tid: int, e: string, s: string, now: Instant, f: bool,
                             e2: string, s2: string, now2: Instant, f2: bool)
    requires Wf(db) && ValidInstant(now) && ValidInstant(now2)
    requires ActiveStep(db, tid, e, s, now, f).0 == Pass
    ensures var db1 := ActiveStep(db, tid, e, s, now, f).1;
      ActiveStep(db1, tid, e2, s2, now2, f2) == (Pass, db1)
  {
    var p := ActivePlan(db, tid, e, s, now);
    ApplyGrows(db, p, now, f);
    var db1 := ActiveStep(db, tid, e, s, now, f).1;
    if p.Create? {
      var n := db1.lastTask;
      assert db1.templates == db.templates && db1.tasks[n].template == Some(tid);
      if db.templates[tid].kind == "daily" {
        assert Active(db1.tasks[n], tid);
      } else {
        assert HasInstance(db1, tid);
      }
    }
  }

  /** The generator never makes a second instance of a template to be done:
      at most one available or claimed instance per template is kept. */
  lemma ActiveStepKeepsOne(db: Db, tid: int, e: string, s: string, now: Instant, f: bool, other: int)
    requires Wf(db) && ValidInstant(now) && AtMostOneActive(db, other)
    ensures AtMostOneActive(ActiveStep(db, tid, e, s, now, f).1, other)
  {
    var p := ActivePlan(db, tid, e, s, now);
    ApplyGrows(db, p, now, f);
    var r := ActiveStep(db, tid, e, s, now, f).1;
    if r != db {
      var n := r.lastTask;
      if tid == other {
        assert !HasActive(db, tid);
        assert forall a :: a in db.tasks ==> !Active(db.tasks[a], other);
      }
      assert forall a :: a in r.tasks && a != n ==> a in db.tasks && r.tasks[a] == db.tasks[a];
    }
  }

  /** The limited branch of either generator: nothing is inserted for a
      template that has any instance, so a limited template never gets a
      second one. */
  lemma LimitedSingleShot(db: Db, tid: int, e: string, s: string, now: Instant, f: bool)
    requires Wf(db) && ValidInstant(now) && tid in db.templates && db.templates[tid].kind == "limited"
    requires AtMostOneInstance(db, tid)
    ensures HasInstance(db, tid) ==> ActiveStep(db, tid, e, s, now, f) == (Pass, db)
    ensures HasInstance(db, tid) ==> Utils.ExpiryStep(db, tid, e, s, now, f) == (Pass, db)
    ensures AtMostOneInstance(ActiveStep(db, tid, e, s, now, f).1, tid)
    ensures AtMostOneInstance(Utils.ExpiryStep(db, tid, e, s, now, f).1, tid)
  {
    var t := db.templates[tid];
    var p := LimitedPlan(db, t, tid, e, s, now);
    assert ActivePlan(db, tid, e, s, now) == p && Utils.ExpiryPlan(db, tid, e, s, now) == p;
    ApplyGrows(db, p, now, f);
    var r := Apply(db, p, now, f).1;
    if r != db {
      assert forall a :: a in db.tasks ==> db.tasks[a].template != Some(tid);
      assert forall a :: a in r.tasks && a != r.lastTask ==> a in db.tasks && r.tasks[a] == db.tasks[a];
    }
  }

  // ---------------------------------------------------------------------
  // The task handlers

  /** The task_id form field: present, then strconv.Atoi. */
  function ParseId(text: string): (r: Result<int>)
    ensures text == "" ==> r == Err(MissingId)
    ensures text != "" && Atoi(text).None? ==> r == Err(BadId)
    ensures r.Ok? <==> text != "" && Atoi(text).Some?
    ensures r.Ok? ==> r.value == Atoi(text).value
  {
    if text == "" then Err(MissingId)
    else
      match Atoi(text)
      case None => Err(BadId)
      case Some(v) => Ok(v)
  }

  /** The id of every task reads back through the form. */
  lemma ParseIdRoundTrip(id: nat)
    requires id <= MaxInt64
    ensures ParseId(Digits(id, 1)) == Ok(id)
  {
    AtoiDigits(id);
  }

  ghost function ClaimSpec(db: Db, idText: string, now: Instant, fail: bool): (Outcome, Db)
  {
    match ParseId(idText)
    case Err(e) => (Fail(e), db)
    case Ok(id) =>
      match FirstPlayer(db)
      case None => (Fail(NotFound), db)
      case Some(p) => if fail then (Fail(StoreFailure), db) else (Pass, Tables.ClaimTask(db, id, p, now))
  }

  /** handlers.ClaimTaskHandler */
  method ClaimTaskHandler(store: Store, idText: string, now: Instant, fail: bool) returns (o: Outcome)
    modifies store
    ensures (o, store.Snapshot()) == ClaimSpec(old(store.Snapshot()), idText, now, fail)
  {
    var parsed := ParseId(idText);
    if parsed.Err? {
      return Fail(parsed.error);
    }
    var player := store.GetFirstPlayerID();
    if player.Err? {
      return Fail(player.error);
    }
    o := store.ClaimTask(parsed.value, player.value, now, fail);
  }

  /** The claim succeeds whenever the id parses, a player exists and the
      update runs, whether or not the task was available; the task is then
      claimed by the first player if it was available, and nothing at all
      changes otherwise. */
  lemma ClaimOutcome(db: Db, idText: string, now: Instant, fail: bool)
    requires Wf(db)
    ensures var (o, r) := ClaimSpec(db, idText, now, fail);
      Wf(r)
      && (o == Pass <==> ParseId(idText).Ok? && db.players != map[] && !fail)
      && (o.Fail? ==> r == db)
      && (o == Pass ==>
            var id := ParseId(idText).value;
            (r != db <==> id in db.tasks && db.tasks[id].status == Available)
            && (r != db ==> r.tasks[id].status == Claimed && r.tasks[id].player == FirstPlayer(db)
                            && forall k :: k in db.players ==> FirstPlayer(db).value <= k))
  {
    if ParseId(idText).Ok? && FirstPlayer(db).Some? {
      TaskStatementsKeepWf(db, ParseId(idText).value, FirstPlayer(db).value, now);
    }
  }

  /** The submission guard: the task is claimed and owned by the current
      player. */
  predicate Submittable(t: Task, current: int)
  {
    t.status == Claimed && t.player.Some? && t.player.value == current
  }

  /** COALESCE(template_id, 0) */
  function TemplateKey(t: Task): int
  {
    if t.template.Some? then t.template.value else 0
  }

  ghost function CompleteSpec(db: Db, idText: string, now: Instant, failComplete: bool, insertFails: bool): (Outcome, Db)
    requires ValidInstant(now)
  {
    match ParseId(idText)
    case Err(e) => (Fail(e), db)
    case Ok(id) =>
      match FirstPlayer(db)
      case None => (Fail(NotFound), db)
      case Some(p) =>
        if id !in db.tasks then (Fail(NotFound), db)
        else if !Submittable(db.tasks[id], p) then (Fail(CannotSubmit), db)
        else if failComplete then (Fail(StoreFailure), db)
        else
          var done := Tables.CompleteTask(db, id, now);
          var tid := TemplateKey(db.tasks[id]);
          if tid > 0 then (Pass, Utils.ExpiryStep(done, tid, "", "", now, insertFails).1) else (Pass, done)
  }

  /** handlers.CompleteTaskHandler: the guard, the update, then the
      expiry-based generator for the task's template, whose error is only
      logged. */
  method CompleteTaskHandler(store: Store, idText: string, now: Instant, failComplete: bool, insertFails: bool)
    returns (o: Outcome)
    requires ValidInstant(now)
    modifies store
    ensures (o, store.Snapshot()) == CompleteSpec(old(store.Snapshot()), idText, now, failComplete, insertFails)
  {
    var parsed := ParseId(idText);
    if parsed.Err? {
      return Fail(parsed.error);
    }
    var id := parsed.value;
    var current := store.GetFirstPlayerID();
    if current.Err? {
      return Fail(current.error);
    }
    var found := store.GetTaskByID(id);
    if found.Err? {
      return Fail(found.error);
    }
    var task := found.value;
    if !Submittable(task, current.value) {
      return Fail(CannotSubmit);
    }
    o := store.CompleteTask(id, now, failComplete);
    if o.Fail? {
      return;
    }
    var tid := TemplateKey(task);
    if tid > 0 {
      var regenerated := Utils.CreateTaskInstancesFromTemplate(store, tid, "", "", now, insertFails);
    }
  }

  /** Completion succeeds exactly when the id parses, the task exists, is
      claimed and belongs to the first player, and the update runs; a
      failing regeneration never turns success into an error. On success the
      task alone among the existing rows changes, to completed with the same
      owner, and at most one new instance is added. */
  lemma CompleteOutcome(db: Db, idText: string, now: Instant, failComplete: bool, insertFails: bool)
    requires Wf(db) && ValidInstant(now)
    ensures var (o, r) := CompleteSpec(db, idText, now, failComplete, insertFails);
      Wf(r)
      && (o == Pass <==>
            ParseId(idText).Ok? && FirstPlayer(db).Some? && ParseId(idText).value in db.tasks
            && Submittable(db.tasks[ParseId(idText).value], FirstPlayer(db).value) && !failComplete)
      && (o.Fail? ==> r == db)
      && (o == Pass ==>
            var id := ParseId(idText).value;
            r.tasks[id] == db.tasks[id].(status := Completed, updatedAt := now)
            && Progress(db, r)
            && (forall k :: k in db.tasks && k != id ==> r.tasks[k] == db.tasks[k])
            && r.tasks.Keys <= db.tasks.Keys + {r.lastTask})
  {
    var (o, r) := CompleteSpec(db, idText, now, failComplete, insertFails);
    if o == Pass {
      var id := ParseId(idText).value;
      var done := Tables.CompleteTask(db, id, now);
      TaskStatementsKeepWf(db, id, 0, now);
      var tid := TemplateKey(db.tasks[id]);
      if tid > 0 {
        Utils.ExpiryStepGrows(done, tid, "", "", now, insertFails);
      }
    }
  }

  function VerifySpec(db: Db, idText: string, now: Instant, failCredit: bool, failVerify: bool): (Outcome, Db)
  {
    match ParseId(idText)
    case Err(e) => (Fail(e), db)
    case Ok(id) =>
      if id !in db.tasks then (Fail(NotFound), db)
      else
        var t := db.tasks[id];
        if t.status != Completed then (Fail(NotCompleted), db)
        else if t.player.None? then (Fail(OwnerMissing), db)
        else if t.player.value !in db.players then (Fail(NotFound), db)
        else if failCredit then (Fail(StoreFailure), db)
        else
          var p := t.player.value;
          var credited := UpdatePlayerEmeralds(db, p, db.players[p].emeralds + t.reward);
          if failVerify then (Fail(StoreFailure), credited)
          else (Pass, Tables.VerifyTask(credited, id, now))
  }

  /** handlers.VerifyTaskHandler: two separate statements, the credit and
      then the status change. */
  method VerifyTaskHandler(store: Store, idText: string, now: Instant, failCredit: bool, failVerify: bool)
    returns (o: Outcome)
    modifies store
    ensures (o, store.Snapshot()) == VerifySpec(old(store.Snapshot()), idText, now, failCredit, failVerify)
  {
    var parsed := ParseId(idText);
    if parsed.Err? {
      return Fail(parsed.error);
    }
    var id := parsed.value;
    var found := store.GetTaskByID(id);
    if found.Err? {
      return Fail(found.error);
    }
    var task := found.value;
    if task.status != Completed {
      return Fail(NotCompleted);
    }
    if task.player.None? {
      return Fail(OwnerMissing);
    }
    var owner := store.GetPlayerInfo(task.player.value);
    if owner.Err? {
      return Fail(owner.error);
    }
    o := store.UpdatePlayerEmeralds(task.player.value, owner.value.emeralds + task.reward, failCredit);
    if o.Fail? {
      return;
    }
    o := store.VerifyTask(id, now, failVerify);
  }

  /** A successful verification adds exactly the reward to the owner's
      balance, marks the completed task verified, and changes nothing else;
      a refusal changes nothing. */
  lemma VerifyOutcome(db: Db, idText: string, now: Instant, failCredit: bool, failVerify: bool)
    ensures var (o, r) := VerifySpec(db, idText, now, failCredit, failVerify);
      (o == Pass <==>
         ParseId(idText).Ok? && ParseId(idText).value in db.tasks
         && db.tasks[ParseId(idText).value].status == Completed
         && db.tasks[ParseId(idText).value].player.Some?
         && db.tasks[ParseId(idText).value].player.value in db.players
         && !failCredit && !failVerify)
      && (o.Fail? && !(o.error == StoreFailure && failVerify) ==> r == db)
      && (o == Pass ==>
            var id := ParseId(idText).value;
            var t := db.tasks[id];
            var p := t.player.value;
            r.players == db.players[p := db.players[p].(emeralds := db.players[p].emeralds + t.reward)]
            && r.tasks == db.tasks[id := t.(status := Verified, updatedAt := now)]
            && r.(players := db.players, tasks := db.tasks) == db)
  {
  }

  /** Verification keeps the store well formed, whatever fails. */
  lemma VerifyKeepsWf(db: Db, idText: string, now: Instant, failCredit: bool, failVerify: bool)
    requires Wf(db)
    ensures Wf(VerifySpec(db, idText, now, failCredit, failVerify).1)
  {
    if ParseId(idText).Ok? {
      var id := ParseId(idText).value;
      if id in db.tasks && db.tasks[id].status == Completed && db.tasks[id].player.Some?
         && db.tasks[id].player.value in db.players
      {
        var p := db.tasks[id].player.value;
        var credited := UpdatePlayerEmeralds(db, p, db.players[p].emeralds + db.tasks[id].reward);
        OtherStatementsKeepWf(db, p, db.players[p].emeralds + db.tasks[id].reward, Template("", "", "", "", 0, ""), Item("", "", 0, 0, ""));
        TaskStatementsKeepWf(credited, id, 0, now);
      }
    }
  }

  /** In a well-formed store a completed task has an owner, so the handler
      never dereferences a missing one. */
  lemma VerifyOwnerPresent(db: Db, idText: string, now: Instant, failCredit: bool, failVerify: bool)
    requires Wf(db)
    ensures VerifySpec(db, idText, now, failCredit, failVerify).0 != Fail(OwnerMissing)
  {
    if ParseId(idText).Ok? && ParseId(idText).value in db.tasks {
      assert Owned(db.tasks[ParseId(idText).value]);
    }
  }

  /** The two statements are not one transaction: when the status change
      fails after the credit, the task stays completed, and verifying it
      again credits the reward a second time. */
  lemma VerifyTwiceCredits(db: Db, idText: string, now: Instant, later: Instant)
    requires VerifySpec(db, idText, now, false, false).0 == Pass
    ensures var partial := VerifySpec(db, idText, now, false, true);
      partial.0 == Fail(StoreFailure)
      && var (o2, r2) := VerifySpec(partial.1, idText, later, false, false);
      var id := ParseId(idText).value;
      var p := db.tasks[id].player.value;
      o2 == Pass && r2.players[p].emeralds == db.players[p].emeralds + 2 * db.tasks[id].reward
  {
  }

  // ---------------------------------------------------------------------
  // Template creation

  /** The fields of the template form; repeatDays holds the checked
      weekday boxes. */
  datatype TaskForm = TaskForm(title: string, description: string, difficulty: string, kind: string,
                               reward: string, expiry: string, start: string, repeatDays: seq<string>)

  /** strings.Join of the checked boxes, or "" when none is checked. */
  function JoinDays(values: seq<string>): string
  {
    if |values| > 0 then Text.Join(values, ',') else ""
  }

  /** The checks of the template form, in the handler's order. */
  function ValidateTaskForm(f: TaskForm): (r: Result<Template>)
    ensures r.Ok? <==>
      f.title != "" && f.difficulty != "" && f.kind != "" && f.reward != ""
      && !(f.kind == "daily" && JoinDays(f.repeatDays) == "")
      && ScanInt(f.reward).Some? && ScanInt(f.reward).value > 0
    ensures r.Ok? ==> r.value.reward > 0 && (r.value.kind == "daily" ==> r.value.repeatDays != "")
    ensures r.Ok? ==> r.value == Template(f.title, f.description, f.difficulty, f.kind, r.value.reward, JoinDays(f.repeatDays))
    ensures r.Err? && (f.title == "" || f.difficulty == "" || f.kind == "" || f.reward == "") ==> r.error == MissingFields
  {
    if f.title == "" || f.difficulty == "" || f.kind == "" || f.reward == "" then Err(MissingFields)
    else if f.kind == "daily" && JoinDays(f.repeatDays) == "" then Err(MissingRepeatDays)
    else
      match ScanInt(f.reward)
      case None => Err(BadReward)
      case Some(v) => if v <= 0 then Err(BadReward) else Ok(Template(f.title, f.description, f.difficulty, f.kind, v, JoinDays(f.repeatDays)))
  }

  /** The reward is read as Sscanf reads it: leading digits count and any
      text after them is ignored, so "10 emeralds" is a reward of 10, while
      zero is refused. */
  lemma RewardReading(f: TaskForm, n: nat, rest: string)
    requires f.title != "" && f.difficulty != "" && f.kind != "" && f.kind != "daily"
    requires n <= MaxInt64 && (|rest| == 0 || !IsDigit(rest[0]))
    ensures f.(reward := Digits(n, 1) + rest).reward != ""
    ensures ValidateTaskForm(f.(reward := Digits(n, 1) + rest)).Ok? <==> n > 0
    ensures n > 0 ==> ValidateTaskForm(f.(reward := Digits(n, 1) + rest)).value.reward == n
  {
    ScanIntDigits(n, rest);
  }

  ghost function CreateSpec(db: Db, f: TaskForm, now: Instant, failTemplate: bool, insertFails: bool): (Outcome, Db)
    requires ValidInstant(now)
  {
    match ValidateTaskForm(f)
    case Err(e) => (Fail(e), db)
    case Ok(t) =>
      if failTemplate then (Fail(StoreFailure), db)
      else
        var db1 := Tables.CreateTaskTemplate(db, t);
        ActiveStep(db1, db1.lastTemplate, f.expiry, f.start, now, insertFails)
  }

  /** handlers.CreateTaskHandler */
  method CreateTaskHandler(store: Store, f: TaskForm, now: Instant, failTemplate: bool, insertFails: bool)
    returns (o: Outcome)
    requires ValidInstant(now)
    modifies store
    ensures (o, store.Snapshot()) == CreateSpec(old(store.Snapshot()), f, now, failTemplate, insertFails)
  {
    var valid := ValidateTaskForm(f);
    if valid.Err? {
      return Fail(valid.error);
    }
    var created := store.CreateTaskTemplate(valid.value, failTemplate);
    if created.Err? {
      return Fail(created.error);
    }
    o := CreateTaskInstancesFromTemplate(store, created.value, f.expiry, f.start, now, insertFails);
  }

  /** A valid form always adds its template under a fresh id, even when
      making the first instance fails. A fresh limited template always gets
      its instance unless the start time is unreadable or the insert fails;
      a fresh daily one gets its instance on the first checked weekday of
      the coming week. */
  lemma CreateOutcome(db: Db, f: TaskForm, now: Instant, insertFails: bool)
    requires Wf(db) && ValidInstant(now) && ValidateTaskForm(f).Ok?
    ensures var (o, r) := CreateSpec(db, f, now, false, insertFails);
      var n := db.lastTemplate + 1;
      var t := ValidateTaskForm(f).value;
      Wf(r) && n !in db.templates
      && r.templates == db.templates[n := t]
      && (forall id :: id in db.tasks ==> id in r.tasks && r.tasks[id] == db.tasks[id])
      && (t.kind == "limited" ==>
            (o == Fail(BadStartTime) <==> f.start != "" && Normalize(f.start).None?)
            && (o == Pass <==> StartFor(f.start, now).Some? && !insertFails)
            && (o == Pass ==> r.tasks[r.lastTask] == NewRow(LimitedDraft(t, n, f.expiry, StartFor(f.start, now).value), now, now)))
      && (t.kind == "daily" ==>
            o == (if insertFails && DailyDay(t, now.day).Some? then Fail(StoreFailure) else Pass)
            && (o == Pass && DailyDay(t, now.day).Some? ==>
                  r.tasks[r.lastTask] == NewRow(DailyDraft(t, n, DailyDay(t, now.day).value), now, now)))
  {
    var t := ValidateTaskForm(f).value;
    var db1 := Tables.CreateTaskTemplate(db, t);
    var n := db1.lastTemplate;
    FreshTemplate(db, t);
    FreshPlan(db1, n, t, f.expiry, f.start, now);
    ApplyGrows(db1, ActivePlan(db1, n, f.expiry, f.start, now), now, insertFails);
  }

  /** A template just added has no instance yet, active or not. */
  lemma FreshTemplate(db: Db, t: Template)
    requires Wf(db)
    ensures var db1 := Tables.CreateTaskTemplate(db, t);
      var n := db1.lastTemplate;
      Wf(db1) && n !in db.templates && db1.tasks == db.tasks && !HasInstance(db1, n) && !HasActive(db1, n)
  {
    var db1 := Tables.CreateTaskTemplate(db, t);
    var n := db1.lastTemplate;
    OtherStatementsKeepWf(db, 0, 0, t, Item("", "", 0, 0, ""));
    forall id | id in db1.tasks
      ensures db1.tasks[id].template != Some(n)
    {
      assert Linked(db.tasks[id], db.lastTemplate);
    }
  }

  /** For a template without instances the plan depends on its kind alone. */
  lemma FreshPlan(db1: Db, n: int, t: Template, e: string, s: string, now: Instant)
    requires ValidInstant(now) && n in db1.templates && db1.templates[n] == t
    requires !HasInstance(db1, n) && !HasActive(db1, n)
    ensures t.kind == "daily" ==> ActivePlan(db1, n, e, s, now) == DailyPlan(t, n, now.day)
    ensures t.kind == "limited" ==>
      (ActivePlan(db1, n, e, s, now) ==
       if StartFor(s, now).Some? then Create(LimitedDraft(t, n, e, StartFor(s, now).value)) else Refuse(BadStartTime))
  {
  }
}
