/** The older handlers of main.go. Each runs inside one transaction, so a
    failing statement or commit rolls everything back: its function either
    refuses, or fails with the store unchanged, or passes with all of its
    writes. They bind the id text directly and act for player 1. */
module Legacy {
  import opened Outcomes
  import opened Numerals
  import opened Calendar
  import opened Recurrence
  import opened Tables
  import opened Models
  import opened Generation
  import Text
  import TaskHandlers

  /** The row an id text selects: the id column compared with the text read
      as an integer. */
  function RowId(text: string): (r: Option<int>)
    ensures text == "" ==> r.None?
    ensures r.Some? ==> MinInt64 <= r.value <= MaxInt64
  {
    Atoi(text)
  }

  /** The numeral of any id selects that id's row. */
  lemma RowIdRoundTrip(id: int)
    requires MinInt64 <= id <= MaxInt64
    ensures RowId(Itoa(id)) == Some(id)
  {
    AtoiItoa(id);
  }

  // ---------------------------------------------------------------------
  // Claim, complete, verify

  function LegacyClaim(db: Db, idText: string, now: Instant, fail: bool): (Outcome, Db)
  {
    if idText == "" then (Fail(MissingId), db)
    else
      match RowId(idText)
      case None => (Fail(NotFound), db)
      case Some(id) =>
        if id !in db.tasks then (Fail(NotFound), db)
        else if db.tasks[id].status != Available then (Fail(AlreadyClaimed), db)
        else if fail then (Fail(StoreFailure), db)
        else (Pass, Tables.ClaimTask(db, id, 1, now))
  }

  /** main.go claimTaskHandler */
  method ClaimTaskHandler(store: Store, idText: string, now: Instant, fail: bool) returns (o: Outcome)
    modifies store
    ensures (o, store.Snapshot()) == LegacyClaim(old(store.Snapshot()), idText, now, fail)
  {
    if idText == "" {
      return Fail(MissingId);
    }
    var key := RowId(idText);
    if key.None? {
      return Fail(NotFound);
    }
    var found := store.GetTaskByID(key.value);
    if found.Err? {
      return Fail(found.error);
    }
    if found.value.status != Available {
      return Fail(AlreadyClaimed);
    }
    if fail {
      return Fail(StoreFailure);
    }
    o := store.ClaimTask(key.value, 1, now, false);
  }

  /** The legacy claim refuses any task that is not available and leaves it
      as it was; otherwise it claims it for player 1 and touches nothing
      else. */
  lemma LegacyClaimOutcome(db: Db, idText: string, now: Instant, fail: bool)
    requires Wf(db)
    ensures var (o, r) := LegacyClaim(db, idText, now, fail);
      Wf(r) && (o.Fail? ==> r == db)
      && (o == Pass <==>
            idText != "" && RowId(idText).Some? && RowId(idText).value in db.tasks
            && db.tasks[RowId(idText).value].status == Available && !fail)
      && (o == Pass ==>
            var id := RowId(idText).value;
            r.tasks == db.tasks[id := db.tasks[id].(status := Claimed, player := Some(1), updatedAt := now)]
            && r.(tasks := db.tasks) == db)
  {
    if idText != "" && RowId(idText).Some? {
      TaskStatementsKeepWf(db, RowId(idText).value, 1, now);
    }
  }

  function LegacyComplete(db: Db, idText: string, now: Instant, fail: bool): (Outcome, Db)
  {
    if idText == "" then (Fail(MissingId), db)
    else
      match RowId(idText)
      case None => (Fail(NotFound), db)
      case Some(id) =>
        if id !in db.tasks then (Fail(NotFound), db)
        else
          var t := db.tasks[id];
          if t.player.None? then (Fail(NullColumn), db)
          else if t.status != Claimed || t.player.value != 1 then (Fail(CannotSubmit), db)
          else if fail then (Fail(StoreFailure), db)
          else (Pass, Tables.CompleteTask(db, id, now))
  }

  /** main.go completeTaskHandler */
  method CompleteTaskHandler(store: Store, idText: string, now: Instant, fail: bool) returns (o: Outcome)
    modifies store
    ensures (o, store.Snapshot()) == LegacyComplete(old(store.Snapshot()), idText, now, fail)
  {
    if idText == "" {
      return Fail(MissingId);
    }
    var key := RowId(idText);
    if key.None? {
      return Fail(NotFound);
    }
    var found := store.GetTaskByID(key.value);
    if found.Err? {
      return Fail(found.error);
    }
    var t := found.value;
    if t.player.None? {
      return Fail(NullColumn);
    }
    if t.status != Claimed || t.player.value != 1 {
      return Fail(CannotSubmit);
    }
    if fail {
      return Fail(StoreFailure);
    }
    o := store.CompleteTask(key.value, now, false);
  }

  /** The legacy completion passes exactly for a task claimed by player 1,
      and then changes only its status, to completed, and its update time. */
  lemma LegacyCompleteOutcome(db: Db, idText: string, now: Instant, fail: bool)
    requires Wf(db)
    ensures var (o, r) := LegacyComplete(db, idText, now, fail);
      Wf(r) && (o.Fail? ==> r == db)
      && (o == Pass <==>
            idText != "" && RowId(idText).Some? && RowId(idText).value in db.tasks
            && db.tasks[RowId(idText).value].status == Claimed
            && db.tasks[RowId(idText).value].player == Some(1) && !fail)
      && (o == Pass ==>
            var id := RowId(idText).value;
            r.tasks == db.tasks[id := db.tasks[id].(status := Completed, updatedAt := now)]
            && r.(tasks := db.tasks) == db)
  {
    if idText != "" && RowId(idText).Some? {
      TaskStatementsKeepWf(db, RowId(idText).value, 1, now);
    }
  }

  /** UPDATE players SET emeralds = emeralds + ? WHERE id = ?: no row
      matches a missing player. */
  function Credit(db: Db, p: int, amount: int): Db
  {
    if p in db.players then UpdatePlayerEmeralds(db, p, db.players[p].emeralds + amount) else db
  }

  function LegacyVerify(db: Db, idText: string, now: Instant, fail: bool): (Outcome, Db)
  {
    if idText == "" then (Fail(MissingId), db)
    else
      match RowId(idText)
      case None => (Fail(NotFound), db)
      case Some(id) =>
        if id !in db.tasks then (Fail(NotFound), db)
        else
          var t := db.tasks[id];
          if t.player.None? then (Fail(NullColumn), db)
          else if t.status != Completed then (Fail(NotCompleted), db)
          else if fail then (Fail(StoreFailure), db)
          else (Pass, Tables.VerifyTask(Credit(db, t.player.value, t.reward), id, now))
  }

  /** main.go verifyTaskHandler */
  method VerifyTaskHandler(store: Store, idText: string, now: Instant, fail: bool) returns (o: Outcome)
    modifies store
    ensures (o, store.Snapshot()) == LegacyVerify(old(store.Snapshot()), idText, now, fail)
  {
    if idText == "" {
      return Fail(MissingId);
    }
    var key := RowId(idText);
    if key.None? {
      return Fail(NotFound);
    }
    var found := store.GetTaskByID(key.value);
    if found.Err? {
      return Fail(found.error);
    }
    var t := found.value;
    if t.player.None? {
      return Fail(NullColumn);
    }
    if t.status != Completed {
      return Fail(NotCompleted);
    }
    if fail {
      return Fail(StoreFailure);
    }
    var owner := store.GetPlayerInfo(t.player.value);
    if owner.Ok? {
      o := store.UpdatePlayerEmeralds(t.player.value, owner.value.emeralds + t.reward, false);
    }
    o := store.VerifyTask(key.value, now, false);
  }

  /** Crediting the owner, then marking the task verified. */
  lemma CreditThenVerify(db: Db, id: int, now: Instant)
    requires Wf(db) && id in db.tasks && db.tasks[id].status == Completed && db.tasks[id].player.Some?
    ensures var t := db.tasks[id];
      var p := t.player.value;
      var r := Tables.VerifyTask(Credit(db, p, t.reward), id, now);
      Wf(r)
      && r.tasks == db.tasks[id := t.(status := Verified, updatedAt := now)]
      && (p in db.players ==> r.players == db.players[p := db.players[p].(emeralds := db.players[p].emeralds + t.reward)])
      && (p !in db.players ==> r.players == db.players)
      && r.(tasks := db.tasks, players := db.players) == db
  {
    var t := db.tasks[id];
    var p := t.player.value;
    var credited := Credit(db, p, t.reward);
    assert credited.tasks == db.tasks;
    OtherStatementsKeepWf(db, p, if p in db.players then db.players[p].emeralds + t.reward else 0,
                          Template("", "", "", "", 0, ""), Item("", "", 0, 0, ""));
    TaskStatementsKeepWf(credited, id, 0, now);
  }

  /** The credit and the status change happen together or not at all: on
      success the owner (when the player row exists) gains exactly the
      reward and the task is verified; on any refusal or failure nothing
      changes. */
  lemma LegacyVerifyAtomic(db: Db, idText: string, now: Instant, fail: bool)
    requires Wf(db)
    ensures var (o, r) := LegacyVerify(db, idText, now, fail);
      Wf(r) && (o.Fail? ==> r == db)
      && (o == Pass <==>
            idText != "" && RowId(idText).Some? && RowId(idText).value in db.tasks
            && db.tasks[RowId(idText).value].status == Completed && !fail)
      && (o == Pass ==>
            var id := RowId(idText).value;
            var t := db.tasks[id];
            var p := t.player.value;
            r.tasks == db.tasks[id := t.(status := Verified, updatedAt := now)]
            && (p in db.players ==> r.players == db.players[p := db.players[p].(emeralds := db.players[p].emeralds + t.reward)])
            && (p !in db.players ==> r.players == db.players)
            && r.(tasks := db.tasks, players := db.players) == db)
  {
    if idText != "" && RowId(idText).Some? && RowId(idText).value in db.tasks {
      var id := RowId(idText).value;
      var t := db.tasks[id];
      if t.status == Completed && !fail {
        assert t.player.Some?;
        assert LegacyVerify(db, idText, now, fail) == (Pass, Tables.VerifyTask(Credit(db, t.player.value, t.reward), id, now));
        CreditThenVerify(db, id, now);
      }
    }
  }

  // ---------------------------------------------------------------------
  // Purchase

  ghost function LegacyExchange(db: Db, idText: string, fail: bool): (Outcome, Db)
  {
    if idText == "" then (Fail(MissingId), db)
    else
      match RowId(idText)
      case None => (Fail(NotFound), db)
      case Some(item) =>
        if item !in db.items then (Fail(NotFound), db)
        else
          var it := db.items[item];
          if it.stock <= 0 then (Fail(OutOfStock), db)
          else
            match FirstPlayer(db)
            case None => (Fail(NotFound), db)
            case Some(p) =>
              if db.players[p].emeralds < it.cost then (Fail(NotEnoughEmeralds), db)
              else if fail then (Fail(StoreFailure), db)
              else
                var debited := UpdatePlayerEmeralds(db, p, db.players[p].emeralds - it.cost);
                var taken := UpdateItemStock(debited, item, it.stock - 1);
                (Pass, CreateExchangeRecord(taken, 1, item))
  }

  /** main.go exchangeHandler */
  method ExchangeHandler(store: Store, idText: string, fail: bool) returns (o: Outcome)
    modifies store
    ensures (o, store.Snapshot()) == LegacyExchange(old(store.Snapshot()), idText, fail)
  {
    if idText == "" {
      return Fail(MissingId);
    }
    var key := RowId(idText);
    if key.None? {
      return Fail(NotFound);
    }
    var found := store.GetItemInfo(key.value);
    if found.Err? {
      return Fail(found.error);
    }
    var it := found.value;
    if it.stock <= 0 {
      return Fail(OutOfStock);
    }
    var first := store.GetFirstPlayerID();
    if first.Err? {
      return Fail(first.error);
    }
    var p := first.value;
    // the first player's row exists, so this read finds it
    var player := store.GetPlayerInfo(p);
    if player.value.emeralds < it.cost {
      return Fail(NotEnoughEmeralds);
    }
    if fail {
      return Fail(StoreFailure);
    }
    o := store.UpdatePlayerEmeralds(p, player.value.emeralds - it.cost, false);
    o := store.UpdateItemStock(key.value, it.stock - 1, false);
    o := store.CreateExchangeRecord(1, key.value, false);
  }

  /** The legacy purchase is all or nothing: on success the first player
      pays the cost, the stock drops by one and one record is appended; a
      refusal or failure changes nothing. The record names player 1, which
      is the paying player only when player 1 is the first player. */
  lemma LegacyExchangeAtomic(db: Db, idText: string, fail: bool)
    ensures var (o, r) := LegacyExchange(db, idText, fail);
      (o.Fail? ==> r == db)
      && (o == Pass <==>
            idText != "" && RowId(idText).Some? && RowId(idText).value in db.items
            && db.items[RowId(idText).value].stock > 0 && FirstPlayer(db).Some?
            && db.players[FirstPlayer(db).value].emeralds >= db.items[RowId(idText).value].cost && !fail)
      && (o == Pass ==>
            var item := RowId(idText).value;
            var p := FirstPlayer(db).value;
            r.players == db.players[p := db.players[p].(emeralds := db.players[p].emeralds - db.items[item].cost)]
            && r.items == db.items[item := db.items[item].(stock := db.items[item].stock - 1)]
            && r.exchanges == db.exchanges + [Exchange(1, item)]
            && (r.exchanges[|r.exchanges| - 1].player == p <==> p == 1)
            && r.(players := db.players, items := db.items, exchanges := db.exchanges) == db)
  {
  }

  // ---------------------------------------------------------------------
  // Template creation

  /** The row the legacy code inserts for a daily template and a day: no
      start time, expiring at the end of that day. */
  function LegacyDraft(t: Template, tid: int, day: nat): Draft
  {
    Draft(t.title, t.description, t.difficulty, "daily", t.reward, Stamp(DayEnd(day)), None, Some(tid))
  }

  ghost function LegacyCreate(db: Db, f: TaskHandlers.TaskForm, now: Instant, failTemplate: bool, failInstance: bool): (Outcome, Db)
    requires ValidInstant(now)
  {
    match TaskHandlers.ValidateTaskForm(f)
    case Err(e) => (Fail(e), db)
    case Ok(t) =>
      if failTemplate then (Fail(StoreFailure), db)
      else
        var db1 := Tables.CreateTaskTemplate(db, t);
        var n := db1.lastTemplate;
        if t.kind == "limited" then
          if failInstance then (Fail(StoreFailure), db1)
          else (Pass, Insert(db1, Draft(t.title, t.description, t.difficulty, t.kind, t.reward, f.expiry, None, Some(n)), now, now))
        else if t.kind == "daily" then
          if failInstance then (Fail(StoreFailure), db1)
          else (Pass, Insert(db1, LegacyDraft(t, n, now.day + 1), DayStart(now.day + 1), now))
        else (Pass, db1)
  }

  /** main.go createTaskHandler: the same form checks as the handlers
      package, the template insert, then one instance, outside any
      transaction. */
  method CreateTaskHandler(store: Store, f: TaskHandlers.TaskForm, now: Instant, failTemplate: bool, failInstance: bool)
    returns (o: Outcome)
    requires ValidInstant(now)
    modifies store
    ensures (o, store.Snapshot()) == LegacyCreate(old(store.Snapshot()), f, now, failTemplate, failInstance)
  {
    var valid := TaskHandlers.ValidateTaskForm(f);
    if valid.Err? {
      return Fail(valid.error);
    }
    var t := valid.value;
    var created := store.CreateTaskTemplate(t, failTemplate);
    if created.Err? {
      return Fail(created.error);
    }
    var n := created.value;
    if t.kind == "limited" {
      o := store.InsertTask(Draft(t.title, t.description, t.difficulty, t.kind, t.reward, f.expiry, None, Some(n)), now, now, failInstance);
    } else if t.kind == "daily" {
      o := store.InsertTask(LegacyDraft(t, n, now.day + 1), DayStart(now.day + 1), now, failInstance);
    } else {
      o := Pass;
    }
  }


  /** The row the legacy creation inserts for a daily template. */
  lemma TomorrowRowOpen(t: Template, tid: int, now: Instant)
    requires ValidInstant(now) && InRange(now.day + 1)
    ensures var row := NewRow(LegacyDraft(t, tid, now.day + 1), DayStart(now.day + 1), now);
      OpenAt(row, Stamp(now)) && !UpcomingAt(row, Stamp(now))
      && row.expiry == DateText(Civil(now.day + 1)) + " 23:59:59"
  {
    InRangeBelow(now.day, now.day + 1);
    StampOrder(now, DayEnd(now.day + 1));
    EndClock(now.day + 1);
  }

  /** The daily instance the legacy creation makes is for tomorrow, but it
      has no start time, so the listing of available tasks shows it, and
      lets it be claimed, from the moment it is created, and the listing of
      upcoming tasks never does. */
  lemma LegacyDailyOpenAtOnce(db: Db, f: TaskHandlers.TaskForm, now: Instant)
    requires Wf(db) && ValidInstant(now) && InRange(now.day + 1)
    requires TaskHandlers.ValidateTaskForm(f).Ok? && f.kind == "daily"
    ensures var (o, r) := LegacyCreate(db, f, now, false, false);
      o == Pass && r.lastTask !in db.tasks
      && r.lastTask in AvailableIds(r, now) && r.lastTask !in UpcomingIds(r, now)
      && r.tasks[r.lastTask].expiry == DateText(Civil(now.day + 1)) + " 23:59:59"
  {
    var t := TaskHandlers.ValidateTaskForm(f).value;
    var db1 := Tables.CreateTaskTemplate(db, t);
    var r := Insert(db1, LegacyDraft(t, db1.lastTemplate, now.day + 1), DayStart(now.day + 1), now);
    assert LegacyCreate(db, f, now, false, false) == (Pass, r);
    assert r.tasks[r.lastTask] == NewRow(LegacyDraft(t, db1.lastTemplate, now.day + 1), DayStart(now.day + 1), now);
    TomorrowRowOpen(t, db1.lastTemplate, now);
  }

  /** The daily insert names a repeat_days column that the tasks table
      does not have, so as written it always fails: the template stays
      stored, the handler answers with a server error and no task is
      added. */
  lemma LegacyDailyInsertRejected(db: Db, f: TaskHandlers.TaskForm, now: Instant)
    requires Wf(db) && ValidInstant(now)
    requires TaskHandlers.ValidateTaskForm(f).Ok? && f.kind == "daily"
    ensures var (o, r) := LegacyCreate(db, f, now, false, true);
      o == Fail(StoreFailure)
      && r.tasks == db.tasks && r.lastTask == db.lastTask
      && r.lastTemplate !in db.templates
      && r.templates == db.templates[r.lastTemplate := TaskHandlers.ValidateTaskForm(f).value]
  {
  }

  // ---------------------------------------------------------------------
  // The legacy refresh

  /** SELECT COUNT(*) FROM tasks WHERE type = 'daily' AND template_id = ? AND
      date(created_at) = date('now') is not zero. */
  predicate CreatedOn(db: Db, tid: int, day: nat)
  {
    exists id :: id in db.tasks && db.tasks[id].kind == "daily" && db.tasks[id].template == Some(tid)
                 && db.tasks[id].createdAt.day == day
  }

  /** The date part of a stored time. */
  predicate DateIs(stamp: string, date: string)
  {
    |stamp| >= 10 && stamp[..10] == date
  }

  /** SELECT COUNT(*) FROM tasks WHERE type = 'daily' AND template_id = ? AND
      date(expiry_time) = date('now', '+1 day') is not zero. */
  predicate ExpiresOn(db: Db, tid: int, day: nat)
  {
    exists id :: id in db.tasks && db.tasks[id].kind == "daily" && db.tasks[id].template == Some(tid)
                 && DateIs(db.tasks[id].expiry, DateText(Civil(day)))
  }

  /** Today's instance: inserted when today's weekday is listed and no
      instance of the template was created today. A failing count or insert
      only skips it. */
  function TodayPart(db: Db, t: Template, tid: int, now: Instant, fails: bool): Db
  {
    if Listed(RepeatDays(t.repeatDays), Weekday(now.day)) && !CreatedOn(db, tid, now.day) && !fails
    then Insert(db, LegacyDraft(t, tid, now.day), now, now)
    else db
  }

  /** Tomorrow's instance: inserted when tomorrow's weekday is listed and no
      instance of the template expires tomorrow; it is created at
      tomorrow's midnight. */
  function TomorrowPart(db: Db, t: Template, tid: int, now: Instant, fails: bool): Db
  {
    if Listed(RepeatDays(t.repeatDays), Weekday(now.day + 1)) && !ExpiresOn(db, tid, now.day + 1) && !fails
    then Insert(db, LegacyDraft(t, tid, now.day + 1), DayStart(now.day + 1), now)
    else db
  }

  /** One template row of the legacy refresh; a template with empty repeat
      days is skipped. */
  function LegacyStep(db: Db, tid: int, now: Instant, todayFails: bool, tomorrowFails: bool): Db
  {
    if tid !in db.templates || db.templates[tid].repeatDays == "" then db
    else
      var t := db.templates[tid];
      TomorrowPart(TodayPart(db, t, tid, now, todayFails), t, tid, now, tomorrowFails)
  }

  method RefreshToday(store: Store, t: Template, tid: int, isToday: bool, now: Instant, fails: bool)
    requires isToday == Listed(RepeatDays(t.repeatDays), Weekday(now.day))
    modifies store
    ensures store.Snapshot() == TodayPart(old(store.Snapshot()), t, tid, now, fails)
  {
    if isToday {
      var count := CreatedOn(store.Snapshot(), tid, now.day);
      if !count {
        var o := store.InsertTask(LegacyDraft(t, tid, now.day), now, now, fails);
      }
    }
  }

  method RefreshTomorrow(store: Store, t: Template, tid: int, isTomorrow: bool, now: Instant, fails: bool)
    requires isTomorrow == Listed(RepeatDays(t.repeatDays), Weekday(now.day + 1))
    modifies store
    ensures store.Snapshot() == TomorrowPart(old(store.Snapshot()), t, tid, now, fails)
  {
    if isTomorrow {
      var count := ExpiresOn(store.Snapshot(), tid, now.day + 1);
      if !count {
        var o := store.InsertTask(LegacyDraft(t, tid, now.day + 1), DayStart(now.day + 1), now, fails);
      }
    }
  }

  /** The loop body of refreshDailyTasks for one template row: the repeat
      days are split once and searched for today's and tomorrow's weekday
      names. */
  method RefreshTemplate(store: Store, tid: int, todayText: string, tomorrowText: string, now: Instant,
                         todayFails: bool, tomorrowFails: bool)
    requires todayText == WeekdayText(Weekday(now.day)) && tomorrowText == WeekdayText((Weekday(now.day) + 1) % 7)
    modifies store
    ensures store.Snapshot() == LegacyStep(old(store.Snapshot()), tid, now, todayFails, tomorrowFails)
  {
    var found := store.GetTemplate(tid);
    if found.Err? {
      return;
    }
    var t := found.value;
    if t.repeatDays == "" {
      return;
    }
    var days := RepeatDays(t.repeatDays);
    var isToday := Contains(days, todayText);
    var isTomorrow := Contains(days, tomorrowText);
    TomorrowWeekday(now.day);
    RefreshToday(store, t, tid, isToday, now, todayFails);
    RefreshTomorrow(store, t, tid, isTomorrow, now, tomorrowFails);
  }

  function LegacyFold(db: Db, order: seq<int>, now: Instant, todayFails: set<int>, tomorrowFails: set<int>): Db
    decreases |order|
  {
    if |order| == 0 then db
    else
      var last := order[|order| - 1];
      LegacyStep(LegacyFold(db, order[..|order| - 1], now, todayFails, tomorrowFails), last, now,
                 last in todayFails, last in tomorrowFails)
  }

  /** main.go refreshDailyTasks: the weekday names of today and tomorrow,
      every daily template in the order listed, then the sweep of stale
      claimed daily tasks. */
  method RefreshDailyTasks(store: Store, now: Instant, listFails: bool, todayFails: set<int>, tomorrowFails: set<int>,
                           sweepFails: bool) returns (ghost order: seq<int>)
    modifies store
    ensures listFails ==> store.Snapshot() == old(store.Snapshot())
    ensures !listFails ==> Lists(order, DailyTemplateIds(old(store.Snapshot())))
    ensures !listFails ==>
      var db1 := LegacyFold(old(store.Snapshot()), order, now, todayFails, tomorrowFails);
      store.Snapshot() == if sweepFails then db1 else LegacySweep(db1, now)
  {
    var todayWeekday := Weekday(now.day);
    var tomorrowWeekday := (todayWeekday + 1) % 7;
    var todayText := WeekdayText(todayWeekday);
    var tomorrowText := WeekdayText(tomorrowWeekday);
    if listFails {
      return [];
    }
    var ids := store.ListDailyTemplates();
    order := ids;
    ghost var db0 := store.Snapshot();
    for k := 0 to |ids|
      invariant store.Snapshot() == LegacyFold(db0, ids[..k], now, todayFails, tomorrowFails)
    {
      assert ids[..k + 1][..k] == ids[..k];
      RefreshTemplate(store, ids[k], todayText, tomorrowText, now, ids[k] in todayFails, ids[k] in tomorrowFails);
    }
    assert ids[..|ids|] == ids;
    var o := store.CompleteStale(now, sweepFails);
  }

  /** Every row r has that db lacks is an available daily task of template
      tid. */
  predicate NewDaily(db: Db, r: Db, tid: int)
  {
    forall id :: id in r.tasks && id !in db.tasks ==>
      r.tasks[id].template == Some(tid) && r.tasks[id].kind == "daily" && r.tasks[id].status == Available
  }

  /** Both counts only ever find more once rows are added. */
  lemma CountsGrow(db: Db, r: Db, tid: int, day: nat)
    requires Grows(db, r)
    ensures CreatedOn(db, tid, day) ==> CreatedOn(r, tid, day)
    ensures ExpiresOn(db, tid, day) ==> ExpiresOn(r, tid, day)
  {
    if CreatedOn(db, tid, day) {
      var id :| id in db.tasks && db.tasks[id].kind == "daily" && db.tasks[id].template == Some(tid)
                && db.tasks[id].createdAt.day == day;
      assert r.tasks[id] == db.tasks[id];
    }
    if ExpiresOn(db, tid, day) {
      var id :| id in db.tasks && db.tasks[id].kind == "daily" && db.tasks[id].template == Some(tid)
                && DateIs(db.tasks[id].expiry, DateText(Civil(day)));
      assert r.tasks[id] == db.tasks[id];
    }
  }

  /** The expiry of one day's instance does not carry another day's date. */
  lemma ExpiryDates(d: nat, e: nat)
    requires InRange(d) && InRange(e)
    ensures DateIs(Stamp(DayEnd(d)), DateText(Civil(e))) <==> d == e
  {
    EndClock(d);
    EndClock(e);
    StampLength(DayEnd(d));
    StampLength(DayEnd(e));
    var s, u := Stamp(DayEnd(d)), Stamp(DayEnd(e));
    assert |DateText(Civil(d))| == 10 && |DateText(Civil(e))| == 10;
    assert s[..10] == DateText(Civil(d));
    if DateIs(s, DateText(Civil(e))) {
      assert s == u;
      StampInjective(DayEnd(d), DayEnd(e));
    }
  }

  /** Today's part adds at most one available daily row and afterwards the
      count of instances created today is not zero, unless its weekday is
      not listed or its insert failed. */
  lemma TodayPartGrows(db: Db, t: Template, tid: int, now: Instant, fails: bool)
    requires Wf(db) && tid in db.templates
    ensures var r := TodayPart(db, t, tid, now, fails);
      Wf(r) && Grows(db, r) && NewDaily(db, r, tid)
      && (Listed(RepeatDays(t.repeatDays), Weekday(now.day)) && !fails ==> CreatedOn(r, tid, now.day))
  {
    var r := TodayPart(db, t, tid, now, fails);
    if r != db {
      InsertFresh(db, LegacyDraft(t, tid, now.day), now, now);
      assert r.tasks[r.lastTask].createdAt == now;
    }
  }

  /** Tomorrow's part likewise; the row it adds both expires tomorrow and
      counts as created tomorrow. Today's row never expires tomorrow. */
  lemma TomorrowPartGrows(db: Db, t: Template, tid: int, now: Instant, fails: bool)
    requires Wf(db) && tid in db.templates && InRange(now.day + 1)
    ensures var r := TomorrowPart(db, t, tid, now, fails);
      Wf(r) && Grows(db, r) && NewDaily(db, r, tid)
      && (Listed(RepeatDays(t.repeatDays), Weekday(now.day + 1)) && !fails ==> ExpiresOn(r, tid, now.day + 1))
      && (r != db ==> CreatedOn(r, tid, now.day + 1))
  {
    var r := TomorrowPart(db, t, tid, now, fails);
    if r != db {
      InsertFresh(db, LegacyDraft(t, tid, now.day + 1), DayStart(now.day + 1), now);
      ExpiryDates(now.day + 1, now.day + 1);
      assert r.tasks[r.lastTask].createdAt.day == now.day + 1;
      assert DateIs(r.tasks[r.lastTask].expiry, DateText(Civil(now.day + 1)));
    }
  }

  /** Today's row is not what tomorrow's count finds. */
  lemma TodayRowNotCounted(db: Db, t: Template, tid: int, now: Instant, fails: bool)
    requires Wf(db) && tid in db.templates && InRange(now.day + 1)
    requires ExpiresOn(TodayPart(db, t, tid, now, fails), tid, now.day + 1)
    ensures ExpiresOn(db, tid, now.day + 1)
  {
    var r := TodayPart(db, t, tid, now, fails);
    var id :| id in r.tasks && r.tasks[id].kind == "daily" && r.tasks[id].template == Some(tid)
              && DateIs(r.tasks[id].expiry, DateText(Civil(now.day + 1)));
    if r != db {
      InsertFresh(db, LegacyDraft(t, tid, now.day), now, now);
      InRangeBelow(now.day, now.day + 1);
      ExpiryDates(now.day, now.day + 1);
      assert r.tasks[r.lastTask].expiry == Stamp(DayEnd(now.day));
      assert id in db.tasks;
      assert db.tasks[id] == r.tasks[id];
    }
  }

  /** One template's step only adds available daily rows of that template,
      keeps the store well formed, and leaves a template with empty repeat
      days alone. */
  lemma LegacyStepGrows(db: Db, tid: int, now: Instant, a: bool, b: bool)
    requires Wf(db) && InRange(now.day + 1)
    ensures var r := LegacyStep(db, tid, now, a, b);
      Wf(r) && Grows(db, r) && NewDaily(db, r, tid)
      && (tid !in db.templates || db.templates[tid].repeatDays == "" ==> r == db)
  {
    if tid in db.templates && db.templates[tid].repeatDays != "" {
      var t := db.templates[tid];
      var db1 := TodayPart(db, t, tid, now, a);
      TodayPartGrows(db, t, tid, now, a);
      TomorrowPartGrows(db1, t, tid, now, b);
    }
  }

  /** Running a template's step again on the same day adds nothing once its
      inserts have succeeded, whatever fails the second time. */
  lemma LegacyStepIdempotent(db: Db, tid: int, now: Instant, now2: Instant, a: bool, b: bool)
    requires Wf(db) && now2.day == now.day && InRange(now.day + 1)
    ensures var r := LegacyStep(db, tid, now, false, false);
      LegacyStep(r, tid, now2, a, b) == r
  {
    if tid in db.templates && db.templates[tid].repeatDays != "" {
      var t := db.templates[tid];
      var db1 := TodayPart(db, t, tid, now, false);
      var r := TomorrowPart(db1, t, tid, now, false);
      TodayPartGrows(db, t, tid, now, false);
      TomorrowPartGrows(db1, t, tid, now, false);
      CountsGrow(db1, r, tid, now.day);
      assert r.templates == db.templates;
      PartsSettled(r, t, tid, now2, a, b);
    }
  }

  /** Once today's count and tomorrow's count both find an instance
      wherever the weekday is listed, neither part inserts. */
  lemma PartsSettled(r: Db, t: Template, tid: int, now: Instant, a: bool, b: bool)
    requires Listed(RepeatDays(t.repeatDays), Weekday(now.day)) ==> CreatedOn(r, tid, now.day)
    requires Listed(RepeatDays(t.repeatDays), Weekday(now.day + 1)) ==> ExpiresOn(r, tid, now.day + 1)
    ensures TomorrowPart(TodayPart(r, t, tid, now, a), t, tid, now, b) == r
  {
    assert TodayPart(r, t, tid, now, a) == r;
  }

  /** Tomorrow's instance is created with tomorrow's midnight as its
      creation time, so on the next day the today-check of the same
      template finds it and adds no second instance for that day, unless
      an instance expiring tomorrow existed before the step. */
  lemma LegacyNextDay(db: Db, tid: int, now: Instant, a: bool)
    requires Wf(db) && InRange(now.day + 1)
    requires tid in db.templates && db.templates[tid].repeatDays != ""
    requires Listed(RepeatDays(db.templates[tid].repeatDays), Weekday(now.day + 1))
    ensures CreatedOn(LegacyStep(db, tid, now, a, false), tid, now.day + 1)
            || ExpiresOn(db, tid, now.day + 1)
  {
    var t := db.templates[tid];
    var db1 := TodayPart(db, t, tid, now, a);
    TodayPartGrows(db, t, tid, now, a);
    TomorrowPartGrows(db1, t, tid, now, false);
    if ExpiresOn(db1, tid, now.day + 1) {
      TodayRowNotCounted(db, t, tid, now, a);
    }
  }

  /** The whole pass keeps the store well formed and keeps every row; each
      row it adds is an available daily task of a listed template. */
  lemma {:induction false} LegacyFoldGrows(db: Db, order: seq<int>, now: Instant, todayFails: set<int>, tomorrowFails: set<int>)
    requires Wf(db) && InRange(now.day + 1)
    ensures var r := LegacyFold(db, order, now, todayFails, tomorrowFails);
      Wf(r) && Grows(db, r)
      && forall id :: id in r.tasks && id !in db.tasks ==>
           r.tasks[id].kind == "daily" && r.tasks[id].status == Available
           && r.tasks[id].template.Some? && r.tasks[id].template.value in order
    decreases |order|
  {
    if |order| > 0 {
      var init := order[..|order| - 1];
      var last := order[|order| - 1];
      var mid := LegacyFold(db, init, now, todayFails, tomorrowFails);
      LegacyFoldGrows(db, init, now, todayFails, tomorrowFails);
      LegacyStepGrows(mid, last, now, last in todayFails, last in tomorrowFails);
      assert forall x :: x in init ==> x in order;
    }
  }

  /** As written, every insert of the pass fails on the missing repeat_days
      column, so the pass adds nothing and leaves the store as it was. */
  lemma {:induction false} LegacyFoldAsWritten(db: Db, order: seq<int>, now: Instant, todayFails: set<int>, tomorrowFails: set<int>)
    requires forall x :: x in order ==> x in todayFails && x in tomorrowFails
    ensures LegacyFold(db, order, now, todayFails, tomorrowFails) == db
    decreases |order|
  {
    if |order| > 0 {
      var init := order[..|order| - 1];
      assert forall x :: x in init ==> x in order;
      LegacyFoldAsWritten(db, init, now, todayFails, tomorrowFails);
    }
  }
}
