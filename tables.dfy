/** The application's tables as values (tasks, task templates, players,
    items and exchange records) and what each single-table statement of the
    data layer does to them. Ids are the AUTOINCREMENT keys: a new row gets
    one more than the largest id the table has ever used. */
module Tables {
  import opened Outcomes
  import opened Calendar
  import Text

  /** The status column of a task; a new row defaults to Available. */
  datatype Status = Available | Claimed | Completed | Verified | Expired

  /** A row of the tasks table. start is NULL for rows the legacy handlers
      insert; player and template are NULL until set. */
  datatype Task = Task(
    title: string, description: string, difficulty: string, kind: string,
    reward: int, expiry: string, start: Option<string>, status: Status,
    player: Option<int>, template: Option<int>,
    createdAt: Instant, updatedAt: Instant)

  datatype Template = Template(
    title: string, description: string, difficulty: string, kind: string,
    reward: int, repeatDays: string)

  datatype Player = Player(name: string, emeralds: int)

  datatype Item = Item(name: string, description: string, cost: int, stock: int, expiry: string)

  datatype Exchange = Exchange(player: int, item: int)

  /** The columns an INSERT INTO tasks supplies. */
  datatype Draft = Draft(
    title: string, description: string, difficulty: string, kind: string,
    reward: int, expiry: string, start: Option<string>, template: Option<int>)

  datatype Db = Db(
    tasks: map<int, Task>, templates: map<int, Template>,
    players: map<int, Player>, items: map<int, Item>,
    exchanges: seq<Exchange>,
    lastTask: int, lastTemplate: int, lastItem: int)

  /** A task that has been claimed keeps an owner from then on. */
  predicate Owned(t: Task)
  {
    (t.status == Claimed || t.status == Completed || t.status == Verified) ==> t.player.Some?
  }

  /** A task names no template id that has not been handed out yet. */
  predicate Linked(t: Task, lastTemplate: int)
  {
    t.template.Some? ==> t.template.value <= lastTemplate
  }

  /** Keys lie below the AUTOINCREMENT counters (which never hand out an id
      twice), owned statuses have an owner, and tasks name only template ids
      already handed out. */
  predicate Wf(db: Db)
  {
    0 <= db.lastTask && 0 <= db.lastTemplate && 0 <= db.lastItem
    && (forall id :: id in db.tasks ==> 1 <= id <= db.lastTask && Owned(db.tasks[id]) && Linked(db.tasks[id], db.lastTemplate))
    && (forall id :: id in db.templates ==> 1 <= id <= db.lastTemplate)
    && (forall id :: id in db.items ==> 1 <= id <= db.lastItem)
  }

  // ---------------------------------------------------------------------
  // Status changes

  /** The status changes any statement makes: along available → claimed →
      completed → verified, or from available or claimed to expired. */
  predicate Moves(a: Status, b: Status)
  {
    a == b
    || (a == Available && b == Claimed)
    || (a == Claimed && b == Completed)
    || (a == Completed && b == Verified)
    || ((a == Available || a == Claimed) && b == Expired)
  }

  function Rank(s: Status): nat
  {
    match s
    case Available => 0
    case Claimed => 1
    case Completed => 2
    case Verified => 3
    case Expired => 4
  }

  /** Every allowed move goes forward, so no status is ever revisited. */
  lemma MovesForward(a: Status, b: Status)
    requires Moves(a, b)
    ensures Rank(a) <= Rank(b)
    ensures Rank(a) == Rank(b) ==> a == b
  {
  }

  /** No task disappears and every task's status moves forward. */
  predicate Progress(db: Db, r: Db)
  {
    forall id :: id in db.tasks ==> id in r.tasks && Moves(db.tasks[id].status, r.tasks[id].status)
  }

  /** Across two successive statements a task's status only goes forward,
      and a task that ends where it started never left that status. */
  lemma ProgressForward(x: Db, y: Db, z: Db, id: int)
    requires Progress(x, y) && Progress(y, z) && id in x.tasks
    ensures id in z.tasks && Rank(x.tasks[id].status) <= Rank(z.tasks[id].status)
    ensures z.tasks[id].status == x.tasks[id].status ==> y.tasks[id].status == x.tasks[id].status
  {
    MovesForward(x.tasks[id].status, y.tasks[id].status);
    MovesForward(y.tasks[id].status, z.tasks[id].status);
  }

  /** r is db with at most the status, owner and update time of task id
      changed. */
  predicate TouchesOnly(db: Db, r: Db, id: int)
  {
    r.(tasks := db.tasks) == db
    && r.tasks.Keys == db.tasks.Keys
    && (forall k :: k in db.tasks && k != id ==> r.tasks[k] == db.tasks[k])
    && (id in db.tasks ==> r.tasks[id] == db.tasks[id].(status := r.tasks[id].status,
                                                        player := r.tasks[id].player,
                                                        updatedAt := r.tasks[id].updatedAt))
  }

  /** UPDATE tasks SET status = 'claimed', player_id = ?, updated_at = ?
      WHERE id = ? AND status = 'available' */
  function ClaimTask(db: Db, id: int, player: int, now: Instant): (r: Db)
    ensures TouchesOnly(db, r, id) && Progress(db, r)
    ensures r != db <==> id in db.tasks && db.tasks[id].status == Available
    ensures r != db ==> r.tasks[id].status == Claimed && r.tasks[id].player == Some(player)
  {
    if id in db.tasks && db.tasks[id].status == Available then
      db.(tasks := db.tasks[id := db.tasks[id].(status := Claimed, player := Some(player), updatedAt := now)])
    else db
  }

  /** UPDATE tasks SET status = 'completed', updated_at = ? WHERE id = ? AND
      status = 'claimed' */
  function CompleteTask(db: Db, id: int, now: Instant): (r: Db)
    ensures TouchesOnly(db, r, id) && Progress(db, r)
    ensures r != db <==> id in db.tasks && db.tasks[id].status == Claimed
    ensures r != db ==> r.tasks[id].status == Completed && r.tasks[id].player == db.tasks[id].player
  {
    if id in db.tasks && db.tasks[id].status == Claimed then
      db.(tasks := db.tasks[id := db.tasks[id].(status := Completed, updatedAt := now)])
    else db
  }

  /** UPDATE tasks SET status = 'verified', updated_at = ? WHERE id = ? AND
      status = 'completed' */
  function VerifyTask(db: Db, id: int, now: Instant): (r: Db)
    ensures TouchesOnly(db, r, id) && Progress(db, r)
    ensures r != db <==> id in db.tasks && db.tasks[id].status == Completed
    ensures r != db ==> r.tasks[id].status == Verified && r.tasks[id].player == db.tasks[id].player
  {
    if id in db.tasks && db.tasks[id].status == Completed then
      db.(tasks := db.tasks[id := db.tasks[id].(status := Verified, updatedAt := now)])
    else db
  }

  /** The row an INSERT INTO tasks creates: status and owner take their
      defaults. */
  function NewRow(d: Draft, createdAt: Instant, updatedAt: Instant): Task
  {
    Task(d.title, d.description, d.difficulty, d.kind, d.reward, d.expiry, d.start,
         Available, None, d.template, createdAt, updatedAt)
  }

  /** An INSERT INTO tasks under the next AUTOINCREMENT id. */
  function Insert(db: Db, d: Draft, createdAt: Instant, updatedAt: Instant): (r: Db)
    ensures r.lastTask == db.lastTask + 1 && r.tasks.Keys == db.tasks.Keys + {r.lastTask}
  {
    var id := db.lastTask + 1;
    db.(tasks := db.tasks[id := NewRow(d, createdAt, updatedAt)], lastTask := id)
  }

  /** models.CreateTask: both time columns are the current time. */
  function CreateTask(db: Db, d: Draft, now: Instant): (r: Db)
    ensures r.tasks.Keys == db.tasks.Keys + {r.lastTask} && r.lastTask == db.lastTask + 1
    ensures Wf(db) ==> r.lastTask !in db.tasks
    ensures var row := r.tasks[r.lastTask];
      row.createdAt == now && row.updatedAt == now && row.status == Available && row.player.None?
      && row.template == d.template && row.expiry == d.expiry && row.start == d.start
    ensures forall k :: k in db.tasks && k != r.lastTask ==> r.tasks[k] == db.tasks[k]
    ensures r.(tasks := db.tasks, lastTask := db.lastTask) == db
  {
    Insert(db, d, now, now)
  }

  /** An insert keeps every existing row, adds one available, unowned row
      under a fresh id, and keeps the store well formed. */
  lemma InsertFresh(db: Db, d: Draft, createdAt: Instant, updatedAt: Instant)
    requires Wf(db) && (d.template.Some? ==> d.template.value <= db.lastTemplate)
    ensures var r := Insert(db, d, createdAt, updatedAt);
      Wf(r) && Progress(db, r) && r.lastTask !in db.tasks
      && (forall k :: k in db.tasks ==> r.tasks[k] == db.tasks[k])
      && r.tasks[r.lastTask].status == Available && r.tasks[r.lastTask].player.None?
      && r.tasks[r.lastTask].template == d.template
      && r.(tasks := db.tasks, lastTask := db.lastTask) == db
  {
    var r := Insert(db, d, createdAt, updatedAt);
    assert forall k :: k in r.tasks ==> k == r.lastTask || k in db.tasks;
  }

  /** UPDATE players SET emeralds = ? WHERE id = ? */
  function UpdatePlayerEmeralds(db: Db, id: int, emeralds: int): (r: Db)
    ensures r.(players := db.players) == db && r.players.Keys == db.players.Keys
    ensures forall k :: k in db.players && k != id ==> r.players[k] == db.players[k]
    ensures id in db.players ==> r.players[id] == db.players[id].(emeralds := emeralds)
  {
    if id in db.players then db.(players := db.players[id := db.players[id].(emeralds := emeralds)])
    else db
  }

  /** UPDATE items SET stock = ? WHERE id = ? */
  function UpdateItemStock(db: Db, id: int, stock: int): (r: Db)
    ensures r.(items := db.items) == db && r.items.Keys == db.items.Keys
    ensures forall k :: k in db.items && k != id ==> r.items[k] == db.items[k]
    ensures id in db.items ==> r.items[id] == db.items[id].(stock := stock)
  {
    if id in db.items then db.(items := db.items[id := db.items[id].(stock := stock)])
    else db
  }

  /** DELETE FROM task_templates WHERE id = ?: the instances stay. */
  function DeleteTaskTemplate(db: Db, id: int): (r: Db)
    ensures r.(templates := db.templates) == db
    ensures r.templates.Keys == db.templates.Keys - {id}
    ensures forall k :: k in r.templates ==> r.templates[k] == db.templates[k]
  {
    db.(templates := db.templates - {id})
  }

  /** INSERT INTO task_templates; the new id is what LastInsertId reports.
      In a well-formed store it is an id no template has. */
  function CreateTaskTemplate(db: Db, t: Template): (r: Db)
    ensures r.lastTemplate == db.lastTemplate + 1
    ensures r.templates == db.templates[r.lastTemplate := t]
    ensures Wf(db) ==> r.lastTemplate !in db.templates
    ensures r.(templates := db.templates, lastTemplate := db.lastTemplate) == db
  {
    var id := db.lastTemplate + 1;
    db.(templates := db.templates[id := t], lastTemplate := id)
  }

  /** INSERT INTO items, under an id no item of a well-formed store has. */
  function CreateItem(db: Db, item: Item): (r: Db)
    ensures r.lastItem == db.lastItem + 1 && r.items == db.items[r.lastItem := item]
    ensures Wf(db) ==> r.lastItem !in db.items
    ensures r.(items := db.items, lastItem := db.lastItem) == db
  {
    var id := db.lastItem + 1;
    db.(items := db.items[id := item], lastItem := id)
  }

  /** INSERT INTO exchange_records (player_id, item_id): the records so far
      are kept, in order, and one is added at the end. */
  function CreateExchangeRecord(db: Db, player: int, item: int): (r: Db)
    ensures |r.exchanges| == |db.exchanges| + 1 && r.exchanges[..|db.exchanges|] == db.exchanges
    ensures r.exchanges[|db.exchanges|] == Exchange(player, item)
    ensures r.(exchanges := db.exchanges) == db
  {
    db.(exchanges := db.exchanges + [Exchange(player, item)])
  }

  /** The task statements keep the store well formed. */
  lemma TaskStatementsKeepWf(db: Db, id: int, player: int, now: Instant)
    requires Wf(db)
    ensures Wf(ClaimTask(db, id, player, now)) && Wf(CompleteTask(db, id, now))
    ensures Wf(VerifyTask(db, id, now))
  {
  }

  /** So do the statements on the other tables. */
  lemma OtherStatementsKeepWf(db: Db, id: int, n: int, t: Template, item: Item)
    requires Wf(db)
    ensures Wf(DeleteTaskTemplate(db, id)) && Wf(CreateTaskTemplate(db, t)) && Wf(CreateItem(db, item))
    ensures Wf(UpdatePlayerEmeralds(db, id, n)) && Wf(UpdateItemStock(db, id, n))
    ensures Wf(CreateExchangeRecord(db, n, id))
  {
  }

  // ---------------------------------------------------------------------
  // The smallest key (SELECT id FROM players ORDER BY id LIMIT 1)

  lemma Inhabited(s: set<int>)
    ensures s != {} ==> exists x :: x in s
  {
    if forall x :: x !in s {
      assert s == {};
    }
  }

  ghost function Least(s: set<int>): (m: int)
    requires s != {}
    ensures m in s && forall k :: k in s ==> m <= k
  {
    Inhabited(s);
    var x :| x in s;
    if s == {x} then x
    else
      var y := Least(s - {x});
      assert forall k :: k in s ==> k == x || k in s - {x};
      if x < y then x else y
  }

  ghost function FirstPlayer(db: Db): Option<int>
  {
    if db.players == map[] then None else Some(Least(db.players.Keys))
  }

  /** The first player is the player with the smallest id. */
  lemma FirstPlayerIs(db: Db, p: int)
    requires p in db.players && forall k :: k in db.players ==> p <= k
    ensures FirstPlayer(db) == Some(p)
  {
    assert p in db.players.Keys;
  }

  // ---------------------------------------------------------------------
  // The listings of models.go

  /** WHERE status = 'available' AND (start_time IS NULL OR start_time <= ?)
      AND expiry_time > ? */
  predicate OpenAt(t: Task, now: string)
  {
    t.status == Available && (t.start.None? || Text.LessEq(t.start.value, now)) && Text.Less(now, t.expiry)
  }

  /** WHERE status = 'available' AND start_time > ? (NULL compares false) */
  predicate UpcomingAt(t: Task, now: string)
  {
    t.status == Available && t.start.Some? && Text.Less(now, t.start.value)
  }

  /** WHERE status IN ('claimed', 'completed') AND player_id = ? */
  predicate HeldBy(t: Task, player: int)
  {
    (t.status == Claimed || t.status == Completed) && t.player == Some(player)
  }

  function AvailableIds(db: Db, now: Instant): set<int>
    requires ValidInstant(now)
  {
    set id | id in db.tasks && OpenAt(db.tasks[id], Stamp(now))
  }

  function UpcomingIds(db: Db, now: Instant): set<int>
    requires ValidInstant(now)
  {
    set id | id in db.tasks && UpcomingAt(db.tasks[id], Stamp(now))
  }

  function ClaimedIds(db: Db, player: int): set<int>
  {
    set id | id in db.tasks && HeldBy(db.tasks[id], player)
  }

  /** No task is listed both as available and as upcoming. */
  lemma AvailableUpcomingDisjoint(db: Db, now: Instant)
    requires ValidInstant(now)
    ensures AvailableIds(db, now) * UpcomingIds(db, now) == {}
  {
    var s := Stamp(now);
    forall id | id in AvailableIds(db, now) && id in UpcomingIds(db, now)
      ensures false
    {
      var t := db.tasks[id];
      Text.NotLessEq(t.start.value, s);
    }
  }

  /** A claim takes exactly the claimed task off the available listing, at
      any time the listing is read. */
  lemma ClaimLeavesAvailable(db: Db, id: int, player: int, now: Instant, at: Instant)
    requires ValidInstant(at)
    ensures AvailableIds(ClaimTask(db, id, player, now), at) == AvailableIds(db, at) - {id}
  {
    var r := ClaimTask(db, id, player, now);
    if id in db.tasks && db.tasks[id].status == Available {
      assert !OpenAt(r.tasks[id], Stamp(at));
    }
  }

  /** A claim adds the task to the claimer's listing when, and only when, it
      was available. */
  lemma ClaimJoinsClaimed(db: Db, id: int, player: int, now: Instant)
    ensures ClaimedIds(ClaimTask(db, id, player, now), player)
         == ClaimedIds(db, player) + (if id in db.tasks && db.tasks[id].status == Available then {id} else {})
  {
    var r := ClaimTask(db, id, player, now);
    if id in db.tasks && db.tasks[id].status == Available {
      assert HeldBy(r.tasks[id], player);
    }
  }

  /** Completing keeps the task in its owner's listing; no listing of any
      player changes. */
  lemma CompleteKeepsClaimed(db: Db, id: int, now: Instant, player: int)
    ensures ClaimedIds(CompleteTask(db, id, now), player) == ClaimedIds(db, player)
  {
    var r := CompleteTask(db, id, now);
    if id in db.tasks && db.tasks[id].status == Claimed {
      assert HeldBy(r.tasks[id], player) <==> HeldBy(db.tasks[id], player);
    }
  }

  /** Verifying a completed task takes it off every claimed listing. */
  lemma VerifyLeavesClaimed(db: Db, id: int, now: Instant, player: int)
    ensures ClaimedIds(VerifyTask(db, id, now), player)
         == ClaimedIds(db, player) - (if id in db.tasks && db.tasks[id].status == Completed then {id} else {})
  {
    var r := VerifyTask(db, id, now);
    if id in db.tasks && db.tasks[id].status == Completed {
      assert !HeldBy(r.tasks[id], player);
    }
  }

  // ---------------------------------------------------------------------
  // The expiry sweep of the refresh cycle

  /** UPDATE tasks SET status = 'expired' WHERE expiry_time < ? AND status NOT
      IN ('completed', 'verified', 'expired'), on one row. */
  function ExpireRow(t: Task, now: string): Task
  {
    if Text.Less(t.expiry, now) && (t.status == Available || t.status == Claimed) then t.(status := Expired)
    else t
  }

  function Sweep(db: Db, now: Instant): (r: Db)
    requires ValidInstant(now)
    ensures r.(tasks := db.tasks) == db && r.tasks.Keys == db.tasks.Keys
  {
    db.(tasks := map id | id in db.tasks :: ExpireRow(db.tasks[id], Stamp(now)))
  }

  /** The sweep expires exactly the overdue available and claimed tasks,
      changes nothing else about them or any other row, and keeps the store
      well formed. */
  lemma SweepExact(db: Db, now: Instant)
    requires ValidInstant(now)
    ensures var r := Sweep(db, now);
      r.(tasks := db.tasks) == db && r.tasks.Keys == db.tasks.Keys && Progress(db, r)
      && (Wf(db) ==> Wf(r))
      && forall id :: id in db.tasks ==>
           ((r.tasks[id] != db.tasks[id])
            <==> (Text.Less(db.tasks[id].expiry, Stamp(now))
                  && (db.tasks[id].status == Available || db.tasks[id].status == Claimed)))
           && r.tasks[id] == db.tasks[id].(status := r.tasks[id].status)
  {
  }

  /** After the sweep no available or claimed task is overdue, so a second
      sweep at the same time changes nothing. */
  lemma SweepIdempotent(db: Db, now: Instant)
    requires ValidInstant(now)
    ensures Sweep(Sweep(db, now), now) == Sweep(db, now)
  {
    var r := Sweep(db, now);
    assert forall id :: id in r.tasks ==> ExpireRow(r.tasks[id], Stamp(now)) == r.tasks[id];
  }

  /** The legacy sweep: UPDATE tasks SET status = 'completed' WHERE type =
      'daily' AND status = 'claimed' AND date(updated_at) < date('now'), on
      one row. */
  function StaleToCompleted(t: Task, today: nat): Task
  {
    if t.kind == "daily" && t.status == Claimed && t.updatedAt.day < today then t.(status := Completed)
    else t
  }

  function LegacySweep(db: Db, now: Instant): (r: Db)
    ensures r.(tasks := db.tasks) == db && r.tasks.Keys == db.tasks.Keys
  {
    db.(tasks := map id | id in db.tasks :: StaleToCompleted(db.tasks[id], now.day))
  }

  /** The legacy sweep completes exactly the daily tasks claimed before
      today, changes nothing else, and a second run changes nothing more. */
  lemma LegacySweepExact(db: Db, now: Instant)
    ensures var r := LegacySweep(db, now);
      r.(tasks := db.tasks) == db && r.tasks.Keys == db.tasks.Keys && Progress(db, r)
      && (Wf(db) ==> Wf(r))
      && LegacySweep(r, now) == r
      && forall id :: id in db.tasks ==>
           ((r.tasks[id] != db.tasks[id])
            <==> (db.tasks[id].kind == "daily" && db.tasks[id].status == Claimed
                  && db.tasks[id].updatedAt.day < now.day))
           && r.tasks[id] == db.tasks[id].(status := r.tasks[id].status)
  {
    var r := LegacySweep(db, now);
    assert forall id :: id in r.tasks ==> StaleToCompleted(r.tasks[id], now.day) == r.tasks[id];
  }
}
