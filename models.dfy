/** The data layer: the store whose tables the statements update in place,
    with one method per statement or keyed read. A statement that the
    database refuses (fail) returns an error and changes nothing; each
    method's new state is the matching function of Tables applied to the
    old one. */
module Models {
  import opened Outcomes
  import opened Calendar
  import opened Tables

  /** `s` lists the ids of `set` once each, in some order. */
  predicate Lists(s: seq<int>, ids: set<int>)
  {
    (forall i :: 0 <= i < |s| ==> s[i] in ids)
    && (forall x :: x in ids ==> x in s)
    && (forall i, j :: 0 <= i < j < |s| ==> s[i] != s[j])
  }

  /** The ids of the templates of type "daily". */
  function DailyTemplateIds(db: Db): set<int>
  {
    set id | id in db.templates && db.templates[id].kind == "daily"
  }

  function Done(fail: bool): Outcome
  {
    if fail then Fail(StoreFailure) else Pass
  }

  class Store {
    var tasks: map<int, Task>
    var templates: map<int, Template>
    var players: map<int, Player>
    var items: map<int, Item>
    var exchanges: seq<Exchange>
    var lastTask: int
    var lastTemplate: int
    var lastItem: int

    function Snapshot(): Db
      reads this
    {
      Db(tasks, templates, players, items, exchanges, lastTask, lastTemplate, lastItem)
    }

    constructor (db: Db)
      ensures Snapshot() == db
    {
      tasks, templates, players, items := db.tasks, db.templates, db.players, db.items;
      exchanges := db.exchanges;
      lastTask, lastTemplate, lastItem := db.lastTask, db.lastTemplate, db.lastItem;
    }

    /** SELECT id FROM players ORDER BY id LIMIT 1: the smallest player id,
        or no row. */
    method GetFirstPlayerID() returns (r: Result<int>)
      ensures r.Ok? <==> players != map[]
      ensures r.Ok? ==> r.value in players && forall k :: k in players ==> r.value <= k
      ensures r == (if FirstPlayer(Snapshot()).Some? then Ok(FirstPlayer(Snapshot()).value) else Err(NotFound))
    {
      var rest := players.Keys;
      var best: Option<int> := None;
      while rest != {}
        invariant rest <= players.Keys
        invariant best.None? <==> rest == players.Keys
        invariant best.Some? ==> best.value in players && forall k :: k in players && k !in rest ==> best.value <= k
        decreases rest
      {
        Inhabited(rest);
        var k :| k in rest;
        if best.None? || k < best.value {
          best := Some(k);
        }
        rest := rest - {k};
      }
      if best.None? {
        assert players.Keys == {};
        assert players == map[];
        r := Err(NotFound);
      } else {
        FirstPlayerIs(Snapshot(), best.value);
        r := Ok(best.value);
      }
    }

    /** A keyed read of a task. */
    method GetTaskByID(id: int) returns (r: Result<Task>)
      ensures r.Ok? <==> id in tasks
      ensures r.Ok? ==> r.value == tasks[id]
      ensures r.Err? ==> r.error == NotFound
    {
      if id in tasks {
        r := Ok(tasks[id]);
      } else {
        r := Err(NotFound);
      }
    }

    /** A keyed read of a player. */
    method GetPlayerInfo(id: int) returns (r: Result<Player>)
      ensures r.Ok? <==> id in players
      ensures r.Ok? ==> r.value == players[id]
      ensures r.Err? ==> r.error == NotFound
    {
      if id in players {
        r := Ok(players[id]);
      } else {
        r := Err(NotFound);
      }
    }

    /** A keyed read of an item. */
    method GetItemInfo(id: int) returns (r: Result<Item>)
      ensures r.Ok? <==> id in items
      ensures r.Ok? ==> r.value == items[id]
      ensures r.Err? ==> r.error == NotFound
    {
      if id in items {
        r := Ok(items[id]);
      } else {
        r := Err(NotFound);
      }
    }

    /** A keyed read of a template. */
    method GetTemplate(id: int) returns (r: Result<Template>)
      ensures r.Ok? <==> id in templates
      ensures r.Ok? ==> r.value == templates[id]
      ensures r.Err? ==> r.error == NotFound
    {
      if id in templates {
        r := Ok(templates[id]);
      } else {
        r := Err(NotFound);
      }
    }

    /** models.GetAllTaskTemplatesByType("daily"): every daily template
        once; the order is the store's. */
    method ListDailyTemplates() returns (ids: seq<int>)
      ensures Lists(ids, DailyTemplateIds(Snapshot()))
    {
      var all := DailyTemplateIds(Snapshot());
      var rest := all;
      ids := [];
      while rest != {}
        invariant rest <= all
        invariant forall i :: 0 <= i < |ids| ==> ids[i] in all && ids[i] !in rest
        invariant forall x :: x in all ==> x in rest || x in ids
        invariant forall i, j :: 0 <= i < j < |ids| ==> ids[i] != ids[j]
        decreases rest
      {
        Inhabited(rest);
        var id :| id in rest;
        ids := ids + [id];
        rest := rest - {id};
      }
    }

    /** models.ClaimTask */
    method ClaimTask(id: int, player: int, now: Instant, fail: bool) returns (o: Outcome)
      modifies this
      ensures o == Done(fail)
      ensures Snapshot() == if fail then old(Snapshot()) else Tables.ClaimTask(old(Snapshot()), id, player, now)
    {
      if fail {
        return Fail(StoreFailure);
      }
      if id in tasks && tasks[id].status == Available {
        tasks := tasks[id := tasks[id].(status := Claimed, player := Some(player), updatedAt := now)];
      }
      o := Pass;
    }

    /** models.CompleteTask */
    method CompleteTask(id: int, now: Instant, fail: bool) returns (o: Outcome)
      modifies this
      ensures o == Done(fail)
      ensures Snapshot() == if fail then old(Snapshot()) else Tables.CompleteTask(old(Snapshot()), id, now)
    {
      if fail {
        return Fail(StoreFailure);
      }
      if id in tasks && tasks[id].status == Claimed {
        tasks := tasks[id := tasks[id].(status := Completed, updatedAt := now)];
      }
      o := Pass;
    }

    /** models.VerifyTask */
    method VerifyTask(id: int, now: Instant, fail: bool) returns (o: Outcome)
      modifies this
      ensures o == Done(fail)
      ensures Snapshot() == if fail then old(Snapshot()) else Tables.VerifyTask(old(Snapshot()), id, now)
    {
      if fail {
        return Fail(StoreFailure);
      }
      if id in tasks && tasks[id].status == Completed {
        tasks := tasks[id := tasks[id].(status := Verified, updatedAt := now)];
      }
      o := Pass;
    }

    /** An INSERT INTO tasks with the given time columns. */
    method InsertTask(d: Draft, createdAt: Instant, updatedAt: Instant, fail: bool) returns (o: Outcome)
      modifies this
      ensures o == Done(fail)
      ensures Snapshot() == if fail then old(Snapshot()) else Insert(old(Snapshot()), d, createdAt, updatedAt)
    {
      if fail {
        return Fail(StoreFailure);
      }
      lastTask := lastTask + 1;
      tasks := tasks[lastTask := NewRow(d, createdAt, updatedAt)];
      o := Pass;
    }

    /** models.CreateTask */
    method CreateTask(d: Draft, now: Instant, fail: bool) returns (o: Outcome)
      modifies this
      ensures o == Done(fail)
      ensures Snapshot() == if fail then old(Snapshot()) else Tables.CreateTask(old(Snapshot()), d, now)
    {
      o := InsertTask(d, now, now, fail);
    }

    /** models.UpdatePlayerEmeralds */
    method UpdatePlayerEmeralds(id: int, emeralds: int, fail: bool) returns (o: Outcome)
      modifies this
      ensures o == Done(fail)
      ensures Snapshot() == if fail then old(Snapshot()) else Tables.UpdatePlayerEmeralds(old(Snapshot()), id, emeralds)
    {
      if fail {
        return Fail(StoreFailure);
      }
      if id in players {
        players := players[id := players[id].(emeralds := emeralds)];
      }
      o := Pass;
    }

    /** models.UpdateItemStock */
    method UpdateItemStock(id: int, stock: int, fail: bool) returns (o: Outcome)
      modifies this
      ensures o == Done(fail)
      ensures Snapshot() == if fail then old(Snapshot()) else Tables.UpdateItemStock(old(Snapshot()), id, stock)
    {
      if fail {
        return Fail(StoreFailure);
      }
      if id in items {
        items := items[id := items[id].(stock := stock)];
      }
      o := Pass;
    }

    /** models.DeleteTaskTemplate */
    method DeleteTaskTemplate(id: int, fail: bool) returns (o: Outcome)
      modifies this
      ensures o == Done(fail)
      ensures Snapshot() == if fail then old(Snapshot()) else Tables.DeleteTaskTemplate(old(Snapshot()), id)
    {
      if fail {
        return Fail(StoreFailure);
      }
      templates := templates - {id};
      o := Pass;
    }

    /** models.CreateTaskTemplate: the new template's id. */
    method CreateTaskTemplate(t: Template, fail: bool) returns (r: Result<int>)
      modifies this
      ensures fail ==> r == Err(StoreFailure) && Snapshot() == old(Snapshot())
      ensures !fail ==> r == Ok(lastTemplate) && Snapshot() == Tables.CreateTaskTemplate(old(Snapshot()), t)
    {
      if fail {
        return Err(StoreFailure);
      }
      lastTemplate := lastTemplate + 1;
      templates := templates[lastTemplate := t];
      r := Ok(lastTemplate);
    }

    /** models.CreateItem */
    method CreateItem(item: Item, fail: bool) returns (o: Outcome)
      modifies this
      ensures o == Done(fail)
      ensures Snapshot() == if fail then old(Snapshot()) else Tables.CreateItem(old(Snapshot()), item)
    {
      if fail {
        return Fail(StoreFailure);
      }
      lastItem := lastItem + 1;
      items := items[lastItem := item];
      o := Pass;
    }

    /** models.CreateExchangeRecord */
    method CreateExchangeRecord(player: int, item: int, fail: bool) returns (o: Outcome)
      modifies this
      ensures o == Done(fail)
      ensures Snapshot() == if fail then old(Snapshot()) else Tables.CreateExchangeRecord(old(Snapshot()), player, item)
    {
      if fail {
        return Fail(StoreFailure);
      }
      exchanges := exchanges + [Exchange(player, item)];
      o := Pass;
    }

    /** The batch UPDATE that expires overdue tasks. */
    method ExpireOverdue(now: Instant, fail: bool) returns (o: Outcome)
      requires ValidInstant(now)
      modifies this
      ensures o == Done(fail)
      ensures Snapshot() == if fail then old(Snapshot()) else Sweep(old(Snapshot()), now)
    {
      if fail {
        return Fail(StoreFailure);
      }
      var stamp := Stamp(now);
      tasks := map id | id in tasks :: ExpireRow(tasks[id], stamp);
      o := Pass;
    }

    /** The legacy batch UPDATE that completes stale claimed daily tasks. */
    method CompleteStale(now: Instant, fail: bool) returns (o: Outcome)
      modifies this
      ensures o == Done(fail)
      ensures Snapshot() == if fail then old(Snapshot()) else LegacySweep(old(Snapshot()), now)
    {
      if fail {
        return Fail(StoreFailure);
      }
      tasks := map id | id in tasks :: StaleToCompleted(tasks[id], now.day);
      o := Pass;
    }
  }
}
