/** The shop handlers of the handlers package: the purchase of an item by
    the first player, and the validation of the item forms. The purchase
    opens a transaction but writes through the store outside it, so each
    of its three writes stands on its own. */
module ExchangeHandlers {
  import opened Outcomes
  import opened Numerals
  import opened Calendar
  import opened Tables
  import opened Models
  import Text
  import TaskHandlers

  /** Where a purchase meets a failing call, if anywhere. */
  datatype Stage = Nowhere | AtBegin | AtDebit | AtStock | AtRecord | AtCommit

  ghost function ExchangeSpec(db: Db, idText: string, failAt: Stage): (Outcome, Db)
  {
    match TaskHandlers.ParseId(idText)
    case Err(e) => (Fail(e), db)
    case Ok(item) =>
      match FirstPlayer(db)
      case None => (Fail(NotFound), db)
      case Some(p) =>
        if failAt == AtBegin then (Fail(StoreFailure), db)
        else if item !in db.items then (Fail(NotFound), db)
        else
          var it := db.items[item];
          var balance := db.players[p].emeralds;
          if it.stock <= 0 then (Fail(OutOfStock), db)
          else if balance < it.cost then (Fail(NotEnoughEmeralds), db)
          else Writes(db, p, item, balance, it, failAt)
  }

  /** The three writes of a purchase, each its own statement, then the
      commit of the (empty) transaction. */
  function Writes(db: Db, p: int, item: int, balance: int, it: Item, failAt: Stage): (Outcome, Db)
  {
    if failAt == AtDebit then (Fail(StoreFailure), db)
    else
      var debited := UpdatePlayerEmeralds(db, p, balance - it.cost);
      if failAt == AtStock then (Fail(StoreFailure), debited)
      else
        var taken := UpdateItemStock(debited, item, it.stock - 1);
        if failAt == AtRecord then (Fail(StoreFailure), taken)
        else
          var recorded := CreateExchangeRecord(taken, p, item);
          (if failAt == AtCommit then Fail(StoreFailure) else Pass, recorded)
  }

  method WritePurchase(store: Store, p: int, item: int, balance: int, it: Item, failAt: Stage) returns (o: Outcome)
    modifies store
    ensures (o, store.Snapshot()) == Writes(old(store.Snapshot()), p, item, balance, it, failAt)
  {
    o := store.UpdatePlayerEmeralds(p, balance - it.cost, failAt == AtDebit);
    if o.Fail? {
      return;
    }
    o := store.UpdateItemStock(item, it.stock - 1, failAt == AtStock);
    if o.Fail? {
      return;
    }
    o := store.CreateExchangeRecord(p, item, failAt == AtRecord);
    if o.Fail? {
      return;
    }
    if failAt == AtCommit {
      o := Fail(StoreFailure);
    }
  }

  /** handlers.ExchangeHandler */
  method ExchangeHandler(store: Store, idText: string, failAt: Stage) returns (o: Outcome)
    modifies store
    ensures (o, store.Snapshot()) == ExchangeSpec(old(store.Snapshot()), idText, failAt)
  {
    var parsed := TaskHandlers.ParseId(idText);
    if parsed.Err? {
      return Fail(parsed.error);
    }
    var itemId := parsed.value;
    var first := store.GetFirstPlayerID();
    if first.Err? {
      return Fail(first.error);
    }
    var p := first.value;
    if failAt == AtBegin {
      return Fail(StoreFailure);
    }
    var found := store.GetItemInfo(itemId);
    if found.Err? {
      return Fail(found.error);
    }
    var item := found.value;
    if item.stock <= 0 {
      return Fail(OutOfStock);
    }
    // the first player's row exists, so this read finds it
    var player := store.GetPlayerInfo(p);
    if player.value.emeralds < item.cost {
      return Fail(NotEnoughEmeralds);
    }
    o := WritePurchase(store, p, itemId, player.value.emeralds, item, failAt);
  }

  /** A purchase succeeds exactly when the item exists, is in stock and the
      first player can afford it, and no call fails. It then debits the
      cost, takes one from the stock and appends one record, and changes
      nothing else. A refusal changes nothing. */
  lemma ExchangeOutcome(db: Db, idText: string, failAt: Stage)
    ensures var (o, r) := ExchangeSpec(db, idText, failAt);
      (o == Pass <==>
         TaskHandlers.ParseId(idText).Ok? && FirstPlayer(db).Some?
         && TaskHandlers.ParseId(idText).value in db.items
         && db.items[TaskHandlers.ParseId(idText).value].stock > 0
         && db.players[FirstPlayer(db).value].emeralds >= db.items[TaskHandlers.ParseId(idText).value].cost
         && failAt == Nowhere)
      && (o.Fail? && o.error != StoreFailure ==> r == db)
      && (o == Pass ==>
            var item := TaskHandlers.ParseId(idText).value;
            var p := FirstPlayer(db).value;
            r.players == db.players[p := db.players[p].(emeralds := db.players[p].emeralds - db.items[item].cost)]
            && r.items == db.items[item := db.items[item].(stock := db.items[item].stock - 1)]
            && r.exchanges == db.exchanges + [Exchange(p, item)]
            && r.(players := db.players, items := db.items, exchanges := db.exchanges) == db)
  {
  }

  /** No balance and no stock is negative. */
  predicate NonNegative(db: Db)
  {
    (forall p :: p in db.players ==> db.players[p].emeralds >= 0)
    && (forall i :: i in db.items ==> db.items[i].stock >= 0)
  }

  /** The checks before the writes keep balances and stocks non-negative,
      whichever call fails. */
  lemma ExchangeKeepsNonNegative(db: Db, idText: string, failAt: Stage)
    requires NonNegative(db)
    ensures NonNegative(ExchangeSpec(db, idText, failAt).1)
  {
  }

  /** The writes are not one transaction: when taking from the stock fails,
      the player has paid, the stock is unchanged and no record is made. */
  lemma ExchangePartial(db: Db, idText: string)
    requires ExchangeSpec(db, idText, Nowhere).0 == Pass
    ensures var (o, r) := ExchangeSpec(db, idText, AtStock);
      var item := TaskHandlers.ParseId(idText).value;
      var p := FirstPlayer(db).value;
      o == Fail(StoreFailure)
      && r.players[p].emeralds == db.players[p].emeralds - db.items[item].cost
      && r.items == db.items && r.exchanges == db.exchanges
  {
    ExchangeOutcome(db, idText, Nowhere);
  }

  // ---------------------------------------------------------------------
  // The item forms

  datatype ItemForm = ItemForm(name: string, description: string, cost: string, stock: string, expiry: string)

  /** The shared checks of both item forms: cost a positive integer, stock a
      non-negative one. */
  function ValidateItemForm(f: ItemForm): (r: Result<(int, int)>)
    ensures r.Ok? <==>
      f.name != "" && f.cost != "" && f.stock != ""
      && Atoi(f.cost).Some? && Atoi(f.cost).value > 0 && Atoi(f.stock).Some? && Atoi(f.stock).value >= 0
    ensures r.Ok? ==> r.value.0 > 0 && r.value.1 >= 0 && r.value == (Atoi(f.cost).value, Atoi(f.stock).value)
    ensures r.Err? && (f.name == "" || f.cost == "" || f.stock == "") ==> r.error == MissingFields
  {
    if f.name == "" || f.cost == "" || f.stock == "" then Err(MissingFields)
    else
      match Atoi(f.cost)
      case None => Err(BadCost)
      case Some(cost) =>
        if cost <= 0 then Err(BadCost)
        else
          match Atoi(f.stock)
          case None => Err(BadStock)
          case Some(stock) => if stock < 0 then Err(BadStock) else Ok((cost, stock))
  }

  /** The expiry of an item: the form's text, or thirty days from now. */
  function ItemExpiry(text: string, now: Instant): string
    requires ValidInstant(now)
  {
    if text != "" then text else Stamp(Instant(now.day + 30, now.second))
  }

  /** The default expiry is thirty days on, at the same time of day, so the
      item stays on sale until then. */
  lemma ItemExpiryDefault(now: Instant)
    requires ValidInstant(now) && InRange(now.day + 30)
    ensures ClockOf(Instant(now.day + 30, now.second)).date == Civil(now.day + 30)
    ensures Text.Less(Stamp(now), ItemExpiry("", now))
  {
    InRangeBelow(now.day, now.day + 30);
    StampOrder(now, Instant(now.day + 30, now.second));
  }

  ghost function CreateItemSpec(db: Db, f: ItemForm, now: Instant, fail: bool): (Outcome, Db)
    requires ValidInstant(now)
  {
    match ValidateItemForm(f)
    case Err(e) => (Fail(e), db)
    case Ok((cost, stock)) =>
      if fail then (Fail(StoreFailure), db)
      else (Pass, CreateItem(db, Item(f.name, f.description, cost, stock, ItemExpiry(f.expiry, now))))
  }

  /** handlers.CreateItemHandler */
  method CreateItemHandler(store: Store, f: ItemForm, now: Instant, fail: bool) returns (o: Outcome)
    requires ValidInstant(now)
    modifies store
    ensures (o, store.Snapshot()) == CreateItemSpec(old(store.Snapshot()), f, now, fail)
  {
    var valid := ValidateItemForm(f);
    if valid.Err? {
      return Fail(valid.error);
    }
    var (cost, stock) := valid.value;
    o := store.CreateItem(Item(f.name, f.description, cost, stock, ItemExpiry(f.expiry, now)), fail);
  }

  /** A created item has a positive cost and a stock of at least zero, so
      creation keeps balances and stocks non-negative. */
  lemma CreateItemOutcome(db: Db, f: ItemForm, now: Instant, fail: bool)
    requires ValidInstant(now) && Wf(db) && NonNegative(db)
    ensures var (o, r) := CreateItemSpec(db, f, now, fail);
      Wf(r) && NonNegative(r)
      && (o == Pass <==> ValidateItemForm(f).Ok? && !fail)
      && (o.Fail? ==> r == db)
      && (o == Pass ==> db.lastItem + 1 !in db.items && r.items == db.items[db.lastItem + 1 := r.items[db.lastItem + 1]]
                        && r.items[db.lastItem + 1].cost > 0 && r.items[db.lastItem + 1].name == f.name)
  {
    var (o, r) := CreateItemSpec(db, f, now, fail);
    if o == Pass {
      var (cost, stock) := ValidateItemForm(f).value;
      OtherStatementsKeepWf(db, 0, 0, Template("", "", "", "", 0, ""), Item(f.name, f.description, cost, stock, ItemExpiry(f.expiry, now)));
    }
  }

  /** The checks of the update form: the item id first must be present,
      then be an integer, then the same checks as creation. */
  function ValidateItemUpdate(idText: string, f: ItemForm): (r: Result<(int, int, int)>)
    ensures idText == "" ==> r == Err(MissingFields)
    ensures r.Ok? ==> Atoi(idText) == Some(r.value.0) && r.value.1 > 0 && r.value.2 >= 0
    ensures r.Ok? ==> ValidateItemForm(f) == Ok((r.value.1, r.value.2))
  {
    if idText == "" || f.name == "" || f.cost == "" || f.stock == "" then Err(MissingFields)
    else
      match Atoi(idText)
      case None => Err(BadId)
      case Some(id) =>
        match ValidateItemForm(f)
        case Err(e) => Err(e)
        case Ok((cost, stock)) => Ok((id, cost, stock))
  }

  /** Update and creation accept the same cost and stock: with a readable
      item id both forms give the same verdict and the same numbers. */
  lemma UpdateAgreesWithCreate(idText: string, f: ItemForm)
    requires idText != "" && Atoi(idText).Some?
    ensures ValidateItemUpdate(idText, f).Ok? <==> ValidateItemForm(f).Ok?
    ensures ValidateItemUpdate(idText, f).Ok? ==>
      ValidateItemUpdate(idText, f).value == (Atoi(idText).value, ValidateItemForm(f).value.0, ValidateItemForm(f).value.1)
    ensures ValidateItemUpdate(idText, f).Err? ==> ValidateItemUpdate(idText, f).error == ValidateItemForm(f).error
  {
  }
}
