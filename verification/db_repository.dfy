/** `ItemsDbRepository`: the durable store. `SaveAsync` splits a batch by
    entity type, adds each non-empty part to its table and commits once;
    `GetAsync` lists restaurants then menu items; `ClearAsync` does nothing. */
module DbRepository {
  import opened Wrappers
  import opened Models

  /** The two tables. A stored menu item's link indexes `restaurants`. */
  datatype Store = Store(restaurants: seq<Restaurant>, menuItems: seq<MenuItem>)

  /** The calls `SaveAsync` makes on the database context. */
  datatype DbOp =
    | AddRestaurants(rs: seq<Restaurant>)
    | AddMenuItems(ms: seq<MenuItem>)
    | SaveChanges

  /** The arguments of one `ApproveAsync` call: the restaurant keys and the
      menu item keys to approve. What the store then does is not part of
      this model. */
  datatype ApproveCall = ApproveCall(restaurantIds: seq<int>, menuItemIds: seq<Guid>)

  /** What an approval action does: refuse, or hand the store one call. */
  datatype ApproveOutcome = Forbidden | Approved(call: ApproveCall)

  /** What the database can hold: the foreign key `RestaurantId` is
      required, so every stored menu item links to a stored restaurant. */
  predicate WellFormed(db: Store) {
    forall m <- db.menuItems :: m.restaurant.Some? && m.restaurant.value < |db.restaurants|
  }

  /** The database accepts the batch's foreign keys: every menu item links
      to a restaurant of the batch. A null navigation leaves `RestaurantId`
      at 0, which names no restaurant, so `SaveChanges` rejects the batch. */
  predicate ForeignKeysHold(items: seq<Item>) {
    forall k :: 0 <= k < |MenuItemsOf(items)| ==>
      MenuItemsOf(items)[k].restaurant.Some? && MenuItemsOf(items)[k].restaurant.value < |RestaurantsOf(items)|
  }

  /** Every link of a batch resolves inside the batch's own restaurants. */
  predicate LinksResolve(items: seq<Item>) {
    forall m <- MenuItemsOf(items) :: m.restaurant.Some? ==> m.restaurant.value < |RestaurantsOf(items)|
  }

  /** The calls of `SaveAsync`: add the restaurants if there are any, add the
      menu items if there are any, then exactly one `SaveChanges`, last. */
  function SaveOps(items: seq<Item>): (ops: seq<DbOp>)
    ensures |ops| >= 1 && ops[|ops| - 1] == SaveChanges
    ensures forall i :: 0 <= i < |ops| - 1 ==> !ops[i].SaveChanges?
    ensures forall op <- ops :: op.AddRestaurants? ==> op.rs == RestaurantsOf(items) && |op.rs| > 0
    ensures forall op <- ops :: op.AddMenuItems? ==> op.ms == MenuItemsOf(items) && |op.ms| > 0
    ensures AddRestaurants(RestaurantsOf(items)) in ops <==> |RestaurantsOf(items)| > 0
    ensures AddMenuItems(MenuItemsOf(items)) in ops <==> |MenuItemsOf(items)| > 0
  {
    var rs := RestaurantsOf(items);
    var ms := MenuItemsOf(items);
    (if |rs| > 0 then [AddRestaurants(rs)] else [])
    + (if |ms| > 0 then [AddMenuItems(ms)] else [])
    + [SaveChanges]
  }

  /** The rows written for restaurants: `ExternalId` is not mapped to a
      column, so the store does not keep it. */
  function Rows(rs: seq<Restaurant>): (rows: seq<Restaurant>)
    ensures |rows| == |rs|
  {
    seq(|rs|, j requires 0 <= j < |rs| => rs[j].(externalId := None))
  }

  /** The rows written for menu items: batch-relative links become store
      links once the batch's restaurants are appended after `offset` stored
      ones, and the unmapped `ExternalId` is not kept. */
  function Rebase(ms: seq<MenuItem>, offset: nat): (ms': seq<MenuItem>)
    ensures |ms'| == |ms|
  {
    seq(|ms|, j requires 0 <= j < |ms| =>
      ms[j].(restaurant := if ms[j].restaurant.Some? then Some(ms[j].restaurant.value + offset) else None,
             externalId := None))
  }

  /** The additions the context tracks until `SaveChanges`. */
  datatype Tracked = Tracked(restaurants: seq<Restaurant>, menuItems: seq<MenuItem>)

  /** Plays `ops` against the store: adds are tracked, `SaveChanges` writes
      what is tracked. */
  function Run(db: Store, tracked: Tracked, ops: seq<DbOp>): Store
    decreases |ops|
  {
    if |ops| == 0 then db
    else match ops[0]
      case AddRestaurants(rs) => Run(db, tracked.(restaurants := tracked.restaurants + rs), ops[1..])
      case AddMenuItems(ms) => Run(db, tracked.(menuItems := tracked.menuItems + ms), ops[1..])
      case SaveChanges =>
        var db' := Store(db.restaurants + Rows(tracked.restaurants),
                         db.menuItems + Rebase(tracked.menuItems, |db.restaurants|));
        Run(db', Tracked([], []), ops[1..])
  }

  /** `SaveAsync`: appends the rows of the batch's restaurants and menu
      items, each in batch order, to their tables. */
  function Save(db: Store, items: seq<Item>): (db': Store)
    ensures db'.restaurants == db.restaurants + Rows(RestaurantsOf(items))
    ensures db'.menuItems == db.menuItems + Rebase(MenuItemsOf(items), |db.restaurants|)
  {
    SaveOpsWriteOnce(db, items);
    Run(db, Tracked([], []), SaveOps(items))
  }

  /** Playing `SaveOps` writes the whole batch in the single `SaveChanges`. */
  lemma SaveOpsWriteOnce(db: Store, items: seq<Item>)
    ensures Run(db, Tracked([], []), SaveOps(items))
      == Store(db.restaurants + Rows(RestaurantsOf(items)),
               db.menuItems + Rebase(MenuItemsOf(items), |db.restaurants|))
  {
    var rs := RestaurantsOf(items);
    var ms := MenuItemsOf(items);
    var written := Store(db.restaurants + Rows(rs), db.menuItems + Rebase(ms, |db.restaurants|));
    var tracked := Tracked(rs, ms);
    assert Run(db, tracked, [SaveChanges]) == written;
    if |ms| > 0 {
      assert Run(db, Tracked(rs, []), [AddMenuItems(ms), SaveChanges]) == Run(db, tracked, [SaveChanges]);
    } else {
      assert ms == [] && rs + [] == rs;
    }
    if |rs| > 0 {
      var rest := SaveOps(items)[1..];
      assert Run(db, Tracked([], []), SaveOps(items)) == Run(db, Tracked([] + rs, []), rest);
      assert [] + rs == rs;
    }
  }

  /** A saved menu item still resolves to the row of the restaurant it
      resolved to in the batch (so it keeps the same approvers), and every
      earlier stored item resolves as before. */
  lemma SaveKeepsLinks(db: Store, items: seq<Item>)
    ensures var db' := Save(db, items);
      && (forall j :: 0 <= j < |MenuItemsOf(items)| ==>
            && (LinkedRestaurant(db'.menuItems[|db.menuItems| + j], db'.restaurants).Some?
                <==> LinkedRestaurant(MenuItemsOf(items)[j], RestaurantsOf(items)).Some?)
            && (LinkedRestaurant(MenuItemsOf(items)[j], RestaurantsOf(items)).Some? ==>
                  LinkedRestaurant(db'.menuItems[|db.menuItems| + j], db'.restaurants).value
                  == LinkedRestaurant(MenuItemsOf(items)[j], RestaurantsOf(items)).value.(externalId := None))
            && Validators(M(db'.menuItems[|db.menuItems| + j]), db'.restaurants)
               == Validators(M(MenuItemsOf(items)[j]), RestaurantsOf(items)))
      && (forall j :: 0 <= j < |db.menuItems| && WellFormed(db) ==>
            LinkedRestaurant(db'.menuItems[j], db'.restaurants) == LinkedRestaurant(db.menuItems[j], db.restaurants))
  {
    var db' := Save(db, items);
    var ms := MenuItemsOf(items);
    var rs := RestaurantsOf(items);
    forall j | 0 <= j < |ms|
      ensures LinkedRestaurant(db'.menuItems[|db.menuItems| + j], db'.restaurants).Some? <==> LinkedRestaurant(ms[j], rs).Some?
      ensures LinkedRestaurant(ms[j], rs).Some? ==>
        LinkedRestaurant(db'.menuItems[|db.menuItems| + j], db'.restaurants).value == LinkedRestaurant(ms[j], rs).value.(externalId := None)
      ensures Validators(M(db'.menuItems[|db.menuItems| + j]), db'.restaurants) == Validators(M(ms[j]), rs)
    {
      assert db'.menuItems[|db.menuItems| + j] == Rebase(ms, |db.restaurants|)[j];
      if ms[j].restaurant.Some? && ms[j].restaurant.value < |rs| {
        assert db'.restaurants[ms[j].restaurant.value + |db.restaurants|] == Rows(rs)[ms[j].restaurant.value];
      }
    }
  }

  /** Saving a batch whose foreign keys hold keeps a well-formed store well
      formed. */
  lemma SavePreservesWellFormed(db: Store, items: seq<Item>)
    requires WellFormed(db) && ForeignKeysHold(items)
    ensures WellFormed(Save(db, items))
  {
    var db' := Save(db, items);
    forall m <- db'.menuItems
      ensures m.restaurant.Some? && m.restaurant.value < |db'.restaurants|
    {
      var j :| 0 <= j < |db'.menuItems| && db'.menuItems[j] == m;
      if j >= |db.menuItems| {
        var k := j - |db.menuItems|;
        assert m == Rebase(MenuItemsOf(items), |db.restaurants|)[k];
      }
    }
  }

  /** The rows a save adds keep no external id, and differ from the batch's
      entities in nothing else but the rebased link. */
  lemma SaveDropsExternalIds(db: Store, items: seq<Item>)
    ensures var db' := Save(db, items);
      && (forall j :: 0 <= j < |RestaurantsOf(items)| ==>
            db'.restaurants[|db.restaurants| + j] == RestaurantsOf(items)[j].(externalId := None))
      && (forall j :: 0 <= j < |MenuItemsOf(items)| ==>
            db'.menuItems[|db.menuItems| + j].externalId.None? &&
            db'.menuItems[|db.menuItems| + j].(restaurant := MenuItemsOf(items)[j].restaurant)
              == MenuItemsOf(items)[j].(externalId := None))
  {
    var db' := Save(db, items);
    forall j | 0 <= j < |RestaurantsOf(items)|
      ensures db'.restaurants[|db.restaurants| + j] == RestaurantsOf(items)[j].(externalId := None)
    {
      assert db'.restaurants[|db.restaurants| + j] == Rows(RestaurantsOf(items))[j];
    }
    forall j | 0 <= j < |MenuItemsOf(items)|
      ensures db'.menuItems[|db.menuItems| + j].externalId.None?
      ensures db'.menuItems[|db.menuItems| + j].(restaurant := MenuItemsOf(items)[j].restaurant)
        == MenuItemsOf(items)[j].(externalId := None)
    {
      assert db'.menuItems[|db.menuItems| + j] == Rebase(MenuItemsOf(items), |db.restaurants|)[j];
    }
  }

  /** `GetAsync`: every restaurant, then every menu item. */
  function GetAll(db: Store): (items: seq<Item>)
    ensures |items| == |db.restaurants| + |db.menuItems|
    ensures RestaurantsOf(items) == db.restaurants
    ensures MenuItemsOf(items) == db.menuItems
    ensures forall i :: 0 <= i < |items| ==> (items[i].R? <==> i < |db.restaurants|)
  {
    PartitionOfRestaurants(db.restaurants);
    PartitionOfMenuItems(db.menuItems);
    PartitionAppend(RestaurantItems(db.restaurants), MenuItemItems(db.menuItems));
    RestaurantItems(db.restaurants) + MenuItemItems(db.menuItems)
  }
}
