/** `VerificationController`: the approval dashboard. `Index` picks a view
    by who is asking; `Approve` runs behind the approval filter and forwards
    only the key list that matches the item type. */
module Verification {
  import opened Wrappers
  import opened Models
  import opened DbRepository
  import opened Callers
  import opened ApproveFilter
  import opened StoreQueries
  import Text

  /** The pages `Index` can answer with. */
  datatype IndexView =
    | IndexChallenge
    | AdminRestaurants(restaurants: seq<Restaurant>)
    | OwnerRestaurants(restaurants: seq<Restaurant>)
    | OwnerMenuItems(restaurantId: int, menuItems: seq<MenuItem>)

  /** `Index`: a login challenge without an email; the pending restaurants
      for the site admin; otherwise the caller's own restaurants, or the
      pending menu items of the chosen restaurant. */
  function Index(p: Principal, restaurantId: Option<int>, db: Store): (v: IndexView)
    ensures v.IndexChallenge? <==> Text.IsNullOrEmpty(CallerEmail(p))
    ensures v.AdminRestaurants? <==> IsSiteAdmin(CallerEmail(p))
    ensures v.OwnerRestaurants? <==>
      !Text.IsNullOrEmpty(CallerEmail(p)) && !IsSiteAdmin(CallerEmail(p)) && restaurantId.None?
    ensures v.AdminRestaurants? ==>
      forall r: Restaurant :: r in v.restaurants <==> r in db.restaurants && r.status == StatusPending
    ensures v.OwnerRestaurants? ==>
      forall r: Restaurant :: r in v.restaurants <==> r in db.restaurants && r.ownerEmailAddress == CallerEmail(p).value
    ensures v.OwnerMenuItems? ==>
      && restaurantId == Some(v.restaurantId)
      && forall m: MenuItem :: m in v.menuItems <==>
           m in db.menuItems && m.restaurantId == v.restaurantId && m.status == StatusPending
  {
    var email := CallerEmail(p);
    if Text.IsNullOrEmpty(email) then IndexChallenge
    else if Text.EqualsIgnoreCase(email.value, SiteAdminEmail) then
      AdminRestaurants(RestaurantsWithStatus(db, StatusPending))
    else if restaurantId.None? then
      OwnerRestaurants(RestaurantsOwnedBy(db, email.value))
    else
      OwnerMenuItems(restaurantId.value, MenuItemsWithStatus(db, restaurantId, StatusPending))
  }

  /** The owner's menu item page checks only that the caller is signed in and
      not the site admin: every such caller sees the same pending items of
      any restaurant, owned or not. */
  lemma MenuItemPageIgnoresOwnership(p: Principal, q: Principal, restaurantId: int, db: Store)
    requires !Text.IsNullOrEmpty(CallerEmail(p)) && !IsSiteAdmin(CallerEmail(p))
    requires !Text.IsNullOrEmpty(CallerEmail(q)) && !IsSiteAdmin(CallerEmail(q))
    ensures Index(p, Some(restaurantId), db) == Index(q, Some(restaurantId), db)
  {
  }

  /** The key lists `Approve` forwards: one request approves one kind of
      entity, the kind its item type names exactly, and forwards exactly the
      keys requested for that kind (none for a missing list). */
  function ApproveRoute(args: ApproveArgs): (call: ApproveCall)
    ensures call.restaurantIds == [] || call.menuItemIds == []
    ensures call.restaurantIds != [] ==> args.itemType == Some("restaurant") && args.restaurantIds == Some(call.restaurantIds)
    ensures call.menuItemIds != [] ==> args.itemType == Some("menuItem") && args.menuItemIds == Some(call.menuItemIds)
    ensures args.itemType == Some("restaurant") ==> call.restaurantIds == args.restaurantIds.GetOr([])
    ensures args.itemType == Some("menuItem") ==> call.menuItemIds == args.menuItemIds.GetOr([])
  {
    ApproveCall(
      if args.itemType == Some("restaurant") then args.restaurantIds.GetOr([]) else [],
      if args.itemType == Some("menuItem") then args.menuItemIds.GetOr([]) else [])
  }

  /** `Approve` behind its filter: the filter's verdict, then the routed call. */
  function Approve(p: Principal, args: ApproveArgs, db: Store): (o: ApproveOutcome)
    ensures o.Approved? <==> Permits(p, args, db)
    ensures o.Approved? ==> o.call == ApproveRoute(args)
  {
    if Permits(p, args, db) then Approved(ApproveRoute(args)) else Forbidden
  }

  /** Safety of the approval route: every stored entity whose key reaches
      the store is one the caller may approve. Restaurants only by the site
      admin, menu items only by the owner of their linked restaurant. */
  lemma ApprovedKeysAreApprovable(p: Principal, args: ApproveArgs, db: Store)
    requires Approve(p, args, db).Approved?
    ensures var call := Approve(p, args, db).call;
      && (forall r <- db.restaurants :: r.id in call.restaurantIds ==> IsSiteAdmin(CallerEmail(p)))
      && (forall m <- db.menuItems :: m.id in call.menuItemIds ==> OwnsLinkedRestaurant(CallerEmail(p).value, m, db))
  {
    var call := ApproveRoute(args);
    forall r <- db.restaurants | r.id in call.restaurantIds
      ensures IsSiteAdmin(CallerEmail(p))
    {
      assert ChecksRestaurants(args);
      LoadRestaurantsMembers(db, args.restaurantIds.value);
      assert r in LoadRestaurants(db, args.restaurantIds.value);
      RestaurantApprovalNeedsSiteAdmin(p, args, db);
    }
    forall m <- db.menuItems | m.id in call.menuItemIds
      ensures OwnsLinkedRestaurant(CallerEmail(p).value, m, db)
    {
      assert ChecksMenuItems(args);
      LoadMenuItemsMembers(db, args.menuItemIds.value);
      MenuItemApprovalNeedsOwner(p, args, db);
    }
  }

  /** An item type the filter does not inspect ("Restaurant", say) passes
      the filter but approves nothing. */
  lemma UncheckedTypeApprovesNothing(p: Principal, args: ApproveArgs, db: Store)
    requires Identified(p, args)
    requires args.itemType != Some("restaurant") && args.itemType != Some("menuItem")
    ensures Approve(p, args, db) == Approved(ApproveCall([], []))
  {
    UncheckedRequestsPass(p, args, db);
  }
}
