/** `ApproveAuthorizationFilterAttribute`: the gate in front of the approval
    action. It lets a request through only when the signed-in caller may
    approve every targeted entity found in the store, judged by each
    entity's own `GetValidators` list. */
module ApproveFilter {
  import opened Wrappers
  import opened Models
  import opened DbRepository
  import opened Callers
  import Text
  import Seqs

  /** The action arguments the filter reads; a missing or mistyped argument
      is `None`. */
  datatype ApproveArgs = ApproveArgs(
    itemType: Option<string>,
    restaurantIds: Option<seq<int>>,
    menuItemIds: Option<seq<Guid>>)

  datatype Decision = Allow | Forbid

  /** The stored restaurants whose key is requested, in store order. */
  function LoadRestaurants(db: Store, ids: seq<int>): seq<Restaurant> {
    Seqs.Filter(db.restaurants, (r: Restaurant) => r.id in ids)
  }

  /** The stored menu items whose key is requested, in store order. */
  function LoadMenuItems(db: Store, ids: seq<Guid>): seq<MenuItem> {
    Seqs.Filter(db.menuItems, (m: MenuItem) => m.id in ids)
  }

  /** Loading keeps exactly the stored restaurants with a requested key. */
  lemma LoadRestaurantsMembers(db: Store, ids: seq<int>)
    ensures forall r :: r in LoadRestaurants(db, ids) <==> r in db.restaurants && r.id in ids
  {
  }

  /** Loading keeps exactly the stored menu items with a requested key. */
  lemma LoadMenuItemsMembers(db: Store, ids: seq<Guid>)
    ensures forall m :: m in LoadMenuItems(db, ids) <==> m in db.menuItems && m.id in ids
  {
  }

  /** The filter checks restaurants: item type exactly "restaurant" and a
      non-empty restaurant id list. */
  predicate ChecksRestaurants(args: ApproveArgs) {
    args.itemType == Some("restaurant") && args.restaurantIds.Some? && |args.restaurantIds.value| > 0
  }

  /** The filter checks menu items: item type exactly "menuItem" and a
      non-empty menu item id list. */
  predicate ChecksMenuItems(args: ApproveArgs) {
    args.itemType == Some("menuItem") && args.menuItemIds.Some? && |args.menuItemIds.value| > 0
  }

  /** The entities whose approvers the filter consults. */
  function Checked(args: ApproveArgs, db: Store): seq<Item> {
    if ChecksRestaurants(args) then RestaurantItems(LoadRestaurants(db, args.restaurantIds.value))
    else if ChecksMenuItems(args) then MenuItemItems(LoadMenuItems(db, args.menuItemIds.value))
    else []
  }

  /** `email` is among `item`'s approvers, both sides lower-cased. */
  predicate MayApprove(email: string, item: Item, db: Store) {
    Text.ToLower(email) in Text.ToLowerAll(Validators(item, db.restaurants))
  }

  /** The caller passes the checks that precede any store lookup. */
  predicate Identified(p: Principal, args: ApproveArgs) {
    && p.isAuthenticated
    && !Text.IsNullOrEmpty(CallerEmail(p))
    && !Text.IsNullOrWhiteSpace(args.itemType)
  }

  /** What the filter allows: an identified caller who may approve every
      checked entity. */
  predicate Permits(p: Principal, args: ApproveArgs, db: Store) {
    && Identified(p, args)
    && forall it <- Checked(args, db) :: MayApprove(CallerEmail(p).value, it, db)
  }

  /** `OnActionExecutionAsync`: the checks in source order, stopping at the
      first checked entity the caller may not approve. */
  method OnActionExecution(p: Principal, args: ApproveArgs, db: Store) returns (d: Decision)
    ensures d == Allow <==> Permits(p, args, db)
    ensures !p.isAuthenticated ==> d == Forbid
  {
    if !p.isAuthenticated {
      return Forbid;
    }
    var email := CallerEmail(p);
    if Text.IsNullOrEmpty(email) {
      return Forbid;
    }
    if Text.IsNullOrWhiteSpace(args.itemType) {
      return Forbid;
    }
    var checked := Checked(args, db);
    var authorized := true;
    var i := 0;
    while i < |checked|
      invariant 0 <= i <= |checked|
      invariant authorized
      invariant forall k :: 0 <= k < i ==> MayApprove(email.value, checked[k], db)
    {
      if !MayApprove(email.value, checked[i], db) {
        authorized := false;
        break;
      }
      i := i + 1;
    }
    if !authorized {
      return Forbid;
    }
    return Allow;
  }

  /** The site admin address has no upper-case letter. */
  lemma SiteAdminEmailIsLowerCase()
    ensures Text.ToLower(SiteAdminEmail) == SiteAdminEmail
  {
    Text.ToLowerOfLower(SiteAdminEmail);
  }

  /** Approving restaurants: once any requested restaurant is found, the
      request passes exactly when the caller is the site admin, in any
      letter case. Owners cannot approve their own restaurants. */
  lemma RestaurantApprovalNeedsSiteAdmin(p: Principal, args: ApproveArgs, db: Store)
    requires Identified(p, args) && ChecksRestaurants(args)
    requires |LoadRestaurants(db, args.restaurantIds.value)| > 0
    ensures Permits(p, args, db) <==> Text.EqualsIgnoreCase(CallerEmail(p).value, SiteAdminEmail)
  {
    SiteAdminEmailIsLowerCase();
    var email := CallerEmail(p).value;
    var loaded := LoadRestaurants(db, args.restaurantIds.value);
    assert Text.ToLowerAll([SiteAdminEmail]) == [SiteAdminEmail];
    RestaurantItemsMembers(loaded);
    assert Checked(args, db)[0] == R(loaded[0]);
    assert Validators(R(loaded[0]), db.restaurants) == [SiteAdminEmail];
  }

  /** The caller is the non-blank owner of `m`'s restaurant, in any letter
      case. */
  predicate OwnsLinkedRestaurant(email: string, m: MenuItem, db: Store) {
    var owner := LinkedRestaurant(m, db.restaurants);
    && owner.Some?
    && !Text.AllWhiteSpace(owner.value.ownerEmailAddress)
    && Text.EqualsIgnoreCase(email, owner.value.ownerEmailAddress)
  }

  /** Approving menu items: the request passes exactly when the caller owns
      the linked restaurant of every requested menu item found. */
  lemma MenuItemApprovalNeedsOwner(p: Principal, args: ApproveArgs, db: Store)
    requires Identified(p, args) && ChecksMenuItems(args)
    ensures Permits(p, args, db) <==>
      forall m <- LoadMenuItems(db, args.menuItemIds.value) :: OwnsLinkedRestaurant(CallerEmail(p).value, m, db)
  {
    var email := CallerEmail(p).value;
    var loaded := LoadMenuItems(db, args.menuItemIds.value);
    assert Checked(args, db) == MenuItemItems(loaded);
    forall m | m in loaded
      ensures MayApprove(email, M(m), db) <==> OwnsLinkedRestaurant(email, m, db)
    {
      var v := Validators(M(m), db.restaurants);
      if v != [] {
        assert Text.ToLowerAll(v) == [Text.ToLower(v[0])];
      }
    }
    if Permits(p, args, db) {
      forall m | m in loaded
        ensures OwnsLinkedRestaurant(email, m, db)
      {
        var j :| 0 <= j < |loaded| && loaded[j] == m;
        assert MenuItemItems(loaded)[j] == M(m);
      }
    } else {
      var it :| it in Checked(args, db) && !MayApprove(email, it, db);
      var j :| 0 <= j < |loaded| && MenuItemItems(loaded)[j] == it;
    }
  }

  /** One requested menu item without a restaurant link denies the whole
      request, whoever asks. */
  lemma UnlinkedMenuItemForbidsEveryone(p: Principal, args: ApproveArgs, db: Store, m: MenuItem)
    requires ChecksMenuItems(args)
    requires m in db.menuItems && m.id in args.menuItemIds.value && m.restaurant.None?
    ensures !Permits(p, args, db)
  {
    if Identified(p, args) {
      MenuItemApprovalNeedsOwner(p, args, db);
      assert m in LoadMenuItems(db, args.menuItemIds.value);
    }
  }

  /** Requested keys that match nothing in the store never cause a denial:
      adding them to the request does not change the decision. */
  lemma AbsentIdsNeverDeny(p: Principal, args: ApproveArgs, db: Store, extraRestaurants: seq<int>, extraMenuItems: seq<Guid>)
    requires forall r <- db.restaurants :: r.id !in extraRestaurants
    requires forall m <- db.menuItems :: m.id !in extraMenuItems
    ensures var args' := args.(
              restaurantIds := Some(args.restaurantIds.GetOr([]) + extraRestaurants),
              menuItemIds := Some(args.menuItemIds.GetOr([]) + extraMenuItems));
      Permits(p, args', db) <==> Permits(p, args, db)
  {
    var args' := args.(
      restaurantIds := Some(args.restaurantIds.GetOr([]) + extraRestaurants),
      menuItemIds := Some(args.menuItemIds.GetOr([]) + extraMenuItems));
    var rIds := args.restaurantIds.GetOr([]);
    var mIds := args.menuItemIds.GetOr([]);
    Seqs.FilterCongruent(db.restaurants, (r: Restaurant) => r.id in rIds + extraRestaurants, (r: Restaurant) => r.id in rIds);
    Seqs.FilterCongruent(db.menuItems, (m: MenuItem) => m.id in mIds + extraMenuItems, (m: MenuItem) => m.id in mIds);
    assert LoadRestaurants(db, rIds + extraRestaurants) == LoadRestaurants(db, rIds);
    assert LoadMenuItems(db, mIds + extraMenuItems) == LoadMenuItems(db, mIds);
    if ChecksMenuItems(args') && !ChecksMenuItems(args) {
      var loaded := LoadMenuItems(db, mIds);
      if |loaded| > 0 {
        assert loaded[0].id in mIds;
      }
    }
  }

  /** All or nothing: a request for two non-empty lists of restaurants
      passes exactly when each list would pass on its own. */
  lemma AllOrNothing(p: Principal, args: ApproveArgs, db: Store, a: seq<int>, b: seq<int>)
    requires args.itemType == Some("restaurant") && |a| > 0 && |b| > 0
    ensures Permits(p, args.(restaurantIds := Some(a + b)), db) <==>
      Permits(p, args.(restaurantIds := Some(a)), db) && Permits(p, args.(restaurantIds := Some(b)), db)
  {
    var both := LoadRestaurants(db, a + b);
    var onlyA := LoadRestaurants(db, a);
    var onlyB := LoadRestaurants(db, b);
    LoadRestaurantsMembers(db, a + b);
    LoadRestaurantsMembers(db, a);
    LoadRestaurantsMembers(db, b);
    RestaurantItemsMembers(both);
    RestaurantItemsMembers(onlyA);
    RestaurantItemsMembers(onlyB);
  }

  /** Any non-blank item type other than exactly "restaurant" or "menuItem"
      ("Restaurant", say) passes an identified caller without a lookup, and
      so do empty or missing id lists. */
  lemma UncheckedRequestsPass(p: Principal, args: ApproveArgs, db: Store)
    requires Identified(p, args)
    requires !ChecksRestaurants(args) && !ChecksMenuItems(args)
    ensures Permits(p, args, db)
  {
  }
}
