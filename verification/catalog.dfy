/** `CatalogController`: the public catalogue, its site-admin approval mode
    and the site admin's bulk approval. */
module Catalog {
  import opened Wrappers
  import opened Models
  import opened DbRepository
  import opened Callers
  import opened StoreQueries
  import Text
  import ApproveFilter
  import Verification

  datatype CatalogView = CatalogForbid | Listing(items: seq<Item>)

  /** `mode` asks for the approval view, in any letter case. */
  predicate IsApproveMode(mode: string) {
    Text.EqualsIgnoreCase(mode, "approve")
  }

  /** The status a mode lists: pending in approval mode, approved otherwise. */
  function ListedStatus(mode: string): (status: string)
    ensures status == StatusPending || status == StatusApproved
    ensures status == StatusPending <==> IsApproveMode(mode)
  {
    if IsApproveMode(mode) then StatusPending else StatusApproved
  }

  /** `Index`: approval mode is for the site admin only. "restaurants" lists
      restaurants, "menu" lists menu items optionally of one restaurant,
      both compared ignoring case; any other type lists nothing. */
  function Index(p: Principal, itemType: string, mode: string, restaurantId: Option<int>, db: Store): (v: CatalogView)
    ensures v.CatalogForbid? <==> IsApproveMode(mode) && !IsSiteAdmin(CallerEmail(p))
    ensures v.Listing? && Text.EqualsIgnoreCase(itemType, "restaurants") ==>
      forall it: Item :: it in v.items <==> it.R? && it.r in db.restaurants && it.r.status == ListedStatus(mode)
    ensures v.Listing? && !Text.EqualsIgnoreCase(itemType, "restaurants") && Text.EqualsIgnoreCase(itemType, "menu") ==>
      forall it: Item :: it in v.items <==>
        && it.M? && it.m in db.menuItems
        && (restaurantId.None? || it.m.restaurantId == restaurantId.value)
        && it.m.status == ListedStatus(mode)
    ensures v.Listing? && !Text.EqualsIgnoreCase(itemType, "restaurants") && !Text.EqualsIgnoreCase(itemType, "menu") ==>
      v.items == []
  {
    if IsApproveMode(mode) && !IsSiteAdmin(CallerEmail(p)) then CatalogForbid
    else if Text.EqualsIgnoreCase(itemType, "restaurants") then
      var rs := RestaurantsWithStatus(db, ListedStatus(mode));
      RestaurantItemsMembers(rs);
      Listing(RestaurantItems(rs))
    else if Text.EqualsIgnoreCase(itemType, "menu") then
      var ms := MenuItemsWithStatus(db, restaurantId, ListedStatus(mode));
      MenuItemItemsMembers(ms);
      Listing(MenuItemItems(ms))
    else Listing([])
  }

  /** Outside approval mode anyone, signed in or not, sees a listing, and
      only approved entities. */
  lemma PublicCatalogShowsOnlyApproved(p: Principal, itemType: string, mode: string, restaurantId: Option<int>, db: Store)
    requires !IsApproveMode(mode)
    ensures var v := Index(p, itemType, mode, restaurantId, db);
      v.Listing? && forall it <- v.items :: it.Status() == StatusApproved
  {
  }

  /** In approval mode the site admin sees a listing of pending entities
      only. */
  lemma ApprovalModeShowsOnlyPending(p: Principal, itemType: string, mode: string, restaurantId: Option<int>, db: Store)
    requires IsApproveMode(mode) && IsSiteAdmin(CallerEmail(p))
    ensures var v := Index(p, itemType, mode, restaurantId, db);
      v.Listing? && forall it <- v.items :: it.Status() == StatusPending
  {
  }

  /** `Approve`: the site admin only; "restaurants" forwards the restaurant
      keys and "menu" the menu item keys, both compared exactly. */
  function Approve(p: Principal, itemType: string, restaurantIds: Option<seq<int>>, menuItemIds: Option<seq<Guid>>): (o: ApproveOutcome)
    ensures o.Approved? <==> IsSiteAdmin(CallerEmail(p))
    ensures o.Approved? ==> o.call.restaurantIds == [] || o.call.menuItemIds == []
    ensures o.Approved? && o.call.restaurantIds != [] ==> itemType == "restaurants" && restaurantIds == Some(o.call.restaurantIds)
    ensures o.Approved? && o.call.menuItemIds != [] ==> itemType == "menu" && menuItemIds == Some(o.call.menuItemIds)
    ensures o.Approved? && itemType == "restaurants" ==> o.call.restaurantIds == restaurantIds.GetOr([])
    ensures o.Approved? && itemType == "menu" ==> o.call.menuItemIds == menuItemIds.GetOr([])
  {
    if !IsSiteAdmin(CallerEmail(p)) then Forbidden
    else Approved(ApproveCall(
      if itemType == "restaurants" then restaurantIds.GetOr([]) else [],
      if itemType == "menu" then menuItemIds.GetOr([]) else []))
  }

  /** For restaurants the two approval routes agree: the site admin's
      catalogue request and dashboard request hand the store the same call,
      and anyone else is refused by both once a requested restaurant
      exists. */
  lemma RestaurantRoutesAgree(p: Principal, ids: seq<int>, db: Store)
    requires p.isAuthenticated
    requires exists r <- db.restaurants :: r.id in ids
    ensures var args := ApproveFilter.ApproveArgs(Some("restaurant"), Some(ids), None);
      Approve(p, "restaurants", Some(ids), None) == Verification.Approve(p, args, db)
  {
    var args := ApproveFilter.ApproveArgs(Some("restaurant"), Some(ids), None);
    var r :| r in db.restaurants && r.id in ids;
    ApproveFilter.LoadRestaurantsMembers(db, ids);
    assert r in ApproveFilter.LoadRestaurants(db, ids);
    assert !Text.IsWhiteSpace("restaurant"[0]);
    if ApproveFilter.Identified(p, args) {
      ApproveFilter.RestaurantApprovalNeedsSiteAdmin(p, args, db);
    }
  }

  /** For menu items the routes differ: the site admin may approve through
      the catalogue a menu item of a restaurant they do not own, which the
      dashboard route refuses. */
  lemma AdminBypassesOwnershipForMenuItems(p: Principal, ids: seq<Guid>, db: Store, m: MenuItem)
    requires p.isAuthenticated && IsSiteAdmin(CallerEmail(p))
    requires m in db.menuItems && m.id in ids
    requires !ApproveFilter.OwnsLinkedRestaurant(CallerEmail(p).value, m, db)
    ensures m.id in Approve(p, "menu", None, Some(ids)).call.menuItemIds
    ensures Verification.Approve(p, ApproveFilter.ApproveArgs(Some("menuItem"), None, Some(ids)), db).Forbidden?
  {
    var args := ApproveFilter.ApproveArgs(Some("menuItem"), None, Some(ids));
    ApproveFilter.LoadMenuItemsMembers(db, ids);
    assert !Text.IsWhiteSpace("menuItem"[0]);
    ApproveFilter.MenuItemApprovalNeedsOwner(p, args, db);
  }
}
