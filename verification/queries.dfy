/** The store queries the controllers issue, each a selection in store
    order, with what it selects stated as membership. */
module StoreQueries {
  import opened Wrappers
  import opened Models
  import opened DbRepository
  import Seqs

  /** `Restaurants.Where(r => r.Status == status)`. */
  function RestaurantsWithStatus(db: Store, status: string): (rs: seq<Restaurant>)
    ensures forall r: Restaurant :: r in rs <==> r in db.restaurants && r.status == status
  {
    var p := (r: Restaurant) => r.status == status;
    forall r: Restaurant
      ensures r in Seqs.Filter(db.restaurants, p) <==> r in db.restaurants && r.status == status
    {
      Seqs.FilterMembers(db.restaurants, p, r);
    }
    Seqs.Filter(db.restaurants, p)
  }

  /** `Restaurants.Where(r => r.OwnerEmailAddress == email)`: an exact,
      case-sensitive comparison. */
  function RestaurantsOwnedBy(db: Store, email: string): (rs: seq<Restaurant>)
    ensures forall r: Restaurant :: r in rs <==> r in db.restaurants && r.ownerEmailAddress == email
  {
    var p := (r: Restaurant) => r.ownerEmailAddress == email;
    forall r: Restaurant
      ensures r in Seqs.Filter(db.restaurants, p) <==> r in db.restaurants && r.ownerEmailAddress == email
    {
      Seqs.FilterMembers(db.restaurants, p, r);
    }
    Seqs.Filter(db.restaurants, p)
  }

  /** The menu items of restaurant `restaurantId` (any restaurant when it is
      `None`) whose status is `status`. */
  function MenuItemsWithStatus(db: Store, restaurantId: Option<int>, status: string): (ms: seq<MenuItem>)
    ensures forall m: MenuItem :: m in ms <==>
      m in db.menuItems && (restaurantId.None? || m.restaurantId == restaurantId.value) && m.status == status
  {
    var p := (m: MenuItem) => (restaurantId.None? || m.restaurantId == restaurantId.value) && m.status == status;
    forall m: MenuItem
      ensures m in Seqs.Filter(db.menuItems, p) <==>
        m in db.menuItems && (restaurantId.None? || m.restaurantId == restaurantId.value) && m.status == status
    {
      Seqs.FilterMembers(db.menuItems, p, m);
    }
    Seqs.Filter(db.menuItems, p)
  }

  /** `MenuItems.Where(m => m.RestaurantId == restaurantId)`, any status. */
  function MenuItemsOfRestaurant(db: Store, restaurantId: int): (ms: seq<MenuItem>)
    ensures forall m: MenuItem :: m in ms <==> m in db.menuItems && m.restaurantId == restaurantId
  {
    var p := (m: MenuItem) => m.restaurantId == restaurantId;
    forall m: MenuItem
      ensures m in Seqs.Filter(db.menuItems, p) <==> m in db.menuItems && m.restaurantId == restaurantId
    {
      Seqs.FilterMembers(db.menuItems, p, m);
    }
    Seqs.Filter(db.menuItems, p)
  }
}
