/** The catalogue's two entity types, `Restaurant` and `MenuItem`, and the
    `IItemValidating` capability both implement: who may approve an entity
    (`GetValidators`) and which card renders it (`GetCardPartial`). */
module Models {
  import opened Wrappers
  import Text

  /** A `System.Guid`, as its string form. */
  type Guid = string

  /** A C# `decimal`: carried from the payload to the store, never computed on. */
  type Price = real

  /** The one address allowed to approve restaurants. */
  const SiteAdminEmail := "siteadmin@example.com"

  const StatusPending := "Pending"
  const StatusApproved := "Approved"

  /** A restaurant. `id` is the identity key (0 until the store assigns one),
      `externalId` the payload's id, which the store does not keep. */
  datatype Restaurant = Restaurant(
    id: int,
    name: string,
    ownerEmailAddress: string,
    status: string,
    imagePath: Option<string>,
    externalId: Option<string>)

  /** A menu item. `restaurantId` is the foreign-key column; `restaurant` is
      the navigation link, held as an index into the restaurants of the
      batch or store that holds the item (`None` for a null navigation). */
  datatype MenuItem = MenuItem(
    id: Guid,
    title: string,
    price: Price,
    restaurantId: int,
    restaurant: Option<nat>,
    status: string,
    imagePath: Option<string>,
    externalId: Option<string>)

  /** An `IItemValidating`: either entity. */
  datatype Item = R(r: Restaurant) | M(m: MenuItem) {

    function ExternalId(): Option<string> {
      match this
      case R(r) => r.externalId
      case M(m) => m.externalId
    }

    function ImagePath(): Option<string> {
      match this
      case R(r) => r.imagePath
      case M(m) => m.imagePath
    }

    function Status(): string {
      match this
      case R(r) => r.status
      case M(m) => m.status
    }

    /** The same entity with its `ImagePath` set to `path`. */
    function WithImagePath(path: string): (it: Item)
      ensures it.R? == R? && it.ImagePath() == Some(path)
      ensures it.ExternalId() == ExternalId() && it.Status() == Status()
    {
      match this
      case R(r) => R(r.(imagePath := Some(path)))
      case M(m) => M(m.(imagePath := Some(path)))
    }

    /** `GetCardPartial`: the partial view that renders the card. */
    function CardPartial(): (view: string)
      ensures R? ==> view == "_RestaurantCard"
      ensures M? ==> view == "_MenuItemCard"
    {
      if R? then "_RestaurantCard" else "_MenuItemCard"
    }
  }

  /** The restaurants of `items`, in order (`OfType<Restaurant>()`). */
  function RestaurantsOf(items: seq<Item>): (rs: seq<Restaurant>)
    ensures |rs| <= |items|
  {
    if |items| == 0 then []
    else if items[0].R? then [items[0].r] + RestaurantsOf(items[1..])
    else RestaurantsOf(items[1..])
  }

  /** The menu items of `items`, in order (`OfType<MenuItem>()`). */
  function MenuItemsOf(items: seq<Item>): (ms: seq<MenuItem>)
    ensures |ms| <= |items|
  {
    if |items| == 0 then []
    else if items[0].M? then [items[0].m] + MenuItemsOf(items[1..])
    else MenuItemsOf(items[1..])
  }

  /** Every item is one or the other: the two partitions cover the list. */
  lemma {:induction false} PartitionSizes(items: seq<Item>)
    ensures |RestaurantsOf(items)| + |MenuItemsOf(items)| == |items|
  {
    if |items| > 0 {
      PartitionSizes(items[1..]);
    }
  }

  lemma {:induction false} PartitionAppend(a: seq<Item>, b: seq<Item>)
    ensures RestaurantsOf(a + b) == RestaurantsOf(a) + RestaurantsOf(b)
    ensures MenuItemsOf(a + b) == MenuItemsOf(a) + MenuItemsOf(b)
  {
    if |a| == 0 {
      assert a + b == b;
    } else {
      assert (a + b)[1..] == a[1..] + b;
      PartitionAppend(a[1..], b);
    }
  }

  /** Restaurants as items, in order. */
  function RestaurantItems(rs: seq<Restaurant>): seq<Item> {
    seq(|rs|, i requires 0 <= i < |rs| => R(rs[i]))
  }

  /** Menu items as items, in order. */
  function MenuItemItems(ms: seq<MenuItem>): seq<Item> {
    seq(|ms|, i requires 0 <= i < |ms| => M(ms[i]))
  }

  /** Lifting keeps exactly the given restaurants. */
  lemma RestaurantItemsMembers(rs: seq<Restaurant>)
    ensures forall it: Item :: it in RestaurantItems(rs) <==> it.R? && it.r in rs
  {
    forall it: Item | it.R? && it.r in rs
      ensures it in RestaurantItems(rs)
    {
      var j :| 0 <= j < |rs| && rs[j] == it.r;
      assert RestaurantItems(rs)[j] == it;
    }
  }

  /** Lifting keeps exactly the given menu items. */
  lemma MenuItemItemsMembers(ms: seq<MenuItem>)
    ensures forall it: Item :: it in MenuItemItems(ms) <==> it.M? && it.m in ms
  {
    forall it: Item | it.M? && it.m in ms
      ensures it in MenuItemItems(ms)
    {
      var j :| 0 <= j < |ms| && ms[j] == it.m;
      assert MenuItemItems(ms)[j] == it;
    }
  }

  /** A list of restaurants only: its restaurant partition is itself. */
  lemma {:induction false} PartitionOfRestaurants(rs: seq<Restaurant>)
    ensures RestaurantsOf(RestaurantItems(rs)) == rs
    ensures MenuItemsOf(RestaurantItems(rs)) == []
  {
    if |rs| > 0 {
      PartitionOfRestaurants(rs[1..]);
      assert RestaurantItems(rs)[1..] == RestaurantItems(rs[1..]);
      assert rs == [rs[0]] + rs[1..];
    }
  }

  /** A list of menu items only: its menu partition is itself. */
  lemma {:induction false} PartitionOfMenuItems(ms: seq<MenuItem>)
    ensures RestaurantsOf(MenuItemItems(ms)) == []
    ensures MenuItemsOf(MenuItemItems(ms)) == ms
  {
    if |ms| > 0 {
      PartitionOfMenuItems(ms[1..]);
      assert MenuItemItems(ms)[1..] == MenuItemItems(ms[1..]);
      assert ms == [ms[0]] + ms[1..];
    }
  }

  /** The restaurant a menu item's navigation link resolves to, in the
      restaurants it indexes; a link past the end behaves as a null link. */
  function LinkedRestaurant(m: MenuItem, restaurants: seq<Restaurant>): (r: Option<Restaurant>)
    ensures r.Some? <==> m.restaurant.Some? && m.restaurant.value < |restaurants|
    ensures r.Some? ==> r.value == restaurants[m.restaurant.value]
  {
    if m.restaurant.Some? && m.restaurant.value < |restaurants|
    then Some(restaurants[m.restaurant.value])
    else None
  }

  /** `GetValidators`: the emails allowed to approve `item`. A restaurant
      names the site admin whatever its fields; a menu item names its linked
      restaurant's owner, verbatim, when there is one and it is not blank. */
  function Validators(item: Item, restaurants: seq<Restaurant>): (v: seq<string>)
    ensures |v| <= 1
    ensures item.R? ==> v == [SiteAdminEmail]
    ensures item.M? ==> (v != [] <==>
      && LinkedRestaurant(item.m, restaurants).Some?
      && !Text.AllWhiteSpace(LinkedRestaurant(item.m, restaurants).value.ownerEmailAddress))
    ensures item.M? && v != [] ==> v == [LinkedRestaurant(item.m, restaurants).value.ownerEmailAddress]
  {
    match item
    case R(_) => [SiteAdminEmail]
    case M(m) =>
      match LinkedRestaurant(m, restaurants)
      case Some(owner) =>
        if Text.IsNullOrWhiteSpace(Some(owner.ownerEmailAddress)) then [] else [owner.ownerEmailAddress]
      case None => []
  }

  /** Who may approve a restaurant depends on none of its fields, nor on the
      owner it names. */
  lemma RestaurantValidatorsIgnoreFields(a: Restaurant, b: Restaurant, ra: seq<Restaurant>, rb: seq<Restaurant>)
    ensures Validators(R(a), ra) == Validators(R(b), rb) == ["siteadmin@example.com"]
  {
  }

  /** Nobody approves under a blank address, and a menu item's approver is
      the owner named by one of the restaurants it may link to, never an
      address from elsewhere. */
  lemma ValidatorsAreNonBlankOwners(item: Item, restaurants: seq<Restaurant>)
    ensures forall e <- Validators(item, restaurants) :: !Text.AllWhiteSpace(e)
    ensures item.M? ==> forall e <- Validators(item, restaurants) :: exists r <- restaurants :: r.ownerEmailAddress == e
  {
    if item.R? {
      assert !Text.IsWhiteSpace(SiteAdminEmail[0]);
    } else {
      forall e <- Validators(item, restaurants)
        ensures exists r <- restaurants :: r.ownerEmailAddress == e
      {
        assert restaurants[item.m.restaurant.value] in restaurants;
      }
    }
  }

  /** A menu item without a link has nobody who may approve it. */
  lemma UnlinkedMenuItemHasNoValidators(m: MenuItem, restaurants: seq<Restaurant>)
    requires m.restaurant.None?
    ensures Validators(M(m), restaurants) == []
  {
  }

  /** The card tells the entity type apart. */
  lemma CardPartialIdentifiesType(a: Item, b: Item)
    ensures a.CardPartial() == b.CardPartial() <==> a.R? == b.R?
  {
  }
}
