/** `RequestsController`: an owner's view of the restaurants they submitted. */
module Requests {
  import opened Wrappers
  import opened Models
  import opened DbRepository
  import opened Callers
  import opened StoreQueries
  import Text

  datatype RequestsView = RequestsChallenge | MyRestaurants(restaurants: seq<Restaurant>)

  /** `Index`: the restaurants whose owner address equals the caller's
      email exactly, or a login challenge without an email. */
  function Index(p: Principal, db: Store): (v: RequestsView)
    ensures v.RequestsChallenge? <==> Text.IsNullOrEmpty(CallerEmail(p))
    ensures v.MyRestaurants? ==>
      forall r: Restaurant :: r in v.restaurants <==> r in db.restaurants && r.ownerEmailAddress == CallerEmail(p).value
  {
    var email := CallerEmail(p);
    if Text.IsNullOrEmpty(email) then RequestsChallenge
    else MyRestaurants(RestaurantsOwnedBy(db, email.value))
  }

  /** Restaurant `r` has key `id` and owner `email`. */
  predicate OwnedWithId(r: Restaurant, id: int, email: string) {
    r.id == id && r.ownerEmailAddress == email
  }

  /** `FirstOrDefaultAsync(r => r.Id == id && r.OwnerEmailAddress == email)`:
      the position of the first such restaurant. */
  function FirstOwned(rs: seq<Restaurant>, id: int, email: string): (k: Option<nat>)
    ensures k.Some? ==> k.value < |rs| && OwnedWithId(rs[k.value], id, email)
    ensures k.Some? ==> forall i :: 0 <= i < k.value ==> !OwnedWithId(rs[i], id, email)
    ensures k.None? ==> forall i :: 0 <= i < |rs| ==> !OwnedWithId(rs[i], id, email)
  {
    if |rs| == 0 then None
    else if OwnedWithId(rs[0], id, email) then Some(0)
    else match FirstOwned(rs[1..], id, email)
      case None => None
      case Some(k) => Some(k + 1)
  }

  datatype DetailsView =
    | DetailsChallenge
    | DetailsNotFound
    | Details(restaurant: Restaurant, menuItems: seq<MenuItem>)

  /** `Details`: the caller's restaurant with key `id` and all its menu
      items, whatever their status. Someone else's restaurant is
      indistinguishable from a missing one. */
  function GetDetails(p: Principal, id: int, db: Store): (v: DetailsView)
    ensures v.DetailsChallenge? <==> Text.IsNullOrEmpty(CallerEmail(p))
    ensures v.DetailsNotFound? <==>
      !Text.IsNullOrEmpty(CallerEmail(p)) && forall r <- db.restaurants :: !OwnedWithId(r, id, CallerEmail(p).value)
    ensures v.Details? ==>
      && v.restaurant in db.restaurants
      && OwnedWithId(v.restaurant, id, CallerEmail(p).value)
      && forall m: MenuItem :: m in v.menuItems <==> m in db.menuItems && m.restaurantId == id
  {
    var email := CallerEmail(p);
    if Text.IsNullOrEmpty(email) then DetailsChallenge
    else match FirstOwned(db.restaurants, id, email.value)
      case None => DetailsNotFound
      case Some(k) =>
        var restaurant := db.restaurants[k];
        Details(restaurant, MenuItemsOfRestaurant(db, restaurant.id))
  }
}
