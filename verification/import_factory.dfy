/** `ImportItemFactory.Create`: turns the deserialised payload records into
    restaurants and menu items, all Pending, linking each menu item to the
    restaurant whose payload id it names. */
module ImportFactory {
  import opened Wrappers
  import opened Models
  import Text
  import Seqs

  /** One deserialised payload record (`RawImportItem`); absent JSON
      properties are `None`. */
  datatype RawImportItem = RawImportItem(
    recordType: Option<string>,
    id: Option<string>,
    name: Option<string>,
    ownerEmailAddress: Option<string>,
    title: Option<string>,
    price: Option<Price>,
    restaurantId: Option<string>)

  predicate IsRestaurantRecord(raw: RawImportItem) {
    raw.recordType.Some? && Text.EqualsIgnoreCase(raw.recordType.value, "restaurant")
  }

  predicate IsMenuItemRecord(raw: RawImportItem) {
    raw.recordType.Some? && Text.EqualsIgnoreCase(raw.recordType.value, "menuItem")
  }

  function RestaurantRecords(raws: seq<RawImportItem>): seq<RawImportItem> {
    Seqs.Filter(raws, IsRestaurantRecord)
  }

  function MenuItemRecords(raws: seq<RawImportItem>): seq<RawImportItem> {
    Seqs.Filter(raws, IsMenuItemRecord)
  }

  /** The restaurant pass 1 builds from a record. */
  function NewRestaurant(raw: RawImportItem): (r: Restaurant)
    ensures r.status == StatusPending && r.externalId == raw.id
    ensures r.name == raw.name.GetOr("") && r.ownerEmailAddress == raw.ownerEmailAddress.GetOr("")
    ensures r.id == 0 && r.imagePath.None?
  {
    Restaurant(0, raw.name.GetOr(""), raw.ownerEmailAddress.GetOr(""), StatusPending, None, raw.id)
  }

  /** The menu item pass 2 builds from a record, with its fresh key and link. */
  function NewMenuItem(raw: RawImportItem, key: Guid, link: Option<nat>): (m: MenuItem)
    ensures m.status == StatusPending && m.externalId == raw.id
    ensures m.title == raw.title.GetOr("") && m.price == raw.price.GetOr(0.0)
    ensures m.id == key && m.restaurant == link && m.restaurantId == 0 && m.imagePath.None?
  {
    MenuItem(key, raw.title.GetOr(""), raw.price.GetOr(0.0), 0, link, StatusPending, None, raw.id)
  }

  /** The dictionary key of an id: the trimmed id, or none when the id is
      null or white space. Pass 1 keys restaurants by their `Id`, pass 2
      looks menu items up by their `RestaurantId`. */
  function LinkKey(id: Option<string>): (key: Option<string>)
    ensures key.Some? <==> !Text.IsNullOrWhiteSpace(id)
  {
    if Text.IsNullOrWhiteSpace(id) then None else Some(Text.Trim(id.value))
  }

  /** The dictionary keys of the restaurant records, in order. */
  function Keys(rs: seq<RawImportItem>): (keys: seq<Option<string>>)
    ensures |keys| == |rs|
  {
    seq(|rs|, k requires 0 <= k < |rs| => LinkKey(rs[k].id))
  }

  /** A dictionary filled in order from `keys`: key -> position of its last
      occurrence; a `None` key is never entered. */
  function IndexOf(keys: seq<Option<string>>): (index: map<string, nat>)
    ensures forall key :: key in index ==> index[key] < |keys| && keys[index[key]] == Some(key)
    ensures forall key :: key in index ==>
      forall k :: index[key] < k < |keys| ==> keys[k] != Some(key)
    ensures forall k :: 0 <= k < |keys| && keys[k].Some? ==> keys[k].value in index
  {
    if |keys| == 0 then map[]
    else
      var prefix := keys[..|keys| - 1];
      var index := IndexOf(prefix);
      assert forall k :: 0 <= k < |prefix| ==> prefix[k] == keys[k];
      match keys[|keys| - 1]
      case None => index
      case Some(key) => index[key := |keys| - 1]
  }

  /** Pass 1's dictionary: trimmed id -> position of the restaurant among the
      restaurants built. A later record with the same trimmed id overwrites
      an earlier one; a record with a blank id is never entered. */
  function IndexByTrimmedId(rs: seq<RawImportItem>): map<string, nat> {
    IndexOf(Keys(rs))
  }

  /** Pass 2's lookup (`TryGetValue` after the blank check). */
  function Lookup(key: Option<string>, index: map<string, nat>): Option<nat> {
    match key
    case Some(k) => if k in index then Some(index[k]) else None
    case None => None
  }

  /** Looking a key up in the dictionary filled from `keys` finds the last
      position holding that key, and finds nothing exactly when no position
      holds it. */
  lemma LookupFindsLast(key: Option<string>, keys: seq<Option<string>>)
    ensures var link := Lookup(key, IndexOf(keys));
      && (link.Some? <==> key.Some? && exists k :: 0 <= k < |keys| && keys[k] == key)
      && (link.Some? ==>
            && link.value < |keys| && keys[link.value] == key
            && forall k :: link.value < k < |keys| ==> keys[k] != key)
  {
    var index := IndexOf(keys);
    if key.Some? && exists k :: 0 <= k < |keys| && keys[k] == key {
      var k :| 0 <= k < |keys| && keys[k] == key;
      assert key.value in index;
    }
  }

  /** The restaurants pass 1 builds, in record order. */
  function BuiltRestaurants(raws: seq<RawImportItem>): (rs: seq<Restaurant>)
    ensures |rs| == |RestaurantRecords(raws)|
  {
    var records := RestaurantRecords(raws);
    seq(|records|, i requires 0 <= i < |records| => NewRestaurant(records[i]))
  }

  /** The menu items pass 2 builds, in record order, each linked through
      pass 1's dictionary; the j-th takes key `newGuid(j)`. */
  function BuiltMenuItems(raws: seq<RawImportItem>, newGuid: nat -> Guid): (ms: seq<MenuItem>)
    ensures |ms| == |MenuItemRecords(raws)|
  {
    var records := MenuItemRecords(raws);
    var index := IndexByTrimmedId(RestaurantRecords(raws));
    seq(|records|, j requires 0 <= j < |records| =>
      NewMenuItem(records[j], newGuid(j), Lookup(LinkKey(records[j].restaurantId), index)))
  }

  /** `Create`: all restaurants of the payload, then all its menu items.
      Records of any other type are dropped. */
  function Create(raws: seq<RawImportItem>, newGuid: nat -> Guid): (items: seq<Item>)
    ensures |items| == |RestaurantRecords(raws)| + |MenuItemRecords(raws)|
    ensures RestaurantsOf(items) == BuiltRestaurants(raws)
    ensures MenuItemsOf(items) == BuiltMenuItems(raws, newGuid)
    ensures forall i :: 0 <= i < |RestaurantRecords(raws)| ==> items[i] == R(BuiltRestaurants(raws)[i])
    ensures forall j :: 0 <= j < |MenuItemRecords(raws)| ==>
      items[|RestaurantRecords(raws)| + j] == M(BuiltMenuItems(raws, newGuid)[j])
  {
    var rs := BuiltRestaurants(raws);
    var ms := BuiltMenuItems(raws, newGuid);
    PartitionOfRestaurants(rs);
    PartitionOfMenuItems(ms);
    PartitionAppend(RestaurantItems(rs), MenuItemItems(ms));
    RestaurantItems(rs) + MenuItemItems(ms)
  }

  /** Every entity the import produces is Pending and keeps the payload id
      verbatim as its external id; absent text fields become "" and an
      absent price 0. */
  lemma CreateFields(raws: seq<RawImportItem>, newGuid: nat -> Guid)
    ensures forall i :: 0 <= i < |Create(raws, newGuid)| ==> Create(raws, newGuid)[i].Status() == StatusPending
    ensures forall i :: 0 <= i < |RestaurantRecords(raws)| ==>
      && Create(raws, newGuid)[i].ExternalId() == RestaurantRecords(raws)[i].id
      && Create(raws, newGuid)[i].r.name == RestaurantRecords(raws)[i].name.GetOr("")
      && Create(raws, newGuid)[i].r.ownerEmailAddress == RestaurantRecords(raws)[i].ownerEmailAddress.GetOr("")
    ensures forall j :: 0 <= j < |MenuItemRecords(raws)| ==>
      var it := Create(raws, newGuid)[|RestaurantRecords(raws)| + j];
      && it.ExternalId() == MenuItemRecords(raws)[j].id
      && it.m.title == MenuItemRecords(raws)[j].title.GetOr("")
      && it.m.price == MenuItemRecords(raws)[j].price.GetOr(0.0)
      && it.m.id == newGuid(j)
  {
    var items := Create(raws, newGuid);
    var n := |RestaurantRecords(raws)|;
    forall i | 0 <= i < |items|
      ensures items[i].Status() == StatusPending
    {
      if i < n {
        assert BuiltRestaurants(raws)[i] == NewRestaurant(RestaurantRecords(raws)[i]);
      } else {
        var records := MenuItemRecords(raws);
        var index := IndexByTrimmedId(RestaurantRecords(raws));
        assert items[n + (i - n)] == M(BuiltMenuItems(raws, newGuid)[i - n]);
        assert BuiltMenuItems(raws, newGuid)[i - n]
          == NewMenuItem(records[i - n], newGuid(i - n), Lookup(LinkKey(records[i - n].restaurantId), index));
      }
    }
    forall j | 0 <= j < |MenuItemRecords(raws)|
      ensures items[n + j].ExternalId() == MenuItemRecords(raws)[j].id
      ensures items[n + j].m.title == MenuItemRecords(raws)[j].title.GetOr("")
      ensures items[n + j].m.price == MenuItemRecords(raws)[j].price.GetOr(0.0)
      ensures items[n + j].m.id == newGuid(j)
    {
      var records := MenuItemRecords(raws);
      var index := IndexByTrimmedId(RestaurantRecords(raws));
      assert items[n + j] == M(BuiltMenuItems(raws, newGuid)[j]);
      assert BuiltMenuItems(raws, newGuid)[j]
        == NewMenuItem(records[j], newGuid(j), Lookup(LinkKey(records[j].restaurantId), index));
    }
  }

  /** Linking: a menu item is linked exactly when its restaurant id is not
      blank and trims to the trimmed id of some restaurant whose id is not
      blank; it is then linked to the LAST such restaurant, while every
      duplicate stays in the output. */
  lemma CreateLinks(raws: seq<RawImportItem>, newGuid: nat -> Guid, j: nat)
    requires j < |MenuItemRecords(raws)|
    ensures var link := BuiltMenuItems(raws, newGuid)[j].restaurant;
      var keys := Keys(RestaurantRecords(raws)); var key := LinkKey(MenuItemRecords(raws)[j].restaurantId);
      && (link.Some? <==> key.Some? && exists k :: 0 <= k < |keys| && keys[k] == key)
      && (link.Some? ==>
            && link.value < |keys| && keys[link.value] == key
            && forall k :: link.value < k < |keys| ==> keys[k] != key)
  {
    var key := LinkKey(MenuItemRecords(raws)[j].restaurantId);
    var keys := Keys(RestaurantRecords(raws));
    var records := MenuItemRecords(raws);
    assert BuiltMenuItems(raws, newGuid)[j]
      == NewMenuItem(records[j], newGuid(j), Lookup(key, IndexByTrimmedId(RestaurantRecords(raws))));
    LookupFindsLast(key, keys);
  }

  /** A restaurant whose id is null or white space is never a link target. */
  lemma BlankIdNeverLinked(raws: seq<RawImportItem>, newGuid: nat -> Guid, j: nat)
    requires j < |MenuItemRecords(raws)|
    requires BuiltMenuItems(raws, newGuid)[j].restaurant.Some?
    ensures var k := BuiltMenuItems(raws, newGuid)[j].restaurant.value;
      k < |RestaurantRecords(raws)| && !Text.IsNullOrWhiteSpace(RestaurantRecords(raws)[k].id)
  {
    CreateLinks(raws, newGuid, j);
  }

  /** A non-blank restaurant id and a non-blank restaurant `Id` that trim to
      the same text make the menu item linked. */
  lemma MatchingIdsLink(raws: seq<RawImportItem>, newGuid: nat -> Guid, j: nat, k: nat)
    requires j < |MenuItemRecords(raws)| && k < |RestaurantRecords(raws)|
    requires !Text.IsNullOrWhiteSpace(MenuItemRecords(raws)[j].restaurantId)
    requires !Text.IsNullOrWhiteSpace(RestaurantRecords(raws)[k].id)
    requires Text.Trim(MenuItemRecords(raws)[j].restaurantId.value) == Text.Trim(RestaurantRecords(raws)[k].id.value)
    ensures BuiltMenuItems(raws, newGuid)[j].restaurant.Some?
    ensures BuiltMenuItems(raws, newGuid)[j].restaurant.value >= k
  {
    CreateLinks(raws, newGuid, j);
    assert Keys(RestaurantRecords(raws))[k] == LinkKey(MenuItemRecords(raws)[j].restaurantId);
  }

  /** Who may approve an imported menu item: the owner of the restaurant it
      was linked to, as written in the payload, when that owner is not
      blank; nobody otherwise. */
  lemma CreatedMenuItemValidators(raws: seq<RawImportItem>, newGuid: nat -> Guid, j: nat)
    requires j < |MenuItemRecords(raws)|
    ensures var items := Create(raws, newGuid); var m := BuiltMenuItems(raws, newGuid)[j];
      var v := Validators(M(m), RestaurantsOf(items));
      && (m.restaurant.None? ==> v == [])
      && (m.restaurant.Some? ==>
            && m.restaurant.value < |RestaurantRecords(raws)|
            && var owner := RestaurantRecords(raws)[m.restaurant.value].ownerEmailAddress;
               v == if Text.IsNullOrWhiteSpace(owner) then [] else [owner.value])
  {
    CreateLinks(raws, newGuid, j);
  }

  /** Records are taken in payload order: splitting the payload splits each
      pass's input accordingly. */
  lemma RecordsKeepPayloadOrder(a: seq<RawImportItem>, b: seq<RawImportItem>)
    ensures RestaurantRecords(a + b) == RestaurantRecords(a) + RestaurantRecords(b)
    ensures MenuItemRecords(a + b) == MenuItemRecords(a) + MenuItemRecords(b)
  {
    Seqs.FilterAppend(a, b, IsRestaurantRecord);
    Seqs.FilterAppend(a, b, IsMenuItemRecord);
  }

  /** A record whose type is neither "restaurant" nor "menuItem" (in any
      letter case) is dropped without a trace. */
  lemma OtherRecordTypesDropped(a: seq<RawImportItem>, x: RawImportItem, b: seq<RawImportItem>, newGuid: nat -> Guid)
    requires !IsRestaurantRecord(x) && !IsMenuItemRecord(x)
    ensures Create(a + [x] + b, newGuid) == Create(a + b, newGuid)
  {
    RecordsKeepPayloadOrder(a + [x], b);
    RecordsKeepPayloadOrder(a, [x]);
    RecordsKeepPayloadOrder(a, b);
    assert RestaurantRecords([x]) == [] && MenuItemRecords([x]) == [];
    assert RestaurantRecords(a + [x] + b) == RestaurantRecords(a + b);
    assert MenuItemRecords(a + [x] + b) == MenuItemRecords(a + b);
    assert BuiltRestaurants(a + [x] + b) == BuiltRestaurants(a + b);
    assert BuiltMenuItems(a + [x] + b, newGuid) == BuiltMenuItems(a + b, newGuid);
  }
}
