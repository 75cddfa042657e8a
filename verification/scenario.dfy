/** A worked bulk import: one restaurant "R-1" and one menu item "M-1"
    that names it, staged, exported, and committed with a real image for
    the menu item only, into an empty store. */
module Scenario {
  import opened Wrappers
  import opened Models
  import opened ImportFactory
  import MemoryRepository
  import DbRepository
  import BulkImport
  import Text
  import Paths
  import Callers
  import ApproveFilter

  function Payload(): seq<RawImportItem> {
    [ RawImportItem(Some("restaurant"), Some("R-1"), Some("Cafe"), Some("o@x.com"), None, None, None),
      RawImportItem(Some("menuItem"), Some("M-1"), None, None, Some("Tea"), Some(2.5), Some("R-1")) ]
  }

  /** The payload builds a Pending restaurant and a Pending menu item linked
      to it. */
  lemma PayloadBuildsLinkedPair(newGuid: nat -> Guid)
    ensures var items := Create(Payload(), newGuid);
      && |items| == 2
      && items[0] == R(Restaurant(0, "Cafe", "o@x.com", StatusPending, None, Some("R-1")))
      && items[1] == M(MenuItem(newGuid(0), "Tea", 2.5, 0, Some(0), StatusPending, None, Some("M-1")))
  {
    var p := Payload();
    assert Text.ToLower("restaurant") == "restaurant" by { Text.ToLowerOfLower("restaurant"); }
    assert Text.ToLower("menuItem") == "menuitem";
    assert IsRestaurantRecord(p[0]) && !IsMenuItemRecord(p[0]);
    assert IsMenuItemRecord(p[1]) && !IsRestaurantRecord(p[1]);
    assert RestaurantRecords(p) == [p[0]];
    assert MenuItemRecords(p) == [p[1]];
    assert !Text.IsNullOrWhiteSpace(Some("R-1")) by { assert !Text.IsWhiteSpace("R-1"[0]); }
    assert Text.Trim("R-1") == "R-1" by {
      assert Text.SkipWhiteSpace("R-1", 0) == 0;
      assert Text.SkipWhiteSpaceBack("R-1", 0, 3) == 3;
    }
    assert Keys([p[0]]) == [Some("R-1")];
    assert IndexByTrimmedId([p[0]]) == map["R-1" := 0];
    assert BuiltRestaurants(p)[0] == NewRestaurant(p[0]);
    assert BuiltMenuItems(p, newGuid)[0] == NewMenuItem(p[1], newGuid(0), Some(0));
  }

  /** The restaurant and the menu item the payload builds. */
  function Cafe(): Restaurant {
    Restaurant(0, "Cafe", "o@x.com", StatusPending, None, Some("R-1"))
  }

  function Tea(key: Guid): MenuItem {
    MenuItem(key, "Tea", 2.5, 0, Some(0), StatusPending, None, Some("M-1"))
  }

  /** Their rows in the store, which does not keep the payload ids. */
  function CafeRow(): Restaurant {
    Restaurant(0, "Cafe", "o@x.com", StatusPending, None, None)
  }

  function TeaRow(key: Guid, imagePath: Option<string>): MenuItem {
    MenuItem(key, "Tea", 2.5, 0, Some(0), StatusPending, imagePath, None)
  }

  /** Uploading the payload stages exactly that pair. */
  lemma StagedPair(newGuid: nat -> Guid)
    ensures MemoryRepository.Get(BulkImport.Stage(map[], BulkImport.Uploaded(BulkImport.Parsed(Some(Payload()))), newGuid).cache)
      == [R(Cafe()), M(Tea(newGuid(0)))]
  {
    PayloadBuildsLinkedPair(newGuid);
    StagesBatch(Payload(), newGuid);
    var batch := Create(Payload(), newGuid);
    assert batch == [batch[0], batch[1]];
  }

  /** Uploading a parsed payload into an empty cache stages its batch. */
  lemma StagesBatch(raws: seq<RawImportItem>, newGuid: nat -> Guid)
    ensures MemoryRepository.Get(BulkImport.Stage(map[], BulkImport.Uploaded(BulkImport.Parsed(Some(raws))), newGuid).cache)
      == Create(raws, newGuid)
  {
  }

  /** The export holds the folders `item-R-1` and `item-M-1`, each with the
      placeholder image. */
  lemma ExportNamesBothFolders(newGuid: nat -> Guid, exportGuid: nat -> Guid)
    ensures var staged := BulkImport.Stage(map[], BulkImport.Uploaded(BulkImport.Parsed(Some(Payload()))), newGuid).cache;
      BulkImport.DownloadZip(staged, true, exportGuid) ==
        BulkImport.Zip(map["item-R-1" := ["default.jpg"], "item-M-1" := ["default.jpg"]])
  {
    StagedPair(newGuid);
    var staged := BulkImport.Stage(map[], BulkImport.Uploaded(BulkImport.Parsed(Some(Payload()))), newGuid).cache;
    ExportsStaged(staged, exportGuid);
    PairFolders(newGuid(0), exportGuid);
  }

  /** With something staged and the placeholder present, the export is the
      folders of the staged batch. */
  lemma ExportsStaged(cache: MemoryRepository.Cache, exportGuid: nat -> Guid)
    requires MemoryRepository.Get(cache) != []
    ensures BulkImport.DownloadZip(cache, true, exportGuid) ==
      BulkImport.Zip(BulkImport.ExportFolders(MemoryRepository.Get(cache), 0, exportGuid))
  {
  }

  /** The folders of the staged pair. */
  lemma PairFolders(key: Guid, exportGuid: nat -> Guid)
    ensures BulkImport.ExportFolders([R(Cafe()), M(Tea(key))], 0, exportGuid) ==
      map["item-R-1" := ["default.jpg"], "item-M-1" := ["default.jpg"]]
  {
    var items := [R(Cafe()), M(Tea(key))];
    assert items[1..] == [M(Tea(key))];
    assert items[1..][1..] == [];
    assert BulkImport.FolderOf("M-1") == "item-M-1";
    assert BulkImport.FolderOf("R-1") == "item-R-1";
    assert BulkImport.ExportFolders(items[1..], 0, exportGuid) == map["item-M-1" := ["default.jpg"]];
  }

  /** Committing an archive with a real image only in `item-M-1` leaves the
      restaurant without an image, links the menu item to the copied file,
      empties the staging area and leaves the store holding exactly the rows
      of the two entities, without their payload ids. */
  lemma CommitLinksOnlyTheMenuItem(newGuid: nat -> Guid, importGuid: nat -> Guid)
    ensures var staged := BulkImport.Stage(map[], BulkImport.Uploaded(BulkImport.Parsed(Some(Payload()))), newGuid).cache;
      var archive := map["item-M-1" := ["photo.png"]];
      var res := BulkImport.Commit(BulkImport.World(staged, DbRepository.Store([], []), {}),
                                   BulkImport.Uploaded(BulkImport.Archive(archive)), true, importGuid);
      && res.outcome == BulkImport.Committed
      && MemoryRepository.Get(res.world.cache) == []
      && res.world.images == {importGuid(0) + ".png"}
      && res.world.db == DbRepository.Store(
           [CafeRow()],
           [TeaRow(newGuid(0), Some("/images/items/" + importGuid(0) + ".png"))])
  {
    StagedPair(newGuid);
    var staged := BulkImport.Stage(map[], BulkImport.Uploaded(BulkImport.Parsed(Some(Payload()))), newGuid).cache;
    var w := BulkImport.World(staged, DbRepository.Store([], []), {});
    var items := [R(Cafe()), M(Tea(newGuid(0)))];
    var archive := map["item-M-1" := ["photo.png"]];
    var url := "/images/items/" + importGuid(0) + ".png";
    assert items[1..][1..] == [];
    assert RestaurantsOf(items) == [Cafe()];
    assert MenuItemsOf(items) == [Tea(newGuid(0))];
    assert DbRepository.ForeignKeysHold(items);
    BulkImport.CommitWrites(w, archive, true, importGuid);
    LinkedPair(newGuid(0), importGuid);
    var linked := BulkImport.Linked(items, archive, importGuid);
    assert linked == [R(Cafe()), M(Tea(newGuid(0)).(imagePath := Some(url)))];
    assert linked[1..][1..] == [];
    assert RestaurantsOf(linked) == [Cafe()];
    assert MenuItemsOf(linked) == [Tea(newGuid(0)).(imagePath := Some(url))];
    assert DbRepository.Rows(RestaurantsOf(linked)) == [CafeRow()];
    assert DbRepository.Rebase(MenuItemsOf(linked), 0) == [TeaRow(newGuid(0), Some(url))];
  }

  /** The copy step on the staged pair: only the menu item is matched, and
      it gets the first GUID with the image's extension. */
  lemma LinkedPair(key: Guid, importGuid: nat -> Guid)
    ensures var items := [R(Cafe()), M(Tea(key))];
      var archive := map["item-M-1" := ["photo.png"]];
      && BulkImport.Linked(items, archive, importGuid) ==
           [items[0], items[1].WithImagePath("/images/items/" + importGuid(0) + ".png")]
      && BulkImport.Copied(items, archive, importGuid, 2) == {importGuid(0) + ".png"}
  {
    var items := [R(Cafe()), M(Tea(key))];
    var archive := map["item-M-1" := ["photo.png"]];
    assert BulkImport.ImportFolder(items[0]) == "item-R-1";
    assert BulkImport.ImportFolder(items[1]) == "item-M-1";
    assert !BulkImport.HasImage(items[0], archive);
    assert BulkImport.HasImage(items[1], archive) by {
      assert !Text.IsWhiteSpace("M-1"[0]);
    }
    assert items[..1] == [items[0]];
    assert BulkImport.MatchCount(items[..1], archive) == 0 by {
      assert items[..1][..0] == [];
    }
    assert Paths.Extension("photo.png") == ".png" by {
      assert Paths.StartsExtension("photo.png", 5);
    }
    var name := importGuid(0) + ".png";
    assert BulkImport.ImageFileName(items, archive, importGuid, 1) == Some(name);
    assert "/images/items/" + name == "/images/items/" + importGuid(0) + ".png";
    BulkImport.CopiedStep(items, archive, importGuid, 0);
    BulkImport.CopiedStep(items, archive, importGuid, 1);
    assert BulkImport.Copied(items, archive, importGuid, 0) == {};
  }

  /** Once the pair is stored, its owner, writing the address in other
      letter case, may approve the menu item but not the restaurant. */
  lemma OwnerApprovesOnlyTheMenuItem(key: Guid, imagePath: Option<string>)
    ensures var db := DbRepository.Store([CafeRow()], [TeaRow(key, imagePath)]);
      var owner := Callers.Principal(true, Some("O@X.com"), None);
      && ApproveFilter.Permits(owner, ApproveFilter.ApproveArgs(Some("menuItem"), None, Some([key])), db)
      && !ApproveFilter.Permits(owner, ApproveFilter.ApproveArgs(Some("restaurant"), Some([0]), None), db)
  {
    var db := DbRepository.Store([CafeRow()], [TeaRow(key, imagePath)]);
    var owner := Callers.Principal(true, Some("O@X.com"), None);
    var menuArgs := ApproveFilter.ApproveArgs(Some("menuItem"), None, Some([key]));
    var restaurantArgs := ApproveFilter.ApproveArgs(Some("restaurant"), Some([0]), None);
    assert !Text.IsWhiteSpace("O@X.com"[0]);
    assert !Text.IsWhiteSpace("o@x.com"[0]);
    assert !Text.IsWhiteSpace("menuItem"[0]);
    assert !Text.IsWhiteSpace("restaurant"[0]);
    assert Text.ToLower("O@X.com") == "o@x.com";
    assert Text.ToLower("o@x.com") == "o@x.com";
    ApproveFilter.LoadMenuItemsMembers(db, [key]);
    ApproveFilter.MenuItemApprovalNeedsOwner(owner, menuArgs, db);
    ApproveFilter.LoadRestaurantsMembers(db, [0]);
    assert CafeRow() in ApproveFilter.LoadRestaurants(db, [0]);
    ApproveFilter.RestaurantApprovalNeedsSiteAdmin(owner, restaurantArgs, db);
    ApproveFilter.SiteAdminEmailIsLowerCase();
    assert Text.ToLower("O@X.com")[0] != Models.SiteAdminEmail[0];
  }
}
