/** `BulkImportController`: the three steps of a bulk import. Upload a JSON
    payload, which is built into entities and staged in the memory cache;
    download a ZIP holding one folder per staged entity with a placeholder
    image; upload the ZIP back with real images, which are copied into the
    site's image folder and linked, and the batch is saved to the store. */
module BulkImport {
  import opened Wrappers
  import opened Models
  import Text
  import Paths
  import ImportFactory
  import MemoryRepository
  import DbRepository

  /** An `IFormFile` argument: missing, zero-length, or with content. */
  datatype Upload<T> = NoFile | EmptyFile | Uploaded(content: T)

  /** The outcome of deserialising the JSON upload: a list (`None` for the
      JSON literal `null`), or a payload the deserialiser rejects. */
  datatype JsonPayload = Parsed(records: Option<seq<ImportFactory.RawImportItem>>) | Malformed

  /** The outcome of extracting the ZIP upload: each top-level folder with
      the names of the files in it, in listing order, or an archive the
      extractor rejects. */
  datatype ZipPayload = Archive(folders: map<string, seq<string>>) | Corrupt

  /** The pages the staging action answers with. */
  datatype StageView = UploadRequired(existing: seq<Item>) | Preview(items: seq<Item>) | StageFailed

  datatype StageResult = StageResult(cache: MemoryRepository.Cache, view: StageView)

  /** The POST `BulkImport` action: without a file the staged batch stays and
      is shown again; a malformed payload aborts before anything is staged;
      otherwise the built batch replaces whatever was staged. */
  function Stage(cache: MemoryRepository.Cache, upload: Upload<JsonPayload>, newGuid: nat -> Guid): (res: StageResult)
    ensures !upload.Uploaded? ==> res == StageResult(cache, UploadRequired(MemoryRepository.Get(cache)))
    ensures upload == Uploaded(Malformed) ==> res.cache == cache && res.view.StageFailed?
    ensures upload.Uploaded? && upload.content.Parsed? ==>
      var batch := ImportFactory.Create(upload.content.records.GetOr([]), newGuid);
      && MemoryRepository.Get(res.cache) == batch
      && res.view == Preview(batch)
      && forall key :: key != MemoryRepository.CacheKey ==>
           (key in res.cache <==> key in cache) && (key in cache ==> res.cache[key] == cache[key])
  {
    match upload
    case NoFile => StageResult(cache, UploadRequired(MemoryRepository.Get(cache)))
    case EmptyFile => StageResult(cache, UploadRequired(MemoryRepository.Get(cache)))
    case Uploaded(Malformed) => StageResult(cache, StageFailed)
    case Uploaded(Parsed(records)) =>
      var batch := ImportFactory.Create(records.GetOr([]), newGuid);
      StageResult(MemoryRepository.Save(cache, Some(batch)), Preview(batch))
  }

  /** A second upload discards the first batch entirely, and an upload that
      is missing or rejected keeps the batch staged before it. */
  lemma RestagingReplaces(cache: MemoryRepository.Cache, first: JsonPayload, second: Upload<JsonPayload>, newGuid: nat -> Guid)
    requires first.Parsed?
    ensures var staged := Stage(cache, Uploaded(first), newGuid).cache;
      && (second.Uploaded? && second.content.Parsed? ==>
            Stage(staged, second, newGuid).cache == Stage(cache, second, newGuid).cache)
      && (!second.Uploaded? || second.content.Malformed? ==>
            MemoryRepository.Get(Stage(staged, second, newGuid).cache) == ImportFactory.Create(first.records.GetOr([]), newGuid))
  {
    var batch := ImportFactory.Create(first.records.GetOr([]), newGuid);
    if second.Uploaded? && second.content.Parsed? {
      MemoryRepository.SaveReplaces(cache, Some(batch), Some(ImportFactory.Create(second.content.records.GetOr([]), newGuid)));
    }
  }

  /** The name of the file every exported folder holds. */
  const DefaultImage := "default.jpg"

  /** The folder of the entity whose external id is `id`. */
  function FolderOf(id: string): (folder: string)
    ensures |folder| == |id| + 5 && folder[..5] == "item-" && folder[5..] == id
  {
    "item-" + id
  }

  /** Different ids never share a folder, so the folder name identifies the
      external id it was exported for. */
  lemma FolderOfInjective(a: string, b: string)
    ensures FolderOf(a) == FolderOf(b) <==> a == b
  {
  }

  /** The number of entities of `items` without an external id: exporting
      each of them draws one GUID. */
  function IdlessCount(items: seq<Item>): (n: nat)
    ensures n <= |items|
  {
    if |items| == 0 then 0
    else (if items[0].ExternalId().None? then 1 else 0) + IdlessCount(items[1..])
  }

  /** The folder exported for the `i`-th entity: named after its external
      id, or after the fresh GUID it draws, the id-less entities before it
      having drawn theirs (from `draw` on). */
  function ExportName(items: seq<Item>, draw: nat, newGuid: nat -> Guid, i: nat): string
    requires i < |items|
  {
    FolderOf(items[i].ExternalId().GetOr(newGuid(draw + IdlessCount(items[..i]))))
  }

  /** The folders `DownloadZip` creates for `items`: one per entity,
      named as `ExportFoldersSpec` states; entities sharing an id share a
      folder. Every folder holds the placeholder image. */
  function ExportFolders(items: seq<Item>, draw: nat, newGuid: nat -> Guid): (folders: map<string, seq<string>>)
    ensures forall f <- folders :: folders[f] == [DefaultImage]
    ensures |folders| <= |items|
    decreases |items|
  {
    if |items| == 0 then map[]
    else
      var id := items[0].ExternalId();
      var name := if id.Some? then id.value else newGuid(draw);
      var rest := ExportFolders(items[1..], if id.Some? then draw else draw + 1, newGuid);
      rest[FolderOf(name) := [DefaultImage]]
  }

  /** The exported folders are exactly the entities' `ExportName`s: an
      entity with an external id gets "item-" + that id, one without gets
      "item-" + the next fresh GUID, and there is no other folder. */
  lemma {:induction false} ExportFoldersSpec(items: seq<Item>, draw: nat, newGuid: nat -> Guid)
    ensures var folders := ExportFolders(items, draw, newGuid);
      && (forall f <- folders :: folders[f] == [DefaultImage])
      && (forall i :: 0 <= i < |items| ==> ExportName(items, draw, newGuid, i) in folders)
      && (forall f <- folders :: exists i :: 0 <= i < |items| && f == ExportName(items, draw, newGuid, i))
    decreases |items|
  {
    if |items| > 0 {
      var id := items[0].ExternalId();
      var name := if id.Some? then id.value else newGuid(draw);
      var draw' := if id.Some? then draw else draw + 1;
      var folders := ExportFolders(items, draw, newGuid);
      var rest := ExportFolders(items[1..], draw', newGuid);
      ExportFoldersSpec(items[1..], draw', newGuid);
      ExportNameShift(items, draw, newGuid);
      assert folders == rest[FolderOf(name) := [DefaultImage]];
      assert items[..0] == [];
      assert ExportName(items, draw, newGuid, 0) == FolderOf(name);
      forall i | 0 <= i < |items|
        ensures ExportName(items, draw, newGuid, i) in folders
      {
        if i > 0 {
          assert ExportName(items[1..], draw', newGuid, i - 1) in rest;
        }
      }
      forall f <- folders
        ensures exists i :: 0 <= i < |items| && f == ExportName(items, draw, newGuid, i)
      {
        if f == FolderOf(name) {
          assert f == ExportName(items, draw, newGuid, 0);
        } else {
          assert f in rest;
          var j :| 0 <= j < |items| - 1 && f == ExportName(items[1..], draw', newGuid, j);
          assert f == ExportName(items, draw, newGuid, j + 1);
        }
      }
    }
  }

  /** The names of the entities after the first are their names in the
      rest of the list, counted from the draws the first one made. */
  lemma ExportNameShift(items: seq<Item>, draw: nat, newGuid: nat -> Guid)
    requires |items| > 0
    ensures var draw' := if items[0].ExternalId().Some? then draw else draw + 1;
      forall i :: 1 <= i < |items| ==> ExportName(items, draw, newGuid, i) == ExportName(items[1..], draw', newGuid, i - 1)
  {
    var draw' := if items[0].ExternalId().Some? then draw else draw + 1;
    forall i | 1 <= i < |items|
      ensures ExportName(items, draw, newGuid, i) == ExportName(items[1..], draw', newGuid, i - 1)
    {
      assert items[..i][1..] == items[1..][..i - 1];
      assert items[..i][0] == items[0];
      assert items[i] == items[1..][i - 1];
    }
  }

  /** What `DownloadZip` answers with. */
  datatype ZipResult = NothingStaged | DefaultImageMissing | Zip(folders: map<string, seq<string>>)

  /** `DownloadZip`: refuses when nothing is staged or when the placeholder
      image is missing from the site; otherwise the archive of the staged
      entities' folders, GUIDs drawn from the first on. */
  function DownloadZip(cache: MemoryRepository.Cache, defaultImageExists: bool, newGuid: nat -> Guid): (res: ZipResult)
    ensures res.NothingStaged? <==> MemoryRepository.Get(cache) == []
    ensures res.DefaultImageMissing? <==> MemoryRepository.Get(cache) != [] && !defaultImageExists
    ensures res.Zip? ==> 0 < |res.folders| <= |MemoryRepository.Get(cache)|
    ensures res.Zip? ==> forall f <- res.folders :: res.folders[f] == [DefaultImage]
    ensures res.Zip? ==> var items := MemoryRepository.Get(cache);
      && (forall i :: 0 <= i < |items| ==> ExportName(items, 0, newGuid, i) in res.folders)
      && (forall f <- res.folders :: exists i :: 0 <= i < |items| && f == ExportName(items, 0, newGuid, i))
  {
    var items := MemoryRepository.Get(cache);
    if |items| == 0 then NothingStaged
    else if !defaultImageExists then DefaultImageMissing
    else
      var folders := ExportFolders(items, 0, newGuid);
      ExportFoldersSpec(items, 0, newGuid);
      assert ExportName(items, 0, newGuid, 0) in folders;
      Zip(folders)
  }

  /** The folder `Commit` looks up for `item`: named after its external id,
      a missing id counting as empty. */
  function ImportFolder(item: Item): string {
    FolderOf(item.ExternalId().GetOr(""))
  }

  /** `item` gets an image: its external id is not blank and the archive
      has a non-empty folder for it. */
  predicate HasImage(item: Item, archive: map<string, seq<string>>) {
    && !Text.IsNullOrWhiteSpace(item.ExternalId())
    && ImportFolder(item) in archive
    && |archive[ImportFolder(item)]| > 0
  }

  /** The number of entities of `items` that get an image. */
  function MatchCount(items: seq<Item>, archive: map<string, seq<string>>): (n: nat)
    ensures n <= |items|
  {
    if |items| == 0 then 0
    else MatchCount(items[..|items| - 1], archive) + (if HasImage(items[|items| - 1], archive) then 1 else 0)
  }

  /** The file the `i`-th entity's image is copied to: the next fresh GUID
      (one is drawn per matched entity, in order) with the extension of the
      first file in its folder. `None` when it gets no image. */
  function ImageFileName(items: seq<Item>, archive: map<string, seq<string>>, newGuid: nat -> Guid, i: nat): (name: Option<string>)
    requires i < |items|
    ensures name.Some? <==> HasImage(items[i], archive)
  {
    if HasImage(items[i], archive) then
      Some(newGuid(MatchCount(items[..i], archive)) + Paths.Extension(archive[ImportFolder(items[i])][0]))
    else None
  }

  /** `a` and `b` are the same entity with the same fields, except perhaps
      for `ImagePath`. */
  predicate SameExceptImage(a: Item, b: Item) {
    a.WithImagePath("") == b.WithImagePath("")
  }

  /** The URL prefix of copied images. */
  const ImagesUrl := "/images/items/"

  /** The staged entities after the copy step: each matched entity's
      `ImagePath` points at its copied file; nothing else changes. */
  function Linked(items: seq<Item>, archive: map<string, seq<string>>, newGuid: nat -> Guid): (linked: seq<Item>)
    ensures |linked| == |items|
  {
    seq(|items|, i requires 0 <= i < |items| =>
      var name := ImageFileName(items, archive, newGuid, i);
      if name.Some? then items[i].WithImagePath(ImagesUrl + name.value) else items[i])
  }

  /** The copy step touches only image paths: unmatched entities are kept
      as they are, and each matched one links to a file the step copied. */
  lemma LinkedSpec(items: seq<Item>, archive: map<string, seq<string>>, newGuid: nat -> Guid)
    ensures var linked := Linked(items, archive, newGuid);
      && (forall i :: 0 <= i < |items| ==> SameExceptImage(linked[i], items[i]))
      && (forall i :: 0 <= i < |items| && !HasImage(items[i], archive) ==> linked[i] == items[i])
      && (forall i :: 0 <= i < |items| && HasImage(items[i], archive) ==>
            exists name :: linked[i].ImagePath() == Some(ImagesUrl + name) && name in Copied(items, archive, newGuid, |items|))
  {
    var linked := Linked(items, archive, newGuid);
    forall i | 0 <= i < |items| && HasImage(items[i], archive)
      ensures exists name :: linked[i].ImagePath() == Some(ImagesUrl + name) && name in Copied(items, archive, newGuid, |items|)
    {
      var name := ImageFileName(items, archive, newGuid, i).value;
      assert name in Copied(items, archive, newGuid, |items|);
      assert linked[i].ImagePath() == Some(ImagesUrl + name);
    }
  }

  /** The names of the files the copy step writes into the image folder. */
  function Copied(items: seq<Item>, archive: map<string, seq<string>>, newGuid: nat -> Guid, n: nat): set<string>
    requires n <= |items|
  {
    set i | 0 <= i < n && HasImage(items[i], archive) :: ImageFileName(items, archive, newGuid, i).value
  }

  lemma CopiedStep(items: seq<Item>, archive: map<string, seq<string>>, newGuid: nat -> Guid, n: nat)
    requires n < |items|
    ensures Copied(items, archive, newGuid, n + 1) ==
      Copied(items, archive, newGuid, n) + (if HasImage(items[n], archive) then {ImageFileName(items, archive, newGuid, n).value} else {})
  {
  }

  /** One more entity through the copy loop: the count, the linked prefix
      and the copied names each grow by that entity's contribution. */
  lemma CopyStep(items: seq<Item>, archive: map<string, seq<string>>, newGuid: nat -> Guid, i: nat)
    requires i < |items|
    ensures MatchCount(items[..i + 1], archive) == MatchCount(items[..i], archive) + (if HasImage(items[i], archive) then 1 else 0)
    ensures Linked(items, archive, newGuid)[..i + 1] == Linked(items, archive, newGuid)[..i] + [Linked(items, archive, newGuid)[i]]
    ensures HasImage(items[i], archive) ==>
      ImageFileName(items, archive, newGuid, i) ==
        Some(newGuid(MatchCount(items[..i], archive)) + Paths.Extension(archive[ImportFolder(items[i])][0]))
    ensures Copied(items, archive, newGuid, i + 1) ==
      Copied(items, archive, newGuid, i) + (if HasImage(items[i], archive) then {ImageFileName(items, archive, newGuid, i).value} else {})
  {
    assert items[..i + 1][..i] == items[..i];
    CopiedStep(items, archive, newGuid, i);
  }

  /** The copy loop of `Commit`, with the running count of GUIDs drawn: it
      skips entities without a usable external id or a non-empty folder and
      links the rest, each to a freshly named copy of its folder's first
      file. */
  method CopyImages(items: seq<Item>, archive: map<string, seq<string>>, newGuid: nat -> Guid)
    returns (linked: seq<Item>, copied: set<string>)
    ensures linked == Linked(items, archive, newGuid)
    ensures copied == Copied(items, archive, newGuid, |items|)
  {
    linked := [];
    copied := {};
    var draws := 0;
    var i := 0;
    while i < |items|
      invariant 0 <= i <= |items|
      invariant draws == MatchCount(items[..i], archive)
      invariant linked == Linked(items, archive, newGuid)[..i]
      invariant copied == Copied(items, archive, newGuid, i)
    {
      var item := items[i];
      CopyStep(items, archive, newGuid, i);
      if !HasImage(item, archive) {
        linked := linked + [item];
      } else {
        var fileName := newGuid(draws) + Paths.Extension(archive[ImportFolder(item)][0]);
        draws := draws + 1;
        copied := copied + {fileName};
        linked := linked + [item.WithImagePath(ImagesUrl + fileName)];
      }
      i := i + 1;
    }
    assert items[..|items|] == items;
  }

  /** The site state `Commit` touches: the memory cache, the store and the
      names of the files in the image folder. */
  datatype World = World(cache: MemoryRepository.Cache, db: DbRepository.Store, images: set<string>)

  datatype CommitOutcome = NothingToCommit | ZipRequired | ExtractionFailed | SaveFailed | Committed

  datatype CommitResult = CommitResult(world: World, outcome: CommitOutcome)

  /** `Commit`: refuses without a staged batch or a ZIP and fails on an
      archive that cannot be extracted, changing nothing. Otherwise it
      copies the matched images, links them on the staged entities
      themselves (so the cached batch sees the change too), saves the
      batch, and only when the save succeeds clears the staging area. The
      save succeeds when the database accepts the batch's foreign keys and
      `saveSucceeds` says nothing else goes wrong. */
  function Commit(w: World, upload: Upload<ZipPayload>, saveSucceeds: bool, newGuid: nat -> Guid): (res: CommitResult)
    ensures res.outcome in {NothingToCommit, ZipRequired, ExtractionFailed} ==> res.world == w
    ensures res.outcome.NothingToCommit? <==> MemoryRepository.Get(w.cache) == []
    ensures res.outcome.ExtractionFailed? <==> MemoryRepository.Get(w.cache) != [] && upload == Uploaded(Corrupt)
    ensures w.images <= res.world.images
    ensures res.outcome.Committed? <==>
      && MemoryRepository.Get(w.cache) != [] && upload.Uploaded? && upload.content.Archive?
      && saveSucceeds && DbRepository.ForeignKeysHold(MemoryRepository.Get(w.cache))
    ensures res.outcome.Committed? ==>
      && MemoryRepository.Get(res.world.cache) == []
      && |res.world.db.restaurants| + |res.world.db.menuItems| ==
         |w.db.restaurants| + |w.db.menuItems| + |MemoryRepository.Get(w.cache)|
    ensures res.outcome.SaveFailed? <==>
      && MemoryRepository.Get(w.cache) != [] && upload.Uploaded? && upload.content.Archive?
      && !(saveSucceeds && DbRepository.ForeignKeysHold(MemoryRepository.Get(w.cache)))
    ensures res.outcome.SaveFailed? ==>
      && res.world.db == w.db
      && MemoryRepository.Get(res.world.cache) == Linked(MemoryRepository.Get(w.cache), upload.content.folders, newGuid)
  {
    var staged := MemoryRepository.Get(w.cache);
    if |staged| == 0 then CommitResult(w, NothingToCommit)
    else match upload
      case NoFile => CommitResult(w, ZipRequired)
      case EmptyFile => CommitResult(w, ZipRequired)
      case Uploaded(Corrupt) => CommitResult(w, ExtractionFailed)
      case Uploaded(Archive(folders)) =>
        var linked := Linked(staged, folders, newGuid);
        var images := w.images + Copied(staged, folders, newGuid, |staged|);
        var cache := MemoryRepository.Save(w.cache, Some(linked));
        LinkedKeepsForeignKeys(staged, folders, newGuid);
        if saveSucceeds && DbRepository.ForeignKeysHold(linked) then
          PartitionSizes(linked);
          PartitionSizes(staged);
          CommitResult(World(MemoryRepository.Clear(cache), DbRepository.Save(w.db, linked), images), Committed)
        else CommitResult(World(cache, w.db, images), SaveFailed)
  }

  /** The placeholder image's extension. */
  lemma DefaultImageExtension()
    ensures Paths.Extension(DefaultImage) == ".jpg"
  {
    assert Paths.StartsExtension(DefaultImage, 7);
  }

  /** The folders exported for entities with an external id hold the
      placeholder image. */
  lemma {:induction false} ExportedFolderContents(items: seq<Item>, draw: nat, newGuid: nat -> Guid, i: nat)
    requires i < |items| && items[i].ExternalId().Some?
    ensures var folders := ExportFolders(items, draw, newGuid);
      FolderOf(items[i].ExternalId().value) in folders && folders[FolderOf(items[i].ExternalId().value)] == [DefaultImage]
  {
    ExportFoldersSpec(items, draw, newGuid);
    assert ExportName(items, draw, newGuid, i) == FolderOf(items[i].ExternalId().value);
  }

  /** Round trip: uploading the downloaded ZIP unchanged gives an image to
      exactly the staged entities whose external id is not blank, each a
      ".jpg" named by the next fresh GUID. An entity without an id got a
      folder named by a GUID on the way out but is not matched on the way
      back. */
  lemma DownloadThenCommitRoundTrip(cache: MemoryRepository.Cache, exportGuid: nat -> Guid, importGuid: nat -> Guid, i: nat)
    requires MemoryRepository.Get(cache) != []
    requires i < |MemoryRepository.Get(cache)|
    ensures var items := MemoryRepository.Get(cache);
      var folders := DownloadZip(cache, true, exportGuid).folders;
      && (HasImage(items[i], folders) <==> !Text.IsNullOrWhiteSpace(items[i].ExternalId()))
      && (HasImage(items[i], folders) ==>
            Linked(items, folders, importGuid)[i].ImagePath() ==
              Some(ImagesUrl + importGuid(MatchCount(items[..i], folders)) + ".jpg"))
  {
    var items := MemoryRepository.Get(cache);
    var folders := ExportFolders(items, 0, exportGuid);
    assert DownloadZip(cache, true, exportGuid) == Zip(folders);
    if !Text.IsNullOrWhiteSpace(items[i].ExternalId()) {
      ExportedRoundTrip(items, 0, exportGuid, importGuid, i);
    }
  }

  /** The round trip on the exported folders themselves. */
  lemma ExportedRoundTrip(items: seq<Item>, draw: nat, exportGuid: nat -> Guid, importGuid: nat -> Guid, i: nat)
    requires i < |items| && !Text.IsNullOrWhiteSpace(items[i].ExternalId())
    ensures var folders := ExportFolders(items, draw, exportGuid);
      && HasImage(items[i], folders)
      && Linked(items, folders, importGuid)[i].ImagePath() ==
           Some(ImagesUrl + importGuid(MatchCount(items[..i], folders)) + ".jpg")
  {
    var folders := ExportFolders(items, draw, exportGuid);
    var id := items[i].ExternalId().value;
    assert ImportFolder(items[i]) == FolderOf(id);
    ExportedFolderContents(items, draw, exportGuid, i);
    assert folders[FolderOf(id)][0] == DefaultImage;
    DefaultImageExtension();
    var name := ImageFileName(items, folders, importGuid, i);
    assert name == Some(importGuid(MatchCount(items[..i], folders)) + ".jpg");
    assert Linked(items, folders, importGuid)[i] == items[i].WithImagePath(ImagesUrl + name.value);
    var guid := importGuid(MatchCount(items[..i], folders));
    assert ImagesUrl + (guid + ".jpg") == ImagesUrl + guid + ".jpg";
  }

  /** Equal concatenations with equally long heads have equal heads. */
  lemma SameLengthPrefix(x: string, y: string, e: string, f: string)
    requires |x| == |y| && x + e == y + f
    ensures x == y
  {
    assert (x + e)[..|x|] == x;
    assert (y + f)[..|y|] == y;
  }

  /** Matching is in staging order: an earlier matched entity has drawn
      strictly fewer GUIDs than any later point. */
  lemma {:induction false} MatchCountGrows(items: seq<Item>, archive: map<string, seq<string>>, i: nat, j: nat)
    requires i < j <= |items| && HasImage(items[i], archive)
    ensures MatchCount(items[..i], archive) < MatchCount(items[..j], archive)
  {
    assert items[..j][..j - 1] == items[..j - 1];
    if j - 1 > i {
      MatchCountGrows(items, archive, i, j - 1);
    } else {
      assert items[..j - 1] == items[..i];
    }
  }

  /** With a GUID source that never repeats and always has the same length,
      no two entities are linked to the same copied file. */
  lemma DistinctImageFiles(items: seq<Item>, archive: map<string, seq<string>>, newGuid: nat -> Guid, i: nat, j: nat)
    requires forall a: nat, b: nat :: newGuid(a) == newGuid(b) ==> a == b
    requires forall a: nat :: |newGuid(a)| == 36
    requires i < j < |items| && HasImage(items[i], archive) && HasImage(items[j], archive)
    ensures ImageFileName(items, archive, newGuid, i) != ImageFileName(items, archive, newGuid, j)
  {
    MatchCountGrows(items, archive, i, j);
    var a := MatchCount(items[..i], archive);
    var b := MatchCount(items[..j], archive);
    var ei := Paths.Extension(archive[ImportFolder(items[i])][0]);
    var ej := Paths.Extension(archive[ImportFolder(items[j])][0]);
    assert ImageFileName(items, archive, newGuid, i) == Some(newGuid(a) + ei);
    assert ImageFileName(items, archive, newGuid, j) == Some(newGuid(b) + ej);
    if newGuid(a) + ei == newGuid(b) + ej {
      SameLengthPrefix(newGuid(a), newGuid(b), ei, ej);
    }
  }

  /** What `Commit` writes: on success the store gains the rows of the
      linked batch and staging is cleared; when the save fails (on a foreign
      key or otherwise) the store is unchanged but the
      cached batch already carries the new image paths, differing from what
      was staged in nothing else, and the copied files stay. */
  lemma CommitWrites(w: World, folders: map<string, seq<string>>, saveSucceeds: bool, newGuid: nat -> Guid)
    requires MemoryRepository.Get(w.cache) != []
    ensures var staged := MemoryRepository.Get(w.cache);
      var res := Commit(w, Uploaded(Archive(folders)), saveSucceeds, newGuid);
      var linked := Linked(staged, folders, newGuid);
      && res.world.images == w.images + Copied(staged, folders, newGuid, |staged|)
      && (saveSucceeds && DbRepository.ForeignKeysHold(staged) ==>
            && res.world.db.restaurants == w.db.restaurants + DbRepository.Rows(RestaurantsOf(linked))
            && res.world.db.menuItems == w.db.menuItems + DbRepository.Rebase(MenuItemsOf(linked), |w.db.restaurants|))
      && (!(saveSucceeds && DbRepository.ForeignKeysHold(staged)) ==>
            && res.world.db == w.db
            && MemoryRepository.Get(res.world.cache) == linked
            && |MemoryRepository.Get(res.world.cache)| == |staged|
            && forall k :: 0 <= k < |staged| ==> SameExceptImage(MemoryRepository.Get(res.world.cache)[k], staged[k]))
  {
    LinkedSpec(MemoryRepository.Get(w.cache), folders, newGuid);
  }

  /** The copy step leaves the batch's foreign keys as they were. */
  lemma LinkedKeepsForeignKeys(items: seq<Item>, archive: map<string, seq<string>>, newGuid: nat -> Guid)
    ensures DbRepository.ForeignKeysHold(Linked(items, archive, newGuid)) <==> DbRepository.ForeignKeysHold(items)
  {
    LinkedSpec(items, archive, newGuid);
    ImageChangesKeepLinks(Linked(items, archive, newGuid), items);
  }

  /** A batch holding a menu item without a restaurant never commits: the
      save fails on the foreign key whatever else happens, the store is
      unchanged and the cache keeps the batch with its new image paths. */
  lemma UnlinkedMenuItemNeverCommits(w: World, folders: map<string, seq<string>>, saveSucceeds: bool, newGuid: nat -> Guid, k: nat)
    requires k < |MenuItemsOf(MemoryRepository.Get(w.cache))|
    requires MenuItemsOf(MemoryRepository.Get(w.cache))[k].restaurant.None?
    ensures var res := Commit(w, Uploaded(Archive(folders)), saveSucceeds, newGuid);
      && res.outcome == SaveFailed
      && res.world.db == w.db
      && MemoryRepository.Get(res.world.cache) == Linked(MemoryRepository.Get(w.cache), folders, newGuid)
  {
    PartitionSizes(MemoryRepository.Get(w.cache));
  }

  /** Every link of an imported batch points inside the batch. */
  lemma ImportedLinksResolve(raws: seq<ImportFactory.RawImportItem>, newGuid: nat -> Guid)
    ensures DbRepository.LinksResolve(ImportFactory.Create(raws, newGuid))
  {
    var items := ImportFactory.Create(raws, newGuid);
    forall m <- MenuItemsOf(items)
      ensures m.restaurant.Some? ==> m.restaurant.value < |RestaurantsOf(items)|
    {
      var j :| 0 <= j < |MenuItemsOf(items)| && MenuItemsOf(items)[j] == m;
      ImportFactory.CreateLinks(raws, newGuid, j);
    }
  }

  /** Changing only image paths changes neither partition's size nor any
      menu item's link. */
  lemma {:induction false} ImageChangesKeepLinks(a: seq<Item>, b: seq<Item>)
    requires |a| == |b| && forall i :: 0 <= i < |a| ==> SameExceptImage(a[i], b[i])
    ensures |RestaurantsOf(a)| == |RestaurantsOf(b)| && |MenuItemsOf(a)| == |MenuItemsOf(b)|
    ensures forall k :: 0 <= k < |MenuItemsOf(a)| ==> MenuItemsOf(a)[k].restaurant == MenuItemsOf(b)[k].restaurant
  {
    if |a| > 0 {
      ImageChangesKeepLinks(a[1..], b[1..]);
      assert a[0].R? == b[0].R?;
      if a[0].M? {
        assert a[0].m.restaurant == b[0].m.restaurant;
      }
    }
  }

  /** A commit keeps the store something the database can hold, whatever
      is staged: a batch with a menu item that links nowhere is never
      saved. */
  lemma CommitKeepsStoreWellFormed(w: World, upload: Upload<ZipPayload>, saveSucceeds: bool, newGuid: nat -> Guid)
    requires DbRepository.WellFormed(w.db)
    ensures DbRepository.WellFormed(Commit(w, upload, saveSucceeds, newGuid).world.db)
  {
    var staged := MemoryRepository.Get(w.cache);
    if staged != [] && upload.Uploaded? && upload.content.Archive? && saveSucceeds && DbRepository.ForeignKeysHold(staged) {
      var linked := Linked(staged, upload.content.folders, newGuid);
      LinkedKeepsForeignKeys(staged, upload.content.folders, newGuid);
      DbRepository.SavePreservesWellFormed(w.db, linked);
    }
  }
}
