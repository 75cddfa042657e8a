# Restaurant catalogue: bulk import and approval, modelled in Dafny

The system is an ASP.NET MVC catalogue of restaurants and their menu items.
This project models its core in Dafny. There are two halves.

**Bulk import.** A JSON payload of records is turned into Pending entities by
`ImportItemFactory`. Pass 1 builds the restaurants, keyed by their trimmed
payload id. Pass 2 builds the menu items, each linked to the restaurant its
`restaurantId` names. The batch is staged in the process-wide memory cache.
It is then exported as a ZIP with one `item-<id>` folder per entity, holding
a placeholder image. The ZIP comes back with real images: each entity
with a non-blank external id and a non-empty folder gets the first file
copied under a fresh GUID name, with its `ImagePath` set. The batch is saved
to the store, and the staging area is cleared only if the save succeeds.

**Approval.** Who may approve an entity is a property of the entity
(`GetValidators`):
- A restaurant may be approved only by the site admin.
- A menu item may be approved only by the owner of its linked restaurant.

The approval filter lets a request through only when the caller is among
the approvers of every targeted entity found in the store, comparing
lower-cased. The dashboard (`VerificationController`), the catalogue
(`CatalogController`) and the owner's request pages (`RequestsController`)
list and route on top of this.

Modules, one per source concern:

| file | module | models |
|---|---|---|
| wrappers.dfy | Wrappers | `Option`, for C# null |
| seqs.dfy | Seqs | order-keeping selection (LINQ `Where`) |
| text.dfy | Text | `IsNullOrWhiteSpace`, `Trim`, `ToLowerInvariant`, `OrdinalIgnoreCase` |
| paths.dfy | Paths | `Path.GetExtension` |
| models.dfy | Models | `Restaurant`, `MenuItem`, `IItemValidating` |
| import_factory.dfy | ImportFactory | `ImportItemFactory.Create` |
| memory_repository.dfy | MemoryRepository | `ItemsInMemoryRepository` |
| db_repository.dfy | DbRepository | `ItemsDbRepository` |
| callers.dfy | Callers | the signed-in principal and its email |
| queries.dfy | StoreQueries | the controllers' store queries |
| approve_filter.dfy | ApproveFilter | `ApproveAuthorizationFilterAttribute` |
| verification.dfy | Verification | `VerificationController` |
| catalog.dfy | Catalog | `CatalogController` |
| requests.dfy | Requests | `RequestsController` |
| bulk_import.dfy | BulkImport | `BulkImportController` |
| scenario.dfy | Scenario | a worked example: one restaurant and its menu item, staged, exported, committed and approved |

Representation choices:
- A menu item's navigation link (`MenuItem.Restaurant`) is an index into the
  restaurants of the batch or store that holds it. An index out of range
  behaves as a null link. Saving a batch shifts the links by the number of
  restaurants already stored, so each item keeps pointing at the same
  restaurant, as Entity Framework's object graph does.
- The store holds rows. `ExternalId` is not mapped to a column, so a saved
  entity's row has no external id. The entities in the cache keep theirs.
- `SaveAsync` is the sequence of context calls it makes:
  - add the restaurants, if any;
  - add the menu items, if any;
  - save changes, exactly once.

  This sequence is run against the store.
- GUIDs come from a function `newGuid: nat -> Guid`. Its k-th value is the
  k-th GUID an action draws for an entity: a folder name on export, an
  image file name on commit.
- The uploaded file, the parsed JSON and the extracted ZIP are given to the
  actions as values.
- So are whether the placeholder image exists and whether the store's save
  fails for a reason other than a foreign key. Foreign keys are modelled:
  the save of a batch with a menu item that links to no restaurant fails.

Behaviours worth knowing:
- **Staging is one global slot.** All callers share the cache key
  `BulkImportItems` (`MemoryRepository.CacheKey`). Staging is not kept
  separate per caller.
- **A failed save is not rolled back.** `Commit` sets `ImagePath` on the
  staged objects themselves, and the cache holds those same objects. So
  when the save fails, the cached batch already carries the new image paths
  (`BulkImport.Commit`, `BulkImport.CommitWrites`), and the copied image
  files stay.
- **Blank ids are never matched.** `Commit` skips external ids that are
  null or white space, not only empty ones. An entity without an id still
  gets a GUID-named folder in the export, but that folder is never matched
  on the way back (`BulkImport.DownloadThenCommitRoundTrip`).
- **A menu item whose restaurant id matches nothing blocks its whole
  batch.** The factory leaves such an item with a null navigation and
  `RestaurantId` 0. The foreign key is required (Domain/Models/MenuItem.cs:21-25),
  so the save throws, and the batch can never be committed
  (`BulkImport.UnlinkedMenuItemNeverCommits`). It stays staged with its new
  image paths until another upload replaces it. Every store `Commit`
  builds has each menu item linked (`BulkImport.CommitKeepsStoreWellFormed`),
  so the approval filter's check for a menu item without a restaurant
  guards only against stores filled by other means.
- **`Commit`'s temporary folder can leak.** It is deleted only on
  `Commit`'s success path (BulkImportController.cs:208), so an extraction
  or save failure leaves it behind. `DownloadZip` also deletes its
  temporary folder when the placeholder image is missing. Temporary folders
  are not part of this model.

## Model

| member | source | states |
|---|---|---|
| Text.TrimSpec | DataAccess/Factory/ImportItemFactory.cs:39-41 | `Trim` removes exactly the leading and trailing white space: what remains is a contiguous slice with non-white-space ends, and it is empty exactly when the input is all white space |
| Text.TrimIdempotent | DataAccess/Factory/ImportItemFactory.cs:41 | trimming a trimmed id changes nothing |
| Text.ToLower | RestaurantMVC/Filters/ApproveAuthorizationFilterAttribute.cs:38 | the result keeps the length and has no upper-case letter: each upper-case letter becomes the same letter of the alphabet in lower case, and every other character is kept |
| Text.ToLowerIdempotent | RestaurantMVC/Filters/ApproveAuthorizationFilterAttribute.cs:69-72 | lower-casing twice is lower-casing once, so comparing lower-cased emails is stable |
| Paths.Extension | RestaurantMVC/Controllers/BulkImportController.cs:182 | the extension is empty or a '.' plus at least one character; it is non-empty exactly when the last path component has a '.' that is not its final character, and then it is the suffix from that '.' |
| Models.Item.WithImagePath | RestaurantMVC/Controllers/BulkImportController.cs:190-198 | setting the image path keeps the entity type, external id and status |
| Models.CardPartialIdentifiesType | Domain/Models/MenuItem.cs:53 | the card partial (`GetCardPartial`) of two entities is the same exactly when they are of the same type, so restaurants and menu items never share a card |
| Models.ValidatorsAreNonBlankOwners | Domain/Models/MenuItem.cs:40-50 | nobody approves under a blank address, and a menu item's approver is always the owner address of a restaurant it can link to, never an address from elsewhere |
| Models.RestaurantValidatorsIgnoreFields | Domain/Models/Restaurant.cs:40-47 | every restaurant has the same approver list, the site admin address, whatever its fields |
| Models.UnlinkedMenuItemHasNoValidators | Domain/Models/MenuItem.cs:40-50 | a menu item without a link has nobody who may approve it |
| Models.PartitionSizes | DataAccess/ItemsDbRepository.cs:33-34 | the `OfType` partitions of a list cover it |
| Models.PartitionAppend | DataAccess/ItemsDbRepository.cs:33-34 | partitioning distributes over concatenation, keeping order |
| ImportFactory.LinkKey | DataAccess/Factory/ImportItemFactory.cs:58-59 | an id yields a dictionary key exactly when it is not null or white space |
| ImportFactory.IndexOf | DataAccess/Factory/ImportItemFactory.cs:23-42 | pass 1's dictionary maps each key to a position holding it with no later position holding it, and contains every key that occurs |
| ImportFactory.LookupFindsLast | DataAccess/Factory/ImportItemFactory.cs:39-42 | a lookup succeeds exactly when some restaurant has the key, and then finds the last one: a duplicate id overwrites |
| ImportFactory.Create | DataAccess/Factory/ImportItemFactory.cs:17-67 | the output holds every restaurant record's entity and then every menu item record's entity, each part in payload order, and nothing else |
| ImportFactory.CreateFields | DataAccess/Factory/ImportItemFactory.cs:26-55 | every entity is Pending and keeps the payload id verbatim; missing name, owner and title become "", a missing price 0; menu item keys are fresh GUIDs in order |
| ImportFactory.CreateLinks | DataAccess/Factory/ImportItemFactory.cs:57-62 | a menu item is linked exactly when its trimmed restaurant id equals the trimmed id of some restaurant with a non-blank id, and then to the last such restaurant |
| ImportFactory.BlankIdNeverLinked | DataAccess/Factory/ImportItemFactory.cs:39-42 | a restaurant with a blank id is never a link target |
| ImportFactory.MatchingIdsLink | DataAccess/Factory/ImportItemFactory.cs:57-62 | matching non-blank ids after trimming always link, to that restaurant or a later duplicate |
| ImportFactory.CreatedMenuItemValidators | DataAccess/Factory/ImportItemFactory.cs:57-62 | an imported menu item may be approved only by the payload owner of the restaurant it was linked to, and by nobody when unlinked or when that owner is blank |
| ImportFactory.RecordsKeepPayloadOrder | DataAccess/Factory/ImportItemFactory.cs:26-27 | each pass takes its records in payload order |
| ImportFactory.OtherRecordTypesDropped | DataAccess/Factory/ImportItemFactory.cs:26-47 | a record whose type is neither "restaurant" nor "menuItem" in any letter case leaves the output unchanged |
| MemoryRepository.Save | DataAccess/ItemsInMemoryRepository.cs:19-30 | after a save `GetAsync` returns the saved list, or an empty one for null; no other cache entry changes |
| MemoryRepository.Clear | DataAccess/ItemsInMemoryRepository.cs:32-36 | after a clear nothing is staged; no other cache entry changes |
| MemoryRepository.SaveReplaces | DataAccess/ItemsInMemoryRepository.cs:25-30 | a later save replaces an earlier one wholesale |
| MemoryRepository.ClearIdempotent | DataAccess/ItemsInMemoryRepository.cs:32-36 | clearing twice is clearing once |
| MemoryRepository.ClearUndoesSave | DataAccess/ItemsInMemoryRepository.cs:25-36 | clearing after a save leaves the cache as clearing alone would |
| DbRepository.SaveOps | DataAccess/ItemsDbRepository.cs:31-47 | a save adds the restaurants exactly when there are some and the menu items exactly when there are some, then commits once, last |
| DbRepository.Save | DataAccess/ItemsDbRepository.cs:31-47 | the store gains the rows of the batch's restaurants and then of its menu items, appended in order, with links shifted past the stored restaurants |
| DbRepository.SaveKeepsLinks | DataAccess/ItemsDbRepository.cs:31-47 | each saved menu item resolves to the row of the restaurant it resolved to in the batch and keeps the same approvers; stored items resolve as before |
| DbRepository.SavePreservesWellFormed | DataAccess/ItemsDbRepository.cs:31-47 | saving a batch whose foreign keys hold keeps every stored menu item linked to a stored restaurant |
| DbRepository.SaveDropsExternalIds | Domain/Models/Restaurant.cs:30-32 | the rows a save adds keep no external id and otherwise equal the batch's entities, up to the rebased link |
| DbRepository.GetAll | DataAccess/ItemsDbRepository.cs:21-29 | every restaurant and then every menu item, nothing else: the partitions are exactly the two tables |
| Callers.CallerEmail | RestaurantMVC/Filters/ApproveAuthorizationFilterAttribute.cs:28-30 | the caller's email is one of its own two identifiers, missing only when both are, and the identity name is used only without an email claim |
| Callers.IsSiteAdminIgnoresCase | RestaurantMVC/Controllers/CatalogController.cs:119-120 | the controllers' admin check accepts exactly the addresses that lower-case to the admin address; its emptiness test excludes nothing more |
| StoreQueries.RestaurantsWithStatus | RestaurantMVC/Controllers/VerificationController.cs:44-46 | exactly the stored restaurants with that status |
| StoreQueries.RestaurantsOwnedBy | RestaurantMVC/Controllers/RequestsController.cs:32-34 | exactly the stored restaurants whose owner address equals the email, case-sensitively |
| StoreQueries.MenuItemsWithStatus | RestaurantMVC/Controllers/CatalogController.cs:77-93 | exactly the stored menu items with that status, of the given restaurant when one is given |
| StoreQueries.MenuItemsOfRestaurant | RestaurantMVC/Controllers/RequestsController.cs:59-61 | exactly the stored menu items of that restaurant, any status |
| ApproveFilter.LoadRestaurantsMembers | RestaurantMVC/Filters/ApproveAuthorizationFilterAttribute.cs:63-65 | the filter loads exactly the stored restaurants whose key was requested |
| ApproveFilter.LoadMenuItemsMembers | RestaurantMVC/Filters/ApproveAuthorizationFilterAttribute.cs:81-84 | the filter loads exactly the stored menu items whose key was requested |
| ApproveFilter.OnActionExecution | RestaurantMVC/Filters/ApproveAuthorizationFilterAttribute.cs:17-106 | the early-exit loop allows exactly when the caller is authenticated, has a non-empty email, names a non-blank item type, and may approve every checked entity; an unauthenticated caller is always refused |
| ApproveFilter.RestaurantApprovalNeedsSiteAdmin | RestaurantMVC/Filters/ApproveAuthorizationFilterAttribute.cs:61-78 | once a requested restaurant exists, the request passes exactly when the caller is the site admin in any letter case; owners cannot approve their own restaurants |
| ApproveFilter.MenuItemApprovalNeedsOwner | RestaurantMVC/Filters/ApproveAuthorizationFilterAttribute.cs:79-97 | a menu item request passes exactly when the caller owns, in any letter case, the non-blank-owned linked restaurant of every requested menu item found |
| ApproveFilter.UnlinkedMenuItemForbidsEveryone | RestaurantMVC/Filters/ApproveAuthorizationFilterAttribute.cs:86-96 | one requested menu item without a link refuses the whole request, whoever asks |
| ApproveFilter.AbsentIdsNeverDeny | RestaurantMVC/Filters/ApproveAuthorizationFilterAttribute.cs:61-97 | keys matching nothing in the store never change the decision |
| ApproveFilter.AllOrNothing | RestaurantMVC/Filters/ApproveAuthorizationFilterAttribute.cs:67-77 | a request for two lists passes exactly when each list passes alone: no partial approval |
| ApproveFilter.UncheckedRequestsPass | RestaurantMVC/Filters/ApproveAuthorizationFilterAttribute.cs:59-97 | an item type other than exactly "restaurant" or "menuItem", or an empty or missing key list, passes an identified caller without a lookup |
| Verification.Index | RestaurantMVC/Controllers/VerificationController.cs:31-74 | a challenge exactly without an email; the pending restaurants exactly for the site admin; otherwise the caller's own restaurants, or the pending menu items of the chosen restaurant |
| Verification.MenuItemPageIgnoresOwnership | RestaurantMVC/Controllers/VerificationController.cs:62-73 | every signed-in caller who is not the site admin sees the same pending menu items of any restaurant, owned or not |
| Verification.ApproveRoute | RestaurantMVC/Controllers/VerificationController.cs:84-89 | a request approves one kind of entity only, the kind its item type names exactly, and forwards exactly the keys requested for that kind, none for a missing list |
| Verification.ApprovedKeysAreApprovable | RestaurantMVC/Controllers/VerificationController.cs:76-92 | when the filtered action reaches the store, every stored restaurant whose key it forwards was requested by the site admin, and every stored menu item's by the owner of its linked restaurant |
| Verification.UncheckedTypeApprovesNothing | RestaurantMVC/Controllers/VerificationController.cs:87-89 | an item type the filter does not inspect passes but approves nothing |
| Catalog.ApprovalModeShowsOnlyPending | RestaurantMVC/Controllers/CatalogController.cs:42-71 | in approval mode, in any letter case, the site admin gets a listing of pending entities only |
| Catalog.Index | RestaurantMVC/Controllers/CatalogController.cs:32-99 | approval mode is refused exactly to non-admins; "restaurants" and "menu", in any letter case, list exactly the stored entities of the listed status (and restaurant); any other type lists nothing |
| Catalog.PublicCatalogShowsOnlyApproved | RestaurantMVC/Controllers/CatalogController.cs:42-71 | outside approval mode anyone gets a listing, and only of approved entities |
| Catalog.Approve | RestaurantMVC/Controllers/CatalogController.cs:105-131 | only the site admin reaches the store; a request approves one kind of entity only, exactly "restaurants" or "menu", and forwards exactly the keys requested for that kind |
| Catalog.RestaurantRoutesAgree | RestaurantMVC/Controllers/CatalogController.cs:119-127 | for restaurants that exist, the catalogue and the dashboard route make the same decision and the same store call |
| Catalog.AdminBypassesOwnershipForMenuItems | RestaurantMVC/Controllers/CatalogController.cs:119-127 | the site admin can approve through the catalogue a menu item the dashboard route refuses them |
| Requests.Index | RestaurantMVC/Controllers/RequestsController.cs:23-37 | a challenge exactly without an email; otherwise exactly the stored restaurants the caller owns, case-sensitively |
| Requests.FirstOwned | RestaurantMVC/Controllers/RequestsController.cs:51-52 | the first restaurant with that key and owner, or none when there is none |
| Requests.GetDetails | RestaurantMVC/Controllers/RequestsController.cs:41-66 | not found exactly when the caller owns no stored restaurant with that key; otherwise that restaurant and exactly its menu items of every status |
| BulkImport.Stage | RestaurantMVC/Controllers/BulkImportController.cs:42-66 | without a file the staged batch is kept and shown; a malformed payload stages nothing; otherwise the imported batch replaces the staged one and nothing else in the cache changes |
| BulkImport.RestagingReplaces | RestaurantMVC/Controllers/BulkImportController.cs:42-66 | a second upload discards the first batch entirely, and a missing or malformed one keeps it |
| BulkImport.FolderOfInjective | RestaurantMVC/Controllers/BulkImportController.cs:102 | different external ids never share an `item-` folder, so a folder names the id it was exported for |
| BulkImport.ExportFoldersSpec | RestaurantMVC/Controllers/BulkImportController.cs:93-108 | the exported folders are exactly one per entity: `item-` + its external id, or `item-` + the next fresh GUID when it has none; each holds only the placeholder |
| BulkImport.DownloadZip | RestaurantMVC/Controllers/BulkImportController.cs:71-119 | refuses exactly when nothing is staged, fails exactly when the placeholder is missing, and otherwise exports exactly the staged entities' folders, named by id or by fresh GUID, each holding only the placeholder |
| BulkImport.ImageFileName | RestaurantMVC/Controllers/BulkImportController.cs:170-183 | an entity gets a file name exactly when its id is not blank and its folder exists and is not empty |
| BulkImport.LinkedSpec | RestaurantMVC/Controllers/BulkImportController.cs:161-199 | the copy step changes only image paths; unmatched entities are kept as they are; each matched one links to a file the step copied |
| BulkImport.CopyImages | RestaurantMVC/Controllers/BulkImportController.cs:161-199 | the loop with its running GUID count links and copies exactly what the closed-form description says |
| BulkImport.Commit | RestaurantMVC/Controllers/BulkImportController.cs:124-212 | refusals and extraction failures change nothing; image files only accumulate; it commits exactly with a staged batch, an archive, foreign keys that hold and an otherwise successful save, and then staging is empty and the store grew by the batch; a failed save leaves the store as it was and the cached batch carrying the new image paths |
| BulkImport.CommitWrites | RestaurantMVC/Controllers/BulkImportController.cs:186-205 | a commit copies the matched files; on success the store gains the rows of the linked batch; on a failed save the store is unchanged and the cache holds the linked batch, which differs from the staged one only in image paths |
| BulkImport.LinkedKeepsForeignKeys | RestaurantMVC/Controllers/BulkImportController.cs:190-198 | setting image paths neither makes nor breaks the batch's foreign keys |
| BulkImport.UnlinkedMenuItemNeverCommits | Domain/Models/MenuItem.cs:21-25 | a staged menu item without a restaurant makes every commit fail at the save: the store is unchanged and the cache holds the batch with its new image paths |
| BulkImport.DefaultImageExtension | RestaurantMVC/Controllers/BulkImportController.cs:106 | the placeholder's extension is ".jpg" |
| BulkImport.ExportedFolderContents | RestaurantMVC/Controllers/BulkImportController.cs:102-107 | an entity with an id finds exactly the placeholder in its exported folder |
| BulkImport.DownloadThenCommitRoundTrip | RestaurantMVC/Controllers/BulkImportController.cs:161-188 | sending the downloaded ZIP back matches exactly the entities with a non-blank id, each linked to a ".jpg" named by the next fresh GUID |
| BulkImport.MatchCountGrows | RestaurantMVC/Controllers/BulkImportController.cs:183 | matched entities draw GUIDs in staging order, so an earlier one has drawn fewer |
| BulkImport.DistinctImageFiles | RestaurantMVC/Controllers/BulkImportController.cs:183-186 | with non-repeating, fixed-length GUIDs no two entities share a copied file |
| BulkImport.ImportedLinksResolve | DataAccess/Factory/ImportItemFactory.cs:57-62 | every link of an imported batch points inside the batch |
| BulkImport.ImageChangesKeepLinks | RestaurantMVC/Controllers/BulkImportController.cs:190-198 | changing image paths changes neither partition sizes nor any link |
| BulkImport.CommitKeepsStoreWellFormed | RestaurantMVC/Controllers/BulkImportController.cs:201-202 | whatever is staged, a commit keeps every stored menu item linked to a stored restaurant |
| Scenario.PayloadBuildsLinkedPair | DataAccess/Factory/ImportItemFactory.cs:17-67 | the example payload (restaurant R-1 and menu item M-1 naming R-1) becomes a pending restaurant and a pending menu item linked to it, each carrying its external id |
| Scenario.ExportNamesBothFolders | RestaurantMVC/Controllers/BulkImportController.cs:71-119 | exporting the staged pair produces folders item-R-1 and item-M-1, each holding the default image |
| Scenario.CommitLinksOnlyTheMenuItem | RestaurantMVC/Controllers/BulkImportController.cs:124-212 | committing with an archive that has a photo only for item-M-1 empties the staging area, copies one image under a fresh name with the photo's extension, and stores the restaurant's row and the menu item's row, linked to it with that image's URL, both without payload ids |
| Scenario.OwnerApprovesOnlyTheMenuItem | RestaurantMVC/Filters/ApproveAuthorizationFilterAttribute.cs:17-97 | for the stored pair, the restaurant's owner writing the address in other letter case may approve the menu item but not the restaurant |

## Left out

- JSON deserialisation: the payload arrives as parsed records (`None` for the JSON literal `null`) or as malformed. Case-insensitive property names are the deserialiser's concern.
- Payloads holding a `null` element, such as `[null]`: the factory throws on the element's `Type` and nothing is staged. Such payloads count as `Malformed`.
- `ItemsDbRepository.ClearAsync`: a no-op that nothing calls on the store.
- `RawImportItem`'s `Description`, `Address`, `Phone` and `Currency`: read from the payload but never used.
- The GET `BulkImport` action: it only shows `MemoryRepository.Get`.
- Files, directories and ZIP archives: an archive is the map from folder name to file names.
- The file order of `Directory.GetFiles`: it is taken as the archive lists it.
- BulkImport.ExportFoldersSpec, BulkImport.FolderOfInjective, BulkImport.ImageFileName, BulkImport.DownloadZip: folder names are compared exactly, as on a case-sensitive file system. On Windows, ids that differ only in letter case share one exported folder, and an archive folder renamed in other letter case still matches.
- Paths inside archives: a file name contains no separator and an id names one top-level folder. Ids are unchecked payload text, and BulkImportController.cs:173 combines them into a path. An id such as `/../../../somedir` therefore makes `Commit` look outside the extracted archive and copy that directory's first file into the public image folder, and any signed-in user may call `Commit`. The model cannot express this. `Path.GetExtension` is applied to the file name, which gives the same result as applying it to the full path.
- Temporary directories, the ZIP's own temporary file and their cleanup. The GUIDs drawn for their names are left out too.
- GUID generation: a GUID source function.
- Identity and foreign-key assignment by the store: an imported restaurant keeps `id` 0 and a menu item keeps `restaurantId` 0.
- The body of `ItemsDbRepository.ApproveAsync`, which is not part of this model. The status transition it performs is therefore absent. Approval actions end in the `ApproveCall` they would make.
- Store failures other than a failed save during `Commit`.
- Column constraints other than the menu item's foreign key, such as `[Required]` and `[MaxLength]`: a save they would reject is one given `saveSucceeds` false.
- Rendering: views, redirects, `ModelState` messages, `ViewBag`, the catalogue's `view` parameter.
- The framework gates `[Authorize]` and `[ValidateAntiForgeryToken]`. The filter's own authentication check is modelled.
- The catalogue's default parameter values: callers pass every argument.
- Database collation: store-side `==` comparisons are modelled as exact. A case-insensitive collation would make them ignore case.
- Concurrency between requests, including two callers racing on the shared staging slot.
- `decimal` prices: modelled as `real`, carried and never computed on.
- Text.ToLower: maps only the ASCII letters A–Z. `ToLowerInvariant` also maps other Unicode letters.
- StoreQueries.RestaurantsWithStatus: states which restaurants are listed, not their order. The selection keeps store order.
- StoreQueries.RestaurantsOwnedBy: states which restaurants are listed, not their order.
- StoreQueries.MenuItemsWithStatus: states which menu items are listed, not their order.
- StoreQueries.MenuItemsOfRestaurant: states which menu items are listed, not their order.
- Catalog.Index: states what each listing contains, not its order.
- Verification.Index: states what each listing contains, not its order.
- Requests.Index: states what the listing contains, not its order.
