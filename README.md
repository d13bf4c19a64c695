# Archive reconciliation core of the Flipper Zero iOS app, in Dafny

This project models the part of the Flipper Zero iOS app that keeps the
local archive of device files (sub-GHz, RFID, NFC, infrared and iButton
keys):

- the `Archive` class. It owns the ordered array of archive items, applies
  every local mutation (find, upsert, soft delete, wipe, rename, duplicate,
  favourite, import, restore), builds the manifest of (path, hash) pairs,
  and guards the device synchronisation with its `isSynchronizing` flag;
- `ArchiveItem.Name`, the display name parsed from a filename and ordered
  by its string value;
- the derived views of `ArchiveViewModel` (sorted items, favourites,
  per-type groups), its import queue and its selection;
- the firmware, protobuf and storage texts that `DeviceViewModel` derives
  from the connected Flipper, and the alert flags its `status` raises.

Layout, one module per file:

| file | module | models |
|---|---|---|
| wrappers.dfy | `Wrappers` | Swift `Optional` and `throws` as `Option`, `Result`, `Outcome` |
| text.dfy | `Text` | Swift `split(separator:)` (empty pieces omitted) and the decimal text of an `Int` |
| seqs.dfy | `Seqs` | Swift `filter` and its laws |
| archive_name.dfy | `ArchiveName` | `ArchiveItem.Name` |
| archive_item.dfy | `ArchiveItems` | the item, status, file type and manifest entities |
| archive_ops.dfy | `ArchiveOps` | each `Archive` operation as a function on the item sequence, with its properties |
| archive.dfy | `ArchiveCore` | the `Archive` class, each method specified by its `ArchiveOps` function |
| archive_view_model.dfy | `ArchiveView` | `ArchiveViewModel` |
| device_view_model.dfy | `DeviceView` | `DeviceViewModel` |

Modelling choices:

- Some definitions lie outside the modelled Swift files: `ArchiveItem`
  (its `id`, `path`, `hash`, `content`, `Status` and `rename(to:)`),
  `Manifest` and its lookup `manifest[path]`. The item is therefore a
  datatype whose fields hold those values as given.
- `rename(to:)` is a function parameter (`Renamer`). Nothing is assumed
  about it, in particular not that it keeps the id. The archive only
  removes the old id and appends whatever `rename(to:)` returns.
- The lookup `manifest[path]` is also a function parameter (`Lookup`).
  Lemmas that need it sound ask for `LookupSound`: the lookup returns an
  entry of the manifest at that path, and `None` only when no entry is
  at that path.
- The status is written `.synchronizied` in Archive.swift:77 and
  `.synchronized` in the view layer. Both are the one status
  `Synchronized`.
- The time used by `duplicate` is passed in as an integer number of
  seconds since 1970. It is rendered the way Swift interpolates an `Int`:
  decimal digits, with a `-` for negative values.
- `syncWithDevice()` suspends at its `await`. The method is split there
  into `BeginSync` (the guard and the raising of the flag), `Synchronize`
  (the collaborator) and `EndSync` (the caught error and the `defer`). This
  way a second call can arrive while the first one is suspended
  (`OverlappingSyncs`). The collaborator's result is a parameter, so the
  proofs hold for success and for failure alike. The collaborator may
  leave the items in any state, also a parameter. A ghost counter records
  how often the collaborator is called.
- Values that the view models receive through `.receive(on:
  DispatchQueue.main)` arrive after `init()`: the constructors start from
  the declared defaults, and `SetItems`, `SetFlipper` and `SetStatus`
  deliver the values. The import queue's subscription has no such hop,
  so its current value is delivered inside `init()`.
- `ArchiveItem.FileType` is defined outside the modelled Swift files. Its
  datatype here has the five kinds that `groups` counts, plus `Other` for
  any further kind.

Three behaviours of the code worth knowing:

- A filename without a `.` is a valid name: `"abc"` gives `"abc"`.
  `"abc.sub"` and `".abc"` both give `"abc"`. `InvalidName` is raised only
  when the filename is empty or holds nothing but dots.
- `rename` and `duplicate` give the new entry whatever id
  `ArchiveItem.rename(to:)` gives it. If that renamer keeps ids, then
  `duplicate` leaves two entries with one id
  (`DuplicateWithIdKeepingRenamer`). Unique ids are kept by upsert, wipe,
  delete, favourite, importKey and restore. Rename and duplicate keep them
  only when the new id is not already taken
  (`RenameDuplicateKeepUniqueIds`).
- `restore` does not check whether the entry is deleted. A deleted entry
  comes back as synchronized or imported (`RestoreEffect`).

## Model

| member | source | states |
|---|---|---|
| `ArchiveName.FromString` | Flipper/Packages/Core/Sources/Archive/Item/ArchiveItem+Name.swift:5-7 | `init(_:)` keeps the string verbatim |
| `ArchiveName.FromLiteral` | Flipper/Packages/Core/Sources/Archive/Item/ArchiveItem+Name.swift:27-29 | `init(stringLiteral:)` builds the same name as `init(_:)` |
| `ArchiveName.Description` | Flipper/Packages/Core/Sources/Archive/Item/ArchiveItem+Name.swift:21-23 | `description` returns the stored string, and building a name from it gives back the name |
| `ArchiveName.FromFilename` | Flipper/Packages/Core/Sources/Archive/Item/ArchiveItem+Name.swift:12-17 | fails with `invalidName` exactly when the filename holds nothing but `.` (the empty string included); otherwise the name is the first maximal run of non-`.` characters after the leading dots, non-empty and without `.` |
| `ArchiveName.FromFilenameNoDot` | Flipper/Packages/Core/Sources/Archive/Item/ArchiveItem+Name.swift:12-17 | a non-empty filename without `.` parses to itself |
| `ArchiveName.FromFilenameWithExtension` | Flipper/Packages/Core/Sources/Archive/Item/ArchiveItem+Name.swift:12-17 | round trip: for a non-empty `n` without `.`, `n + "." + ext` parses to `n` whatever `ext` is |
| `ArchiveName.Less` | Flipper/Packages/Core/Sources/Archive/Item/ArchiveItem+Name.swift:33-38 | `<` compares the string values, and a name is never below itself |
| `ArchiveName.LessIrreflexive` | Flipper/Packages/Core/Sources/Archive/Item/ArchiveItem+Name.swift:33-38 | equal names are never `<` each other |
| `ArchiveName.LessTransitive` | Flipper/Packages/Core/Sources/Archive/Item/ArchiveItem+Name.swift:33-38 | `<` on names is transitive |
| `ArchiveName.LessAsymmetric` | Flipper/Packages/Core/Sources/Archive/Item/ArchiveItem+Name.swift:33-38 | `a < b` excludes `b < a` |
| `ArchiveName.LessTotal` | Flipper/Packages/Core/Sources/Archive/Item/ArchiveItem+Name.swift:33-38 | two different names are ordered one way or the other |
| `Text.Split` | Flipper/Packages/Core/Sources/Archive/Item/ArchiveItem+Name.swift:13 | every piece of `split(separator:)` is non-empty and holds no separator |
| `Text.SplitConcat` | Flipper/Packages/Core/Sources/Archive/Item/ArchiveItem+Name.swift:13 | the pieces glued together are the input with its separators removed: only separators are dropped |
| `Text.SplitEmpty` | Flipper/Packages/Core/Sources/Archive/Item/ArchiveItem+Name.swift:13-15 | there is no piece exactly when the input holds nothing but separators |
| `Text.SplitFirst` | Flipper/Packages/Core/Sources/Archive/Item/ArchiveItem+Name.swift:13 | the first piece is the longest separator-free word after the leading separators |
| `Text.SplitWord` | Flipper/Packages/UI/Sources/Device/DeviceViewModel.swift:38-41 | a separator-free word followed by a separator is split off as the first piece |
| `Text.IntToDecimal` | FlipperZero/Packages/Core/Sources/Archive/Archive.swift:87 | the text of an `Int` in `"\(...)"` is non-empty and holds no `_` or `.` |
| `Text.DecimalRoundTrip` | FlipperZero/Packages/Core/Sources/Archive/Archive.swift:87 | the decimal text of the timestamp reads back as the same integer |
| `ArchiveOps.FirstIndex` | FlipperZero/Packages/Core/Sources/Archive/Archive.swift:104-109 | `firstIndex(where:)` returns the first position with the id, or `None` when no entry has it |
| `ArchiveOps.FindIn` | FlipperZero/Packages/Core/Sources/Archive/Archive.swift:39-41 | `find` returns the first entry with the id, and `None` exactly when no entry has it |
| `ArchiveCore.Archive.Find` | FlipperZero/Packages/Core/Sources/Archive/Archive.swift:39-41 | the class's `find` is `FindIn` on its items |
| `ArchiveCore.Archive.constructor` | FlipperZero/Packages/Core/Sources/Archive/Archive.swift:27-29 | the items are the stored ones and no synchronisation is in flight |
| `Seqs.Filter` | FlipperZero/Packages/Core/Sources/Archive/Archive.swift:33 | Swift's `filter` never yields more elements than it is given (also Archive.swift:113, ArchiveViewModel.swift:20 and :37-41) |
| `ArchiveOps.Active` | FlipperZero/Packages/Core/Sources/Archive/Archive.swift:33 | `filter { $0.status != .deleted }` keeps only entries of the collection, none of them deleted (also Archive.swift:113) |
| `ArchiveOps.ManifestOf` | FlipperZero/Packages/Core/Sources/Archive/Archive.swift:31-37 | the manifest has at most one pair per entry of the collection |
| `ArchiveCore.Archive.GetManifest` | FlipperZero/Packages/Core/Sources/Archive/Archive.swift:31-37 | the loop builds `ManifestOf(items)`, the (path, hash) pairs of the non-deleted items |
| `ArchiveOps.ManifestAppend` | FlipperZero/Packages/Core/Sources/Archive/Archive.swift:31-37 | the manifest keeps collection order: the manifest of `s + t` is that of `s` followed by that of `t` |
| `ArchiveOps.ManifestOne` | FlipperZero/Packages/Core/Sources/Archive/Archive.swift:31-37 | one item contributes exactly its (path, hash) pair when not deleted, and nothing when deleted |
| `ArchiveOps.ManifestMembers` | FlipperZero/Packages/Core/Sources/Archive/Archive.swift:31-37 | one pair per non-deleted item; every pair comes from a non-deleted item |
| `ArchiveOps.RemoveId` | FlipperZero/Packages/Core/Sources/Archive/Archive.swift:44 | `removeAll` by id keeps only old entries, none of them with the id, and never grows the collection |
| `ArchiveOps.Upserted` | FlipperZero/Packages/Core/Sources/Archive/Archive.swift:43-46 | after `upsert(x)`, `x` is last and no entry before it has its id |
| `ArchiveCore.Archive.Upsert` | FlipperZero/Packages/Core/Sources/Archive/Archive.swift:43-46 | the new items are `Upserted(old items, item)` |
| `ArchiveOps.UpsertEffect` | FlipperZero/Packages/Core/Sources/Archive/Archive.swift:43-46 | after `upsert(x)`, `x` is the last entry and no other entry has its id; the others keep their values and relative order |
| `ArchiveOps.UpsertKeepsUniqueIds` | FlipperZero/Packages/Core/Sources/Archive/Archive.swift:43-46 | upsert keeps ids unique |
| `ArchiveCore.Archive.DeleteItem` | FlipperZero/Packages/Core/Sources/Archive/Archive.swift:48-50 | soft delete of an item: the first entry with its id becomes deleted |
| `ArchiveCore.Archive.Delete` | FlipperZero/Packages/Core/Sources/Archive/Archive.swift:52-56 | soft delete by id: the same effect; an unknown id changes nothing |
| `ArchiveOps.SoftDeleteHidesFromManifest` | FlipperZero/Packages/Core/Sources/Archive/Archive.swift:48-56 | with unique ids, a soft-deleted item leaves the manifest exactly as a wiped one would, and `find` still returns it, now deleted |
| `ArchiveOps.Wiped` | FlipperZero/Packages/Core/Sources/Archive/Archive.swift:58-64 | after `wipe(id)` no entry has the id |
| `ArchiveCore.Archive.WipeItem` | FlipperZero/Packages/Core/Sources/Archive/Archive.swift:58-60 | hard removal of every entry with the item's id |
| `ArchiveCore.Archive.Wipe` | FlipperZero/Packages/Core/Sources/Archive/Archive.swift:62-64 | hard removal of every entry with the id |
| `ArchiveOps.WipeEffect` | FlipperZero/Packages/Core/Sources/Archive/Archive.swift:58-64 | after `wipe(id)` no entry has the id and `find` returns none; the others keep their values and order; no manifest pair comes from an entry with that id |
| `ArchiveOps.Renamed` | FlipperZero/Packages/Core/Sources/Archive/Archive.swift:66-72 | every entry but the last is an old entry without the id |
| `ArchiveCore.Archive.Rename` | FlipperZero/Packages/Core/Sources/Archive/Archive.swift:66-72 | the new items are `Renamed(old items, id, name, rename)` |
| `ArchiveOps.RenameEffect` | FlipperZero/Packages/Core/Sources/Archive/Archive.swift:66-72 | a missing id changes nothing; otherwise every entry with the id goes, the others keep their order, and the renamed copy is appended last |
| `ArchiveOps.RenameKeepsIdentity` | FlipperZero/Packages/Core/Sources/Archive/Archive.swift:66-72 | if `rename(to:)` keeps the id and takes the name, `find(id)` afterwards returns the renamed copy, with the new name |
| `ArchiveOps.RestoredStatus` | FlipperZero/Packages/Core/Sources/Archive/Archive.swift:75-80 | `restore` sets either synchronized or imported, nothing else |
| `ArchiveOps.Restored` | FlipperZero/Packages/Core/Sources/Archive/Archive.swift:74-81 | `restore` keeps the length and every id: only statuses change |
| `ArchiveCore.Archive.Restore` | FlipperZero/Packages/Core/Sources/Archive/Archive.swift:74-81 | the new items are `Restored(old items, item, lookup)`, decided on the manifest of the old items |
| `ArchiveOps.RestoreDecision` | FlipperZero/Packages/Core/Sources/Archive/Archive.swift:74-81 | with a sound lookup and one entry per path, the status becomes synchronized exactly when the manifest holds (`item.path`, `item.hash`), and imported otherwise |
| `ArchiveOps.RestoreSynchronizedHasEntry` | FlipperZero/Packages/Core/Sources/Archive/Archive.swift:74-81 | for any manifest and a sound lookup, synchronized is set only when the manifest holds (`item.path`, `item.hash`) |
| `ArchiveOps.RestoreEffect` | FlipperZero/Packages/Core/Sources/Archive/Archive.swift:74-81 | only the status of the first entry with the id changes, and a deleted entry is not spared |
| `ArchiveOps.RestoreScenario` | FlipperZero/Packages/Core/Sources/Archive/Archive.swift:74-81 | one imported item at "a.sub" with hash "H1", restored against its own manifest, becomes synchronized |
| `ArchiveOps.DuplicateName` | FlipperZero/Packages/Core/Sources/Archive/Archive.swift:87 | the generated name is the old name, then `_`, then something more |
| `ArchiveOps.Duplicated` | FlipperZero/Packages/Core/Sources/Archive/Archive.swift:83-91 | the old collection is a prefix of the new one, which is at most one longer; an item comes back exactly when the id is found |
| `ArchiveCore.Archive.Duplicate` | FlipperZero/Packages/Core/Sources/Archive/Archive.swift:83-91 | the new items and the result are `Duplicated(old items, id, timestamp, rename)` |
| `ArchiveOps.DuplicateEffect` | FlipperZero/Packages/Core/Sources/Archive/Archive.swift:83-91 | a missing id gives nil and no change; otherwise nothing is removed, the collection grows by one, and the returned item is the appended copy named `name.value + "_" + timestamp` |
| `ArchiveOps.DuplicateNameParts` | FlipperZero/Packages/Core/Sources/Archive/Archive.swift:87 | the generated name differs from the original, begins with it and `_`, and ends with the timestamp |
| `ArchiveOps.DuplicateWithIdKeepingRenamer` | FlipperZero/Packages/Core/Sources/Archive/Archive.swift:83-91 | if `rename(to:)` keeps ids, duplicating leaves two entries with the same id |
| `ArchiveOps.RenameDuplicateKeepUniqueIds` | FlipperZero/Packages/Core/Sources/Archive/Archive.swift:66-91 | rename and duplicate keep ids unique when the new entry's id is not already taken |
| `ArchiveOps.Favorited` | FlipperZero/Packages/Core/Sources/Archive/Archive.swift:93-98 | `favorite` keeps the length, every id and every status |
| `ArchiveCore.Archive.Favorite` | FlipperZero/Packages/Core/Sources/Archive/Archive.swift:93-98 | the new items are `Favorited(old items, id)` |
| `ArchiveOps.FavoritedFrame` | FlipperZero/Packages/Core/Sources/Archive/Archive.swift:93-98 | only the favourite flag of the first entry with the id is toggled; every status is unchanged; an unknown id changes nothing |
| `ArchiveOps.FavoriteTwice` | FlipperZero/Packages/Core/Sources/Archive/Archive.swift:93-98 | toggling twice restores the collection |
| `ArchiveOps.FavoriteStatusCommute` | FlipperZero/Packages/Core/Sources/Archive/Archive.swift:93-109 | a favourite toggle and a status change commute, so neither can undo the other |
| `ArchiveCore.Archive.UpdateStatusOfItem` | FlipperZero/Packages/Core/Sources/Archive/Archive.swift:100-102 | updating by item is updating by its id |
| `ArchiveOps.StatusUpdated` | FlipperZero/Packages/Core/Sources/Archive/Archive.swift:104-109 | a status update keeps the length, every id and every favourite flag |
| `ArchiveCore.Archive.UpdateStatus` | FlipperZero/Packages/Core/Sources/Archive/Archive.swift:104-109 | the new items are `StatusUpdated(old items, id, status)` |
| `ArchiveOps.StatusUpdatedFrame` | FlipperZero/Packages/Core/Sources/Archive/Archive.swift:104-109 | length and order are kept, only the status of the first entry with the id changes (its favourite flag too stays), and an unknown id changes nothing |
| `ArchiveOps.AlreadyImported` | FlipperZero/Packages/Core/Sources/Archive/Archive.swift:112-114 | `isExist` holds exactly when some non-deleted entry has the key's id and content |
| `ArchiveOps.ImportKeyed` | FlipperZero/Packages/Core/Sources/Archive/Archive.swift:111-121 | after `importKey(x)` a non-deleted entry with `x`'s id and content is there |
| `ArchiveCore.Archive.ImportKey` | FlipperZero/Packages/Core/Sources/Archive/Archive.swift:111-121 | the new items are `ImportKeyed(old items, item)` |
| `ArchiveOps.ImportKeyEffect` | FlipperZero/Packages/Core/Sources/Archive/Archive.swift:111-121 | no change when a non-deleted entry has the same id and content; otherwise the key, marked imported, becomes the last and only entry with its id, a deleted one replaced too |
| `ArchiveOps.ImportKeyIdempotent` | FlipperZero/Packages/Core/Sources/Archive/Archive.swift:111-121 | importing the same key twice in a row is importing it once |
| `ArchiveOps.OperationsKeepUniqueIds` | FlipperZero/Packages/Core/Sources/Archive/Archive.swift:43-121 | upsert, wipe, status updates, favourite, importKey and restore keep ids unique |
| `ArchiveCore.Archive.BeginSync` | FlipperZero/Packages/Core/Sources/Archive/Archive.swift:124-125 | the guard: it starts only when no synchronisation is in flight, and the flag is up afterwards |
| `ArchiveCore.Archive.Synchronize` | FlipperZero/Packages/Core/Sources/Archive/Archive.swift:129 | one call of the collaborator, with whatever outcome it reports; the items may change in any way |
| `ArchiveCore.Archive.EndSync` | FlipperZero/Packages/Core/Sources/Archive/Archive.swift:126-132 | the error is caught and the `defer` lowers the flag, on success and on failure |
| `ArchiveCore.Archive.SyncWithDevice` | FlipperZero/Packages/Core/Sources/Archive/Archive.swift:123-133 | while a synchronisation is in flight, it returns without calling the collaborator and leaves the items as they were; otherwise it calls it exactly once and the flag is down on exit; no error escapes |
| `ArchiveCore.OverlappingSyncs` | FlipperZero/Packages/Core/Sources/Archive/Archive.swift:123-133 | a second call made while the first is suspended reaches the collaborator not at all: one call in total, and the flag is down at the end |
| `ArchiveView.InsertByName` | Flipper/Packages/UI/Sources/Archive/ArchiveViewModel.swift:16 | insertion into a name-sorted sequence keeps it sorted and adds exactly one element |
| `ArchiveView.InsertKeepsTies` | Flipper/Packages/UI/Sources/Archive/ArchiveViewModel.swift:16 | the inserted item goes in front of every entry with its name, and the order of the others is kept |
| `ArchiveView.SortedItems` | Flipper/Packages/UI/Sources/Archive/ArchiveViewModel.swift:15-17 | `sortedItems` is a permutation of the items, non-decreasing by name |
| `ArchiveView.SortedItemsStable` | Flipper/Packages/UI/Sources/Archive/ArchiveViewModel.swift:16 | the sort is stable, as Swift's `sorted(by:)` is: for every name, the items with that name keep their input order |
| `ArchiveView.FavoriteItems` | Flipper/Packages/UI/Sources/Archive/ArchiveViewModel.swift:19-21 | `favoriteItems` holds only favourite entries of the items, and no more of them than there are items |
| `ArchiveView.FavoriteItemsSpec` | Flipper/Packages/UI/Sources/Archive/ArchiveViewModel.swift:19-21 | `favoriteItems` holds exactly the favourite items, in their original order |
| `ArchiveView.CountOfType` | Flipper/Packages/UI/Sources/Archive/ArchiveViewModel.swift:37-41 | `items.filter { $0.fileType == type }.count` is at most the number of items |
| `ArchiveView.Groups` | Flipper/Packages/UI/Sources/Archive/ArchiveViewModel.swift:35-43 | five groups keyed subghz, rfid, nfc, infrared, ibutton in that order |
| `ArchiveView.GroupsCount` | Flipper/Packages/UI/Sources/Archive/ArchiveViewModel.swift:35-43 | each group's count is the number of items of that file type |
| `ArchiveView.GroupsBound` | Flipper/Packages/UI/Sources/Archive/ArchiveViewModel.swift:35-43 | the counts add up to the number of items not of another type, hence at most `items.count` |
| `ArchiveView.ArchiveViewModel.constructor` | Flipper/Packages/UI/Sources/Archive/ArchiveViewModel.swift:45-60 | `items` starts empty, as the archive's items come on the main queue later; subscribing delivers the current queue: `hasImportedItem` is raised only when it is non-empty |
| `ArchiveView.ArchiveViewModel.SetItems` | Flipper/Packages/UI/Sources/Archive/ArchiveViewModel.swift:46-48 | a delivered value of the archive's items becomes `items` |
| `ArchiveView.ArchiveViewModel.SetImportQueue` | Flipper/Packages/UI/Sources/Archive/ArchiveViewModel.swift:56-60 | a queue update raises `hasImportedItem` only when the queue is non-empty, and an empty queue never lowers it |
| `ArchiveView.ArchiveViewModel.ImportedItem` | Flipper/Packages/UI/Sources/Archive/ArchiveViewModel.swift:28-30 | with a non-empty queue, returns its first element and leaves the queue without it; the remaining queue is published like any update |
| `ArchiveView.ArchiveViewModel.OnItemSelected` | Flipper/Packages/UI/Sources/Archive/ArchiveViewModel.swift:63-66 | sets `selectedItem` to the item and `showInfoView` to true |
| `DeviceView.Supported` | Flipper/Packages/UI/Sources/Device/DeviceViewModel.swift:27 | the guard `flipper?.isUnsupported == false` fails when there is no Flipper |
| `DeviceView.ProtobufVersion` | Flipper/Packages/UI/Sources/Device/DeviceViewModel.swift:26-31 | nil unless a Flipper is there with `isUnsupported == false`; then its protobuf revision, or "-" without information |
| `DeviceView.RevisionTokens` | Flipper/Packages/UI/Sources/Device/DeviceViewModel.swift:38-40 | the tokens of the software revision are non-empty and hold no space |
| `DeviceView.FirmwareVersion` | Flipper/Packages/UI/Sources/Device/DeviceViewModel.swift:33-46 | "" without information; otherwise the second non-empty space-separated token, or "" with fewer than two |
| `DeviceView.FirmwareBuild` | Flipper/Packages/UI/Sources/Device/DeviceViewModel.swift:48-60 | "" without information; otherwise the last non-empty space-separated token, or "" with none |
| `DeviceView.FirmwareOfThreeWords` | Flipper/Packages/UI/Sources/Device/DeviceViewModel.swift:33-60 | a revision of three words has the second as version and the third as build |
| `DeviceView.FirmwareOfOneWord` | Flipper/Packages/UI/Sources/Device/DeviceViewModel.swift:33-60 | with a single token, the build is that token and the version is "" |
| `DeviceView.InternalSpace` | Flipper/Packages/UI/Sources/Device/DeviceViewModel.swift:62-67 | nil under the same guard as `protobufVersion`; "" when no internal storage is reported, else its description |
| `DeviceView.ExternalSpace` | Flipper/Packages/UI/Sources/Device/DeviceViewModel.swift:69-74 | nil under the same guard; "" when no external storage is reported, else its description |
| `DeviceView.DeviceViewModel.constructor` | Flipper/Packages/UI/Sources/Device/DeviceViewModel.swift:12-16 | no device, and both alert flags down |
| `DeviceView.DeviceViewModel.SetFlipper` | Flipper/Packages/UI/Sources/Device/DeviceViewModel.swift:77-80 | a delivered value of the app's Flipper becomes `flipper` |
| `DeviceView.DeviceViewModel.SetStatus` | Flipper/Packages/UI/Sources/Device/DeviceViewModel.swift:16-24 | `.pairingIssue` raises the pairing alert, `.unsupportedDevice` raises the version alert, any other status leaves both flags as they were |

## Left out

- Persistence: the `items` observer that writes the collection to storage
  (Archive.swift:21-25) and the manifest file storage, whose errors are
  dropped. This is file I/O with nothing to state about it.
- Publication through Combine and SwiftUI: `@Published`,
  `objectWillChange.send()`, the `shared` singleton, `@Inject`, and the
  subscription pipelines. A pipeline is modelled only as the delivery of
  its value (`SetItems`, `SetFlipper`, `SetStatus`, `SetImportQueue`) and,
  where it carries a rule of its own, that rule (`hasImportedItem`).
- Timing: the `isSynchronizing` observer that records a start date and
  prints the elapsed seconds, and reading the clock for the duplicate
  timestamp. The timestamp is an integer parameter.
- `ArchiveCore.Archive.EndSync`: the `catch` logs the error with
  `print("syncronization error", error)` (Archive.swift:131). This is
  console output, so the model only drops the error.
- The real synchronisation collaborator. It is modelled as one call with
  an arbitrary success or failure that may leave the items in any state.
  Which upserts, restores and wipes it performs is not modelled. The
  concurrency of the `await` is modelled only through the split at the
  suspension point.
- `ArchiveName.Less`: it compares strings Unicode scalar by scalar, and
  `Name` equality is equality of the scalar sequences. Swift's `<` and `==`
  on `String` use Unicode canonical equivalence, which is not modelled.
- `ArchiveName.FromFilename`: `split(separator:)` is modelled as splitting
  per Unicode scalar. Swift compares `Character`s, that is extended
  grapheme clusters: a `.` followed by a combining mark is one `Character`
  that is not `"."`, so Swift does not split there and the model does.
- `DeviceView.FirmwareVersion`, `DeviceView.FirmwareBuild`: the software
  revision is split on `" "` per Unicode scalar, not per Swift `Character`,
  so a space followed by a combining mark splits in the model and not in
  Swift.
- `DeviceView.InternalSpace`, `DeviceView.ExternalSpace`: the text of
  `StorageSpace.description` comes from `ByteCountFormatter`, a platform
  formatter. It is a parameter.
- `archive.$deletedItems` and the `deleted` list of `ArchiveViewModel`.
  The archive class modelled here has no such list.
- `EmulateViewModel`, `NFCEditorView`, `CardHeaderView`,
  `showWelcomeScreen` and `sync` of `DeviceViewModel`. They are device RPC,
  polling tasks, UI, or calls into `AppState`, which is not part of this
  model.
