/**
 * The archive's entities. `ArchiveItem` and `Manifest` are defined outside
 * the modelled files, so only what the archive reads of them appears here:
 * identity, name, file type, path, content hash, content, favourite flag
 * and synchronisation status of an item, and the (path, hash) pairs of a
 * manifest.
 */
module ArchiveItems {
  import opened ArchiveName

  type ItemId = string

  /** `ArchiveItem.Status`. `.synchronizied` in Archive.swift and `.synchronized` elsewhere are the one `Synchronized`. */
  datatype Status = Imported | Synchronizing | Synchronized | Deleted

  /** `ArchiveItem.FileType`: the five kinds the archive groups by; `Other` stands for any further kind. */
  datatype FileType = SubGhz | Rfid | Nfc | Infrared | IButton | Other

  datatype Item = Item(
    id: ItemId,
    name: Name,
    fileType: FileType,
    path: string,
    hash: string,
    content: string,
    isFavorite: bool,
    status: Status)

  /** `Manifest.Item`. */
  datatype ManifestEntry = ManifestEntry(path: string, hash: string)

  datatype Manifest = Manifest(entries: seq<ManifestEntry>)

  /** No two entries of the collection share an identity. */
  ghost predicate UniqueIds(s: seq<Item>)
  {
    forall i, j :: 0 <= i < j < |s| ==> s[i].id != s[j].id
  }

  /** No two entries of the manifest share a path. */
  ghost predicate UniquePaths(m: Manifest)
  {
    forall i, j :: 0 <= i < j < |m.entries| ==> m.entries[i].path != m.entries[j].path
  }
}
