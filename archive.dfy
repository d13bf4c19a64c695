/**
 * The `Archive` class: it owns the ordered array of archive items and every
 * mutation of it, and guards the device synchronisation with its
 * `isSynchronizing` flag. Each method is specified by the function of
 * archive_ops.dfy that describes its effect on the array.
 */
module ArchiveCore {
  import opened Wrappers
  import opened Text
  import opened ArchiveName
  import opened ArchiveItems
  import opened ArchiveOps

  /** What the synchronisation collaborator reports. */
  datatype SyncError = SyncError(reason: string)
  type SyncOutcome = Outcome<SyncError>

  class Archive {
    var items: seq<Item>
    var isSynchronizing: bool
    /** How many times the synchronisation collaborator has been called. */
    ghost var collaboratorCalls: nat

    /** `init()`: the items come from storage. */
    constructor (stored: seq<Item>)
      ensures items == stored && !isSynchronizing && collaboratorCalls == 0
    {
      items := stored;
      isSynchronizing := false;
      collaboratorCalls := 0;
    }

    /** `getManifest()`: the (path, hash) pairs of the non-deleted items, in order. */
    method GetManifest() returns (m: Manifest)
      ensures m == ManifestOf(items)
    {
      var active := Active(items);
      var entries: seq<ManifestEntry> := [];
      for i := 0 to |active|
        invariant entries == Entries(active[..i])
      {
        assert active[..i + 1] == active[..i] + [active[i]];
        EntriesAppend(active[..i], [active[i]]);
        entries := entries + [ManifestEntry(active[i].path, active[i].hash)];
      }
      assert active[..|active|] == active;
      m := Manifest(entries);
    }

    function Find(id: ItemId): (r: Option<Item>)
      reads this
      ensures r == FindIn(items, id)
    {
      FindIn(items, id)
    }

    method Upsert(item: Item)
      modifies this`items
      ensures items == Upserted(old(items), item)
    {
      items := RemoveId(items, item.id) + [item];
    }

    /** `delete(_ item:)`. */
    method DeleteItem(item: Item)
      modifies this`items
      ensures items == StatusUpdated(old(items), item.id, Deleted)
    {
      UpdateStatusOfItem(item, Deleted);
    }

    /** `delete(_ id:)`. */
    method Delete(id: ItemId)
      modifies this`items
      ensures items == StatusUpdated(old(items), id, Deleted)
    {
      var found := Find(id);
      if found.Some? {
        UpdateStatusOfItem(found.value, Deleted);
      }
    }

    /** `wipe(_ item:)`. */
    method WipeItem(item: Item)
      modifies this`items
      ensures items == Wiped(old(items), item.id)
    {
      items := RemoveId(items, item.id);
    }

    /** `wipe(_ id:)`. */
    method Wipe(id: ItemId)
      modifies this`items
      ensures items == Wiped(old(items), id)
    {
      items := RemoveId(items, id);
    }

    method Rename(id: ItemId, name: string, rename: Renamer)
      modifies this`items
      ensures items == Renamed(old(items), id, name, rename)
    {
      var found := Find(id);
      if found.Some? {
        var item := found.value;
        var newItem := rename(item, FromString(name));
        items := RemoveId(items, item.id);
        items := items + [newItem];
      }
    }

    method Restore(item: Item, lookup: Lookup)
      modifies this`items
      ensures items == Restored(old(items), item, lookup)
    {
      var manifest := GetManifest();
      var existing := lookup(manifest, item.path);
      if existing.Some? && existing.value.hash == item.hash {
        UpdateStatusOfItem(item, Synchronized);
      } else {
        UpdateStatusOfItem(item, Imported);
      }
    }

    /** `duplicate(_:)`; `timestamp` is the current time in whole seconds. */
    method Duplicate(id: ItemId, timestamp: int, rename: Renamer) returns (r: Option<Item>)
      modifies this`items
      ensures (items, r) == Duplicated(old(items), id, timestamp, rename)
    {
      var found := Find(id);
      if found.None? {
        return None;
      }
      var item := found.value;
      var newName := DuplicateName(item.name, timestamp);
      var newItem := rename(item, FromString(newName));
      items := items + [newItem];
      r := Some(newItem);
    }

    method Favorite(id: ItemId)
      modifies this`items
      ensures items == Favorited(old(items), id)
    {
      var index := FirstIndex(items, id);
      if index.Some? {
        var i := index.value;
        items := items[i := items[i].(isFavorite := !items[i].isFavorite)];
      }
    }

    /** `updateStatus(of item:to:)`. */
    method UpdateStatusOfItem(item: Item, status: Status)
      modifies this`items
      ensures items == StatusUpdated(old(items), item.id, status)
    {
      UpdateStatus(item.id, status);
    }

    /** `updateStatus(of id:to:)`. */
    method UpdateStatus(id: ItemId, status: Status)
      modifies this`items
      ensures items == StatusUpdated(old(items), id, status)
    {
      var index := FirstIndex(items, id);
      if index.Some? {
        var i := index.value;
        items := items[i := items[i].(status := status)];
      }
    }

    method ImportKey(item: Item)
      modifies this`items
      ensures items == ImportKeyed(old(items), item)
    {
      var isExist := exists y :: y in Active(items) && item.id == y.id && item.content == y.content;
      if !isExist {
        var imported := item.(status := Imported);
        Upsert(imported);
      }
    }

    /**
     * The first half of `syncWithDevice()`, up to its `await`: the guard and
     * the raising of the flag. `started` is false when a synchronisation is
     * already in flight.
     */
    method BeginSync() returns (started: bool)
      modifies this`isSynchronizing
      ensures started == !old(isSynchronizing)
      ensures isSynchronizing
    {
      if isSynchronizing {
        return false;
      }
      isSynchronizing := true;
      started := true;
    }

    /**
     * The synchronisation collaborator, with whatever outcome it reports.
     * It drives the archive's own operations, so the items may change in
     * any way: `itemsAfter` is what it leaves behind.
     */
    method Synchronize(outcome: SyncOutcome, itemsAfter: seq<Item>) returns (result: SyncOutcome)
      modifies this`collaboratorCalls, this`items
      ensures result == outcome
      ensures collaboratorCalls == old(collaboratorCalls) + 1
    {
      collaboratorCalls := collaboratorCalls + 1;
      items := itemsAfter;
      result := outcome;
    }

    /**
     * The second half of `syncWithDevice()`, after its `await`: the error is
     * caught and dropped, so both outcomes end alike, and the `defer`
     * lowers the flag.
     */
    method EndSync(result: SyncOutcome)
      modifies this`isSynchronizing
      ensures !isSynchronizing
    {
      isSynchronizing := false;
    }

    /**
     * `syncWithDevice()`: a call made while a synchronisation is in flight
     * does nothing; otherwise the collaborator is called once and the flag is
     * down again at the end, whatever the collaborator reported.
     */
    method SyncWithDevice(outcome: SyncOutcome, itemsAfter: seq<Item>)
      modifies this`isSynchronizing, this`collaboratorCalls, this`items
      ensures old(isSynchronizing) ==> isSynchronizing && collaboratorCalls == old(collaboratorCalls) && items == old(items)
      ensures !old(isSynchronizing) ==> !isSynchronizing && collaboratorCalls == old(collaboratorCalls) + 1
    {
      var started := BeginSync();
      if !started {
        return;
      }
      var result := Synchronize(outcome, itemsAfter);
      EndSync(result);
    }
  }

  /**
   * Two overlapping `syncWithDevice()` calls: the second one arrives while
   * the first is suspended in the collaborator. The collaborator is called
   * once, and the flag is down at the end.
   */
  method OverlappingSyncs(archive: Archive, first: SyncOutcome, second: SyncOutcome, firstItems: seq<Item>, secondItems: seq<Item>)
    requires !archive.isSynchronizing
    modifies archive
    ensures archive.collaboratorCalls == old(archive.collaboratorCalls) + 1
    ensures !archive.isSynchronizing
  {
    var started := archive.BeginSync();
    assert started;
    var result := archive.Synchronize(first, firstItems);
    archive.SyncWithDevice(second, secondItems);
    archive.EndSync(result);
  }
}
