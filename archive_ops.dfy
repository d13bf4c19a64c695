/**
 * What each operation of the `Archive` class does to its ordered `items`
 * array, written as functions on sequences, with the properties the
 * archive promises proved about them. The class in archive.dfy is
 * specified by these functions.
 */
module ArchiveOps {
  import opened Wrappers
  import opened Text
  import opened Seqs
  import opened ArchiveName
  import opened ArchiveItems

  // ---------------------------------------------------------------------
  // Finding entries

  /** `j` is the first position holding `id`. */
  predicate IsFirst(s: seq<Item>, id: ItemId, j: nat)
    requires j < |s|
  {
    s[j].id == id && forall k :: 0 <= k < j ==> s[k].id != id
  }

  /** `items.firstIndex { $0.id == id }`. */
  function FirstIndex(s: seq<Item>, id: ItemId): (r: Option<nat>)
    ensures r.Some? ==> r.value < |s| && IsFirst(s, id, r.value)
    ensures r.None? ==> forall j :: 0 <= j < |s| ==> s[j].id != id
  {
    if s == [] then None
    else if s[0].id == id then Some(0)
    else match FirstIndex(s[1..], id)
      case None => None
      case Some(i) => Some(i + 1)
  }

  /** `find(_:)`, that is `items.first { $0.id == id }`. */
  function FindIn(s: seq<Item>, id: ItemId): (r: Option<Item>)
    ensures r.None? <==> forall j :: 0 <= j < |s| ==> s[j].id != id
    ensures r.Some? ==> exists j :: 0 <= j < |s| && IsFirst(s, id, j) && s[j] == r.value
  {
    match FirstIndex(s, id)
    case None => None
    case Some(i) => Some(s[i])
  }

  /** The test kept by `removeAll { $0.id == id }`. */
  function OtherId(id: ItemId): Item -> bool
  {
    (x: Item) => x.id != id
  }

  /** `removeAll { $0.id == id }`: what stays are old entries, none of them with `id`. */
  function RemoveId(s: seq<Item>, id: ItemId): (r: seq<Item>)
    ensures |r| <= |s|
    ensures forall i :: 0 <= i < |r| ==> r[i] in s && r[i].id != id
  {
    FilterMembers(s, OtherId(id));
    FilterHolds(s, OtherId(id));
    Filter(s, OtherId(id))
  }

  lemma RemoveIdMembers(s: seq<Item>, id: ItemId)
    ensures forall x :: x in RemoveId(s, id) <==> x in s && x.id != id
    ensures forall i :: 0 <= i < |RemoveId(s, id)| ==> RemoveId(s, id)[i].id != id
    ensures |RemoveId(s, id)| <= |s|
  {
    FilterMembers(s, OtherId(id));
    forall i | 0 <= i < |RemoveId(s, id)| ensures RemoveId(s, id)[i].id != id {
      assert RemoveId(s, id)[i] in RemoveId(s, id);
    }
  }

  /** Two collections with the same ids position by position find the same first position. */
  lemma FirstIndexSameIds(s: seq<Item>, t: seq<Item>, id: ItemId)
    requires |s| == |t| && forall j :: 0 <= j < |s| ==> s[j].id == t[j].id
    ensures FirstIndex(s, id) == FirstIndex(t, id)
  {
  }

  // ---------------------------------------------------------------------
  // The manifest

  predicate IsActive(x: Item) { x.status != Deleted }

  /** `items.filter { $0.status != .deleted }`: old entries, none of them deleted. */
  function Active(s: seq<Item>): (r: seq<Item>)
    ensures forall i :: 0 <= i < |r| ==> r[i] in s && r[i].status != Deleted
  {
    FilterHolds(s, IsActive);
    Filter(s, IsActive)
  }

  function EntryOf(x: Item): ManifestEntry
  {
    ManifestEntry(x.path, x.hash)
  }

  /** One (path, hash) pair per item, in order. */
  function Entries(s: seq<Item>): seq<ManifestEntry>
  {
    if s == [] then [] else [EntryOf(s[0])] + Entries(s[1..])
  }

  /** What `getManifest()` returns for the collection `s`: at most one pair per entry. */
  function ManifestOf(s: seq<Item>): (m: Manifest)
    ensures |m.entries| <= |s|
  {
    FilterMembers(s, IsActive);
    EntriesMembers(Active(s));
    Manifest(Entries(Active(s)))
  }

  lemma {:induction false} EntriesAppend(s: seq<Item>, t: seq<Item>)
    ensures Entries(s + t) == Entries(s) + Entries(t)
  {
    if s == [] {
      assert s + t == t;
    } else {
      assert (s + t)[1..] == s[1..] + t;
      EntriesAppend(s[1..], t);
    }
  }

  lemma {:induction false} EntriesMembers(s: seq<Item>)
    ensures |Entries(s)| == |s|
    ensures forall e :: e in Entries(s) <==> exists y :: y in s && EntryOf(y) == e
  {
    if s != [] {
      EntriesMembers(s[1..]);
      assert s == [s[0]] + s[1..];
    }
  }

  /** The manifest of a concatenation is the concatenation of the manifests: order is kept. */
  lemma ManifestAppend(s: seq<Item>, t: seq<Item>)
    ensures ManifestOf(s + t).entries == ManifestOf(s).entries + ManifestOf(t).entries
  {
    FilterAppend(s, t, IsActive);
    EntriesAppend(Active(s), Active(t));
  }

  /** A single item contributes its pair exactly when it is not deleted. */
  lemma ManifestOne(x: Item)
    ensures ManifestOf([x]).entries == if x.status != Deleted then [ManifestEntry(x.path, x.hash)] else []
  {
    assert [x][1..] == [];
    assert Active([x]) == (if IsActive(x) then [x] else []) + Active([]);
    assert Entries([x]) == [EntryOf(x)] + Entries([]);
  }

  /** One pair per non-deleted item, and nothing else. */
  lemma ManifestMembers(s: seq<Item>)
    ensures |ManifestOf(s).entries| == |Active(s)| <= |s|
    ensures forall e :: e in ManifestOf(s).entries <==>
      exists y :: y in s && y.status != Deleted && ManifestEntry(y.path, y.hash) == e
  {
    FilterMembers(s, IsActive);
    EntriesMembers(Active(s));
  }

  // ---------------------------------------------------------------------
  // upsert, wipe

  /** `upsert(_:)`: `x` comes last, and no entry before it has its id. */
  function Upserted(s: seq<Item>, x: Item): (r: seq<Item>)
    ensures |r| >= 1 && r[|r| - 1] == x
    ensures forall i :: 0 <= i < |r| - 1 ==> r[i].id != x.id
  {
    RemoveId(s, x.id) + [x]
  }

  /** After `upsert(x)` the only entry with `x.id` is `x`, last; the others keep their values and order. */
  lemma UpsertEffect(s: seq<Item>, x: Item)
    ensures var r := Upserted(s, x);
      && |r| >= 1 && r[|r| - 1] == x
      && (forall i :: 0 <= i < |r| - 1 ==> r[i].id != x.id)
      && Filter(r, OtherId(x.id)) == Filter(s, OtherId(x.id))
  {
    var r := Upserted(s, x);
    RemoveIdMembers(s, x.id);
    FilterAppend(RemoveId(s, x.id), [x], OtherId(x.id));
    FilterIdempotent(s, OtherId(x.id));
    assert [x][1..] == [];
    assert Filter([x], OtherId(x.id)) == [];
  }

  /** `wipe(_:)`, for an item or an id: no entry with `id` is left. */
  function Wiped(s: seq<Item>, id: ItemId): (r: seq<Item>)
    ensures forall i :: 0 <= i < |r| ==> r[i].id != id
  {
    RemoveId(s, id)
  }

  /** After `wipe(id)` nothing has `id`, the others keep their values and order, and the manifest cannot reference it. */
  lemma WipeEffect(s: seq<Item>, id: ItemId)
    ensures var r := Wiped(s, id);
      && (forall i :: 0 <= i < |r| ==> r[i].id != id)
      && FindIn(r, id) == None
      && Filter(r, OtherId(id)) == Filter(s, OtherId(id))
      && forall e :: e in ManifestOf(r).entries ==>
           exists y :: y in s && y.id != id && y.status != Deleted && ManifestEntry(y.path, y.hash) == e
  {
    RemoveIdMembers(s, id);
    FilterIdempotent(s, OtherId(id));
    ManifestMembers(Wiped(s, id));
  }

  // ---------------------------------------------------------------------
  // updateStatus, delete, favorite

  /** `updateStatus(of:to:)`: the first entry with `id` gets `status`; ids and favourite flags stay. */
  function StatusUpdated(s: seq<Item>, id: ItemId, status: Status): (r: seq<Item>)
    ensures |r| == |s|
    ensures forall j :: 0 <= j < |s| ==> r[j].id == s[j].id && r[j].isFavorite == s[j].isFavorite
  {
    match FirstIndex(s, id)
    case None => s
    case Some(i) => s[i := s[i].(status := status)]
  }

  /** `favorite(_:)`: the first entry with `id` has its favourite flag toggled; ids and statuses stay. */
  function Favorited(s: seq<Item>, id: ItemId): (r: seq<Item>)
    ensures |r| == |s|
    ensures forall j :: 0 <= j < |s| ==> r[j].id == s[j].id && r[j].status == s[j].status
  {
    match FirstIndex(s, id)
    case None => s
    case Some(i) => s[i := s[i].(isFavorite := !s[i].isFavorite)]
  }

  /** Only the status of the first entry with `id` changes; an unknown id changes nothing. */
  lemma StatusUpdatedFrame(s: seq<Item>, id: ItemId, status: Status)
    ensures |StatusUpdated(s, id, status)| == |s|
    ensures forall j :: 0 <= j < |s| ==>
      StatusUpdated(s, id, status)[j] == if IsFirst(s, id, j) then s[j].(status := status) else s[j]
  {
  }

  /** Only the favourite flag of the first entry with `id` changes, its status included stays; an unknown id changes nothing. */
  lemma FavoritedFrame(s: seq<Item>, id: ItemId)
    ensures |Favorited(s, id)| == |s|
    ensures forall j :: 0 <= j < |s| ==>
      Favorited(s, id)[j] == if IsFirst(s, id, j) then s[j].(isFavorite := !s[j].isFavorite) else s[j]
    ensures forall j :: 0 <= j < |s| ==> Favorited(s, id)[j].status == s[j].status
  {
  }

  /** Toggling twice restores the collection. */
  lemma FavoriteTwice(s: seq<Item>, id: ItemId)
    ensures Favorited(Favorited(s, id), id) == s
  {
    FirstIndexSameIds(s, Favorited(s, id), id);
  }

  /** Favourite toggles and status changes touch different fields and commute. */
  lemma FavoriteStatusCommute(s: seq<Item>, favoriteId: ItemId, statusId: ItemId, status: Status)
    ensures Favorited(StatusUpdated(s, statusId, status), favoriteId)
         == StatusUpdated(Favorited(s, favoriteId), statusId, status)
  {
    FirstIndexSameIds(s, StatusUpdated(s, statusId, status), favoriteId);
    FirstIndexSameIds(s, Favorited(s, favoriteId), statusId);
  }

  lemma {:induction false} StatusUpdatedCons(s: seq<Item>, id: ItemId, status: Status)
    requires s != []
    ensures StatusUpdated(s, id, status) ==
      if s[0].id == id then [s[0].(status := status)] + s[1..]
      else [s[0]] + StatusUpdated(s[1..], id, status)
  {
  }

  /**
   * With unique ids, a soft-deleted item is out of the manifest exactly as
   * a wiped one would be, and `find` still returns it, now deleted.
   */
  lemma {:induction false} SoftDeleteHidesFromManifest(s: seq<Item>, id: ItemId)
    requires UniqueIds(s)
    ensures ManifestOf(StatusUpdated(s, id, Deleted)) == ManifestOf(Wiped(s, id))
    ensures FindIn(s, id).Some? ==> FindIn(StatusUpdated(s, id, Deleted), id) == Some(FindIn(s, id).value.(status := Deleted))
  {
    ActiveAfterDelete(s, id);
    StatusUpdatedFrame(s, id, Deleted);
  }

  lemma {:induction false} ActiveAfterDelete(s: seq<Item>, id: ItemId)
    requires UniqueIds(s)
    ensures Active(StatusUpdated(s, id, Deleted)) == Active(RemoveId(s, id))
  {
    if s != [] {
      var t := s[1..];
      StatusUpdatedCons(s, id, Deleted);
      assert s == [s[0]] + t;
      assert RemoveId(s, id) == (if s[0].id != id then [s[0]] else []) + RemoveId(t, id);
      if s[0].id == id {
        forall j | 0 <= j < |t| ensures OtherId(id)(t[j]) {
          assert t[j] == s[j + 1];
        }
        FilterAll(t, OtherId(id));
        assert RemoveId(s, id) == t;
        var u := [s[0].(status := Deleted)] + t;
        assert u[0] == s[0].(status := Deleted) && u[1..] == t;
        assert !IsActive(u[0]);
        assert Active(u) == [] + Active(u[1..]);
      } else {
        ActiveAfterDelete(t, id);
        var u := [s[0]] + StatusUpdated(t, id, Deleted);
        assert u[0] == s[0] && u[1..] == StatusUpdated(t, id, Deleted);
        var v := [s[0]] + RemoveId(t, id);
        assert v[0] == s[0] && v[1..] == RemoveId(t, id);
        assert Active(u) == (if IsActive(s[0]) then [s[0]] else []) + Active(u[1..]);
        assert Active(v) == (if IsActive(s[0]) then [s[0]] else []) + Active(v[1..]);
      }
    }
  }

  // ---------------------------------------------------------------------
  // importKey

  /** `isExist`: a non-deleted entry with the same id and content is already there. */
  predicate AlreadyImported(s: seq<Item>, x: Item)
    ensures AlreadyImported(s, x) <==>
      exists y :: y in s && y.status != Deleted && y.id == x.id && y.content == x.content
  {
    FilterMembers(s, IsActive);
    exists y :: y in Active(s) && y.id == x.id && y.content == x.content
  }

  /** `importKey(_:)`: afterwards the key is there, not deleted. */
  function ImportKeyed(s: seq<Item>, x: Item): (r: seq<Item>)
    ensures AlreadyImported(r, x)
  {
    if AlreadyImported(s, x) then s
    else
      UpsertedIsImported(s, x);
      Upserted(s, x.(status := Imported))
  }

  /** Upserting the key marked imported makes it an active entry. */
  lemma UpsertedIsImported(s: seq<Item>, x: Item)
    ensures AlreadyImported(Upserted(s, x.(status := Imported)), x)
  {
    var y := x.(status := Imported);
    FilterAppend(RemoveId(s, x.id), [y], IsActive);
    assert [y][1..] == [];
    assert Filter([y], IsActive) == [y];
    assert y in Active(Upserted(s, y));
  }

  /**
   * Nothing happens when the same key is already there; otherwise the key
   * becomes the only entry with its id, last and imported, even when the
   * entry it replaces was deleted.
   */
  lemma ImportKeyEffect(s: seq<Item>, x: Item)
    ensures AlreadyImported(s, x) ==> ImportKeyed(s, x) == s
    ensures !AlreadyImported(s, x) ==>
      var r := ImportKeyed(s, x);
      && |r| >= 1 && r[|r| - 1] == x.(status := Imported)
      && (forall i :: 0 <= i < |r| - 1 ==> r[i].id != x.id)
      && Filter(r, OtherId(x.id)) == Filter(s, OtherId(x.id))
  {
    UpsertEffect(s, x.(status := Imported));
  }

  /** Importing the same key twice in a row is importing it once. */
  lemma ImportKeyIdempotent(s: seq<Item>, x: Item)
    ensures ImportKeyed(ImportKeyed(s, x), x) == ImportKeyed(s, x)
  {
  }

  // ---------------------------------------------------------------------
  // restore

  /** The manifest lookup `manifest[path]`, whose definition is not part of this model. */
  type Lookup = (Manifest, string) -> Option<ManifestEntry>

  /** An answer of `manifest[path]`: an entry at that path, or `None` when there is none. */
  predicate LookupAnswer(m: Manifest, path: string, r: Option<ManifestEntry>)
  {
    match r
    case Some(e) => e in m.entries && e.path == path
    case None => forall e :: e in m.entries ==> e.path != path
  }

  ghost predicate LookupSound(lookup: Lookup)
  {
    forall m, path :: LookupAnswer(m, path, lookup(m, path))
  }

  /** The status `restore(x)` gives: synchronized when the current manifest holds `x.path` with `x.hash`, else imported. */
  function RestoredStatus(s: seq<Item>, x: Item, lookup: Lookup): (r: Status)
    ensures r == Synchronized || r == Imported
  {
    var existing := lookup(ManifestOf(s), x.path);
    if existing.Some? && existing.value.hash == x.hash then Synchronized else Imported
  }

  /** `restore(_:)`: only statuses change. */
  function Restored(s: seq<Item>, x: Item, lookup: Lookup): (r: seq<Item>)
    ensures |r| == |s| && forall j :: 0 <= j < |s| ==> r[j].id == s[j].id
  {
    StatusUpdated(s, x.id, RestoredStatus(s, x, lookup))
  }

  /**
   * When the manifest has at most one entry per path, `restore(x)` gives
   * `Synchronized` exactly when the manifest holds (`x.path`, `x.hash`), and
   * `Imported` otherwise.
   */
  lemma RestoreDecision(s: seq<Item>, x: Item, lookup: Lookup)
    requires LookupSound(lookup)
    requires UniquePaths(ManifestOf(s))
    ensures RestoredStatus(s, x, lookup) == Synchronized <==> ManifestEntry(x.path, x.hash) in ManifestOf(s).entries
    ensures RestoredStatus(s, x, lookup) != Synchronized ==> RestoredStatus(s, x, lookup) == Imported
  {
    var m := ManifestOf(s);
    assert LookupAnswer(m, x.path, lookup(m, x.path));
    if ManifestEntry(x.path, x.hash) in m.entries {
      var e := lookup(m, x.path).value;
      var i :| 0 <= i < |m.entries| && m.entries[i] == e;
      var j :| 0 <= j < |m.entries| && m.entries[j] == ManifestEntry(x.path, x.hash);
      assert i == j;
    }
  }

  /**
   * Whatever the manifest, a sound lookup makes `restore(x)` give
   * `Synchronized` only when the manifest holds (`x.path`, `x.hash`).
   */
  lemma RestoreSynchronizedHasEntry(s: seq<Item>, x: Item, lookup: Lookup)
    requires LookupSound(lookup)
    ensures RestoredStatus(s, x, lookup) == Synchronized ==> ManifestEntry(x.path, x.hash) in ManifestOf(s).entries
  {
    var m := ManifestOf(s);
    assert LookupAnswer(m, x.path, lookup(m, x.path));
  }

  /** Restoring changes only the status of the first entry with `x.id`, and does so even when it was deleted. */
  lemma RestoreEffect(s: seq<Item>, x: Item, lookup: Lookup)
    ensures var r := Restored(s, x, lookup);
      && |r| == |s|
      && (forall j :: 0 <= j < |s| ==> r[j] == if IsFirst(s, x.id, j) then s[j].(status := RestoredStatus(s, x, lookup)) else s[j])
      && (FindIn(s, x.id).Some? ==> FindIn(r, x.id).value.status != Deleted)
  {
    StatusUpdatedFrame(s, x.id, RestoredStatus(s, x, lookup));
  }

  /**
   * A collection of one imported item at "a.sub" with hash "H1" whose
   * manifest is [("a.sub", "H1")]: restoring the item synchronizes it.
   */
  lemma RestoreScenario(x: Item, lookup: Lookup)
    requires LookupSound(lookup)
    requires x.path == "a.sub" && x.hash == "H1" && x.status == Imported
    ensures Restored([x], x, lookup) == [x.(status := Synchronized)]
  {
    ManifestOne(x);
    assert LookupAnswer(ManifestOf([x]), x.path, lookup(ManifestOf([x]), x.path));
  }

  // ---------------------------------------------------------------------
  // rename, duplicate

  /** `ArchiveItem.rename(to:)`, whose definition is not part of this model. */
  type Renamer = (Item, Name) -> Item

  /**
   * `rename(_:to:)`: every entry with the id goes, the renamed copy comes
   * last; every entry before the last is an old one without the id.
   */
  function Renamed(s: seq<Item>, id: ItemId, newName: string, rename: Renamer): (r: seq<Item>)
    ensures forall i :: 0 <= i < |r| - 1 ==> r[i] in s && r[i].id != id
  {
    match FindIn(s, id)
    case None => s
    case Some(x) => RemoveId(s, x.id) + [rename(x, FromString(newName))]
  }

  lemma RenameEffect(s: seq<Item>, id: ItemId, newName: string, rename: Renamer)
    ensures FindIn(s, id).None? ==> Renamed(s, id, newName, rename) == s
    ensures FindIn(s, id).Some? ==>
      var r := Renamed(s, id, newName, rename);
      && |r| >= 1 && r[|r| - 1] == rename(FindIn(s, id).value, Name(newName))
      && r[..|r| - 1] == Filter(s, OtherId(id))
      && forall i :: 0 <= i < |r| - 1 ==> r[i].id != id
  {
    if FindIn(s, id).Some? {
      var r := Renamed(s, id, newName, rename);
      RemoveIdMembers(s, id);
      assert r[..|r| - 1] == RemoveId(s, id);
    }
  }

  /** A renamer that keeps the id and takes the new name. */
  ghost predicate KeepsIdentity(rename: Renamer)
  {
    forall x, n :: rename(x, n).id == x.id && rename(x, n).name == n
  }

  /**
   * With such a renamer, `find(id)` after `rename(id, n)` returns the
   * renamed entry, with the same id and the name `n`.
   */
  lemma RenameKeepsIdentity(s: seq<Item>, id: ItemId, newName: string, rename: Renamer)
    requires KeepsIdentity(rename)
    requires FindIn(s, id).Some?
    ensures var r := FindIn(Renamed(s, id, newName, rename), id);
      r.Some? && r.value.id == id && r.value.name == Name(newName)
      && r.value == rename(FindIn(s, id).value, Name(newName))
  {
    RenameEffect(s, id, newName, rename);
    var r := Renamed(s, id, newName, rename);
    assert r[|r| - 1].id == id;
    assert IsFirst(r, id, |r| - 1);
  }

  /** The name `duplicate` gives: `name.value + "_" + timestamp`, so the old name, `_`, and something more. */
  function DuplicateName(n: Name, timestamp: int): (d: string)
    ensures |d| > |n.value| + 1 && d[..|n.value|] == n.value && d[|n.value|] == '_'
  {
    n.value + "_" + IntToDecimal(timestamp)
  }

  /** The generated name differs from the original and carries the timestamp after the `_`. */
  lemma DuplicateNameParts(n: Name, timestamp: int)
    ensures DuplicateName(n, timestamp) != n.value
    ensures var d := DuplicateName(n, timestamp);
      |d| > |n.value| + 1 && d[..|n.value|] == n.value && d[|n.value|] == '_'
      && ParseDecimal(d[|n.value| + 1..]) == Some(timestamp)
  {
    var d := DuplicateName(n, timestamp);
    assert d[|n.value| + 1..] == IntToDecimal(timestamp);
    DecimalRoundTrip(timestamp);
  }

  /**
   * `duplicate(_:)`: the new collection and the item it returns. The old
   * collection is a prefix of the new one, which is at most one longer,
   * and an item comes back exactly when the id is found.
   */
  function Duplicated(s: seq<Item>, id: ItemId, timestamp: int, rename: Renamer): (r: (seq<Item>, Option<Item>))
    ensures |s| <= |r.0| <= |s| + 1 && r.0[..|s|] == s
    ensures r.1.Some? <==> FindIn(s, id).Some?
  {
    match FindIn(s, id)
    case None => (s, None)
    case Some(x) =>
      var copy := rename(x, FromString(DuplicateName(x.name, timestamp)));
      (s + [copy], Some(copy))
  }

  /** Nothing is removed; one renamed copy of the found item is appended and returned. */
  lemma DuplicateEffect(s: seq<Item>, id: ItemId, timestamp: int, rename: Renamer)
    ensures FindIn(s, id).None? ==> Duplicated(s, id, timestamp, rename) == (s, None)
    ensures FindIn(s, id).Some? ==>
      var (r, copy) := Duplicated(s, id, timestamp, rename);
      var x := FindIn(s, id).value;
      && |r| == |s| + 1 && r[..|s|] == s
      && copy == Some(r[|s|])
      && r[|s|] == rename(x, Name(x.name.value + "_" + IntToDecimal(timestamp)))
  {
  }

  /**
   * The copy gets whatever id the renamer gives it: with a renamer that
   * keeps ids, duplicating breaks the uniqueness of ids.
   */
  lemma DuplicateWithIdKeepingRenamer(s: seq<Item>, id: ItemId, timestamp: int, rename: Renamer)
    requires KeepsIdentity(rename)
    requires FindIn(s, id).Some?
    ensures !UniqueIds(Duplicated(s, id, timestamp, rename).0)
  {
    var r := Duplicated(s, id, timestamp, rename).0;
    var j :| 0 <= j < |s| && IsFirst(s, id, j) && s[j] == FindIn(s, id).value;
    assert r[j].id == r[|s|].id;
  }

  // ---------------------------------------------------------------------
  // Unique identities

  lemma {:induction false} FilterKeepsUniqueIds(s: seq<Item>, p: Item -> bool)
    requires UniqueIds(s)
    ensures UniqueIds(Filter(s, p))
  {
    if s != [] {
      var t := s[1..];
      FilterKeepsUniqueIds(t, p);
      FilterMembers(t, p);
      var f := Filter(t, p);
      if p(s[0]) {
        var g := [s[0]] + f;
        forall i, j | 0 <= i < j < |g| ensures g[i].id != g[j].id {
          if i == 0 {
            assert g[j] in f;
            var k :| 0 <= k < |t| && t[k] == g[j];
            assert s[k + 1] == g[j];
          }
        }
      } else {
        assert Filter(s, p) == f;
      }
    }
  }

  /** The operations that address entries by id never make two entries share one. */
  lemma OperationsKeepUniqueIds(s: seq<Item>, x: Item, id: ItemId, status: Status, lookup: Lookup)
    requires UniqueIds(s)
    ensures UniqueIds(Upserted(s, x))
    ensures UniqueIds(Wiped(s, id))
    ensures UniqueIds(StatusUpdated(s, id, status))
    ensures UniqueIds(Favorited(s, id))
    ensures UniqueIds(ImportKeyed(s, x))
    ensures UniqueIds(Restored(s, x, lookup))
  {
    UpsertKeepsUniqueIds(s, x);
    UpsertKeepsUniqueIds(s, x.(status := Imported));
    FilterKeepsUniqueIds(s, OtherId(id));
    StatusUpdatedFrame(s, id, status);
    FavoritedFrame(s, id);
    StatusUpdatedFrame(s, x.id, RestoredStatus(s, x, lookup));
  }

  lemma UpsertKeepsUniqueIds(s: seq<Item>, x: Item)
    requires UniqueIds(s)
    ensures UniqueIds(Upserted(s, x))
  {
    FilterKeepsUniqueIds(s, OtherId(x.id));
    UpsertEffect(s, x);
  }

  /** Renaming and duplicating keep ids unique only when the new entry's id is not already taken. */
  lemma RenameDuplicateKeepUniqueIds(s: seq<Item>, id: ItemId, newName: string, timestamp: int, rename: Renamer)
    requires UniqueIds(s)
    requires FindIn(s, id).Some?
    ensures var x := FindIn(s, id).value;
      (forall y :: y in RemoveId(s, id) ==> y.id != rename(x, Name(newName)).id) ==>
        UniqueIds(Renamed(s, id, newName, rename))
    ensures var x := FindIn(s, id).value;
      (forall y :: y in s ==> y.id != rename(x, Name(DuplicateName(x.name, timestamp))).id) ==>
        UniqueIds(Duplicated(s, id, timestamp, rename).0)
  {
    FilterKeepsUniqueIds(s, OtherId(id));
    var x := FindIn(s, id).value;
    var d := Duplicated(s, id, timestamp, rename).0;
    if forall y :: y in s ==> y.id != rename(x, Name(DuplicateName(x.name, timestamp))).id {
      assert forall i :: 0 <= i < |s| ==> d[i] in s;
    }
    var r := Renamed(s, id, newName, rename);
    if forall y :: y in RemoveId(s, id) ==> y.id != rename(x, Name(newName)).id {
      assert forall i :: 0 <= i < |r| - 1 ==> r[i] in RemoveId(s, id);
    }
  }
}
