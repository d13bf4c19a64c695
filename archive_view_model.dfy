/**
 * `ArchiveViewModel`: the views the archive screen derives from the item
 * list, and its small pieces of state (the import queue it drains, the
 * selected item).
 */
module ArchiveView {
  import opened Wrappers
  import opened Seqs
  import opened ArchiveName
  import opened ArchiveItems

  // ---------------------------------------------------------------------
  // sortedItems

  /** Non-decreasing by name: no entry's name is below an earlier one's. */
  predicate SortedByName(s: seq<Item>)
  {
    forall i, j :: 0 <= i < j < |s| ==> !Less(s[j].name, s[i].name)
  }

  /**
   * Puts `x` into the sorted `s` before the first entry whose name is not
   * below its own, so after every entry with an equal name.
   */
  function InsertByName(x: Item, s: seq<Item>): (r: seq<Item>)
    requires SortedByName(s)
    ensures SortedByName(r)
    ensures multiset(r) == multiset(s) + multiset{x}
  {
    if s == [] || !Less(s[0].name, x.name) then
      InsertInFront(x, s);
      [x] + s
    else
      var rest := InsertByName(x, s[1..]);
      InsertBehind(x, s, rest);
      [s[0]] + rest
  }

  lemma InsertInFront(x: Item, s: seq<Item>)
    requires SortedByName(s)
    requires s == [] || !Less(s[0].name, x.name)
    ensures SortedByName([x] + s)
  {
    var r := [x] + s;
    forall i, j | 0 <= i < j < |r| ensures !Less(r[j].name, r[i].name) {
      if i == 0 {
        var e := s[j - 1];
        assert r[j] == e;
        if Less(e.name, x.name) {
          if e.name != s[0].name {
            LessTotal(e.name, s[0].name);
            LessTransitive(s[0].name, e.name, x.name);
          }
        }
      }
    }
  }

  lemma InsertBehind(x: Item, s: seq<Item>, rest: seq<Item>)
    requires SortedByName(s) && s != [] && Less(s[0].name, x.name)
    requires SortedByName(rest) && multiset(rest) == multiset(s[1..]) + multiset{x}
    ensures SortedByName([s[0]] + rest)
    ensures multiset([s[0]] + rest) == multiset(s) + multiset{x}
  {
    var r := [s[0]] + rest;
    LessAsymmetric(s[0].name, x.name);
    forall j | 1 <= j < |r| ensures !Less(r[j].name, s[0].name) {
      var e := r[j];
      assert e in multiset(rest);
      if e != x {
        assert e in multiset(s[1..]);
        var k :| 0 <= k < |s[1..]| && s[1..][k] == e;
        assert s[k + 1] == e;
      }
    }
    assert s == [s[0]] + s[1..];
  }

  /** `items.sorted { $0.name < $1.name }`: a permutation of the items, non-decreasing by name. */
  function SortedItems(items: seq<Item>): (r: seq<Item>)
    ensures SortedByName(r)
    ensures multiset(r) == multiset(items)
  {
    if items == [] then []
    else
      assert items == [items[0]] + items[1..];
      InsertByName(items[0], SortedItems(items[1..]))
  }

  /** The test that picks the entries named `n`. */
  function HasName(n: Name): Item -> bool
  {
    (x: Item) => x.name == n
  }

  /** Inserting `x` puts it in front of every entry with its name. */
  lemma {:induction false} InsertKeepsTies(x: Item, s: seq<Item>, n: Name)
    requires SortedByName(s)
    ensures Filter(InsertByName(x, s), HasName(n)) == (if x.name == n then [x] else []) + Filter(s, HasName(n))
  {
    if s == [] || !Less(s[0].name, x.name) {
      FilterCons(x, s, HasName(n));
    } else {
      var t := s[1..];
      InsertKeepsTies(x, t, n);
      assert s == [s[0]] + t;
      FilterCons(s[0], t, HasName(n));
      FilterCons(s[0], InsertByName(x, t), HasName(n));
      assert s[0].name != x.name;
    }
  }

  /**
   * The sort is stable, as Swift's `sorted(by:)` is: the entries with one
   * name keep their order.
   */
  lemma {:induction false} SortedItemsStable(items: seq<Item>, n: Name)
    ensures Filter(SortedItems(items), HasName(n)) == Filter(items, HasName(n))
  {
    if items != [] {
      var t := items[1..];
      SortedItemsStable(t, n);
      InsertKeepsTies(items[0], SortedItems(t), n);
    }
  }

  // ---------------------------------------------------------------------
  // favoriteItems, groups

  predicate IsFavorite(x: Item) { x.isFavorite }

  /** `items.filter { $0.isFavorite }`: favourite items only, none added. */
  function FavoriteItems(items: seq<Item>): (r: seq<Item>)
    ensures |r| <= |items|
    ensures forall i :: 0 <= i < |r| ==> r[i] in items && r[i].isFavorite
  {
    FilterMembers(items, IsFavorite);
    FilterHolds(items, IsFavorite);
    Filter(items, IsFavorite)
  }

  /** Exactly the favourite items, in their original order. */
  lemma FavoriteItemsSpec(items: seq<Item>, more: seq<Item>)
    ensures forall x :: x in FavoriteItems(items) <==> x in items && x.isFavorite
    ensures FavoriteItems(items + more) == FavoriteItems(items) + FavoriteItems(more)
  {
    FilterMembers(items, IsFavorite);
    FilterAppend(items, more, IsFavorite);
  }

  /** The file types of the items, in order. */
  function FileTypes(items: seq<Item>): (r: seq<FileType>)
    ensures |r| == |items| && forall i :: 0 <= i < |items| ==> r[i] == items[i].fileType
  {
    if items == [] then [] else [items[0].fileType] + FileTypes(items[1..])
  }

  /** `items.filter { $0.fileType == type }.count`: at most the number of items. */
  function CountOfType(items: seq<Item>, t: FileType): (n: nat)
    ensures n <= |items|
  {
    if items == [] then 0 else (if items[0].fileType == t then 1 else 0) + CountOfType(items[1..], t)
  }

  /** The keys of `groups`, in their order. */
  const GroupOrder: seq<FileType> := [SubGhz, Rfid, Nfc, Infrared, IButton]

  /** `groups`: the number of items of each of the five file types, keyed in the fixed order. */
  function Groups(items: seq<Item>): (g: seq<(FileType, nat)>)
    ensures |g| == |GroupOrder| && forall k :: 0 <= k < |g| ==> g[k].0 == GroupOrder[k]
  {
    seq(|GroupOrder|, k requires 0 <= k < |GroupOrder| => (GroupOrder[k], CountOfType(items, GroupOrder[k])))
  }

  /** Each group's count is the number of occurrences of its file type among the items. */
  lemma GroupsCount(items: seq<Item>, k: nat)
    requires k < |GroupOrder|
    ensures Groups(items)[k].1 == multiset(FileTypes(items))[GroupOrder[k]]
  {
    CountIsOccurrences(items, GroupOrder[k]);
  }

  lemma {:induction false} CountIsOccurrences(items: seq<Item>, t: FileType)
    ensures CountOfType(items, t) == multiset(FileTypes(items))[t]
  {
    if items != [] {
      CountIsOccurrences(items[1..], t);
      assert FileTypes(items) == [items[0].fileType] + FileTypes(items[1..]);
    }
  }

  lemma {:induction false} CountsAddUp(items: seq<Item>)
    ensures CountOfType(items, SubGhz) + CountOfType(items, Rfid) + CountOfType(items, Nfc)
          + CountOfType(items, Infrared) + CountOfType(items, IButton) + CountOfType(items, Other) == |items|
  {
    if items != [] {
      CountsAddUp(items[1..]);
    }
  }

  /** The group counts add up to at most the number of items; the rest are of other types. */
  lemma GroupsBound(items: seq<Item>)
    ensures var g := Groups(items);
      g[0].1 + g[1].1 + g[2].1 + g[3].1 + g[4].1 == |items| - CountOfType(items, Other) <= |items|
  {
    CountsAddUp(items);
  }

  // ---------------------------------------------------------------------
  // The view model's own state

  class ArchiveViewModel {
    /** The archive's items, as last published. */
    var items: seq<Item>
    /** `appState.importQueue`. */
    var importQueue: seq<Item>
    var hasImportedItem: bool
    var selectedItem: Option<Item>
    var showInfoView: bool

    /**
     * `init()`: the archive's items arrive later, on the main queue
     * (`SetItems`), so `items` starts empty. The import queue's subscription
     * has no such hop and delivers the current queue at once, so a
     * non-empty queue raises `hasImportedItem` straight away.
     */
    constructor (queue: seq<Item>)
      ensures items == [] && importQueue == queue
      ensures hasImportedItem == (queue != [])
      ensures selectedItem == None && !showInfoView
    {
      items := [];
      importQueue := queue;
      hasImportedItem := queue != [];
      selectedItem := None;
      showInfoView := false;
    }

    /** A value of `archive.$items` delivered on the main queue. */
    method SetItems(archiveItems: seq<Item>)
      modifies this`items
      ensures items == archiveItems
    {
      items := archiveItems;
    }

    /**
     * A new value of the import queue: `hasImportedItem` is raised when the
     * queue is non-empty and never lowered by an empty one.
     */
    method SetImportQueue(queue: seq<Item>)
      modifies this`importQueue, this`hasImportedItem
      ensures importQueue == queue
      ensures hasImportedItem == (old(hasImportedItem) || queue != [])
    {
      importQueue := queue;
      if queue != [] {
        hasImportedItem := true;
      }
    }

    /** `importedItem`: takes the first element off the queue (which must not be empty). */
    method ImportedItem() returns (r: Option<Item>)
      requires importQueue != []
      modifies this`importQueue, this`hasImportedItem
      ensures r == Some(old(importQueue)[0])
      ensures importQueue == old(importQueue)[1..]
      ensures hasImportedItem == (old(hasImportedItem) || importQueue != [])
    {
      var first := importQueue[0];
      SetImportQueue(importQueue[1..]);
      r := Some(first);
    }

    method OnItemSelected(item: Item)
      modifies this`selectedItem, this`showInfoView
      ensures selectedItem == Some(item) && showInfoView
    {
      selectedItem := Some(item);
      showInfoView := true;
    }
  }
}
