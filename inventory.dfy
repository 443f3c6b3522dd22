/**
 * The controller's all-inventory window (WindowHutAllInventory): the item
 * listing aggregated over the controller's racks, locating a rack that holds
 * an item, the sort-mode button and the abbreviated item counts.
 */
module Inventory {
  import opened Grid
  import opened Storage
  import opened Cluster
  import opened Highlight

  // ---------------------------------------------------------------------
  // Aggregation over the racks of a controller
  // ---------------------------------------------------------------------

  /** The content map of every rack of the level, by position. */
  ghost function Contents(level: Level): map<Pos, map<ItemKey, nat>>
    reads level, level.RackObjects()`content
  {
    map p | p in level.racks :: level.racks[p].content
  }

  /** The items of key k at p: the content of the rack there, nothing where no rack stands. */
  function Held(cs: map<Pos, map<ItemKey, nat>>, p: Pos, k: ItemKey): nat {
    if p in cs then CountIn(cs[p], k) else 0
  }

  /** The items of key k summed over the racks standing at the member positions. */
  ghost function ClusterCount(cs: map<Pos, map<ItemKey, nat>>, members: set<Pos>, k: ItemKey): nat
    decreases members
  {
    if members == {} then 0
    else
      var p :| p in members;
      Held(cs, p, k) + ClusterCount(cs, members - {p}, k)
  }

  /** The cluster count does not depend on the order the members are visited in: any member can be taken first. */
  lemma {:induction false} ClusterCountRemove(cs: map<Pos, map<ItemKey, nat>>, members: set<Pos>, p: Pos, k: ItemKey)
    requires p in members
    ensures ClusterCount(cs, members, k) == Held(cs, p, k) + ClusterCount(cs, members - {p}, k)
    decreases members
  {
    var q :| q in members && ClusterCount(cs, members, k) == Held(cs, q, k) + ClusterCount(cs, members - {q}, k);
    if q != p {
      ClusterCountRemove(cs, members - {q}, p, k);
      ClusterCountRemove(cs, members - {p}, q, k);
      assert members - {q} - {p} == members - {p} - {q};
    }
  }

  /** A member without a rack adds nothing to the cluster count. */
  lemma ClusterCountSkipsEmptyPositions(cs: map<Pos, map<ItemKey, nat>>, members: set<Pos>, p: Pos, k: ItemKey)
    requires p in members && p !in cs
    ensures ClusterCount(cs, members, k) == ClusterCount(cs, members - {p}, k)
  {
    ClusterCountRemove(cs, members, p, k);
  }

  /**
   * The `storedItems` map built by `updateResources`: for every member
   * position that holds a rack, every entry of the rack's content is
   * inserted, or added to the total already present.
   */
  method StoredItems(level: Level, members: set<Pos>) returns (stored: map<ItemKey, nat>)
    ensures forall k :: CountIn(stored, k) == ClusterCount(Contents(level), members, k)
    ensures level.Valid() ==> forall k :: k in stored ==> stored[k] > 0
  {
    ghost var cs := Contents(level);
    stored := map[];
    var containerList := members;
    while containerList != {}
      invariant containerList <= members
      invariant forall k :: CountIn(stored, k) == ClusterCount(cs, members - containerList, k)
      invariant level.Valid() ==> forall k :: k in stored ==> stored[k] > 0
      decreases |containerList|
    {
      var blockPos :| blockPos in containerList;
      ghost var done := members - containerList;
      assert (done + {blockPos}) - {blockPos} == done;
      if blockPos in level.racks {
        assert level.Valid() ==> level.racks[blockPos].Valid();
        stored := MergeContent(stored, level.racks[blockPos].content);
        forall k
          ensures CountIn(stored, k) == ClusterCount(cs, done + {blockPos}, k)
        {
          ClusterCountRemove(cs, done + {blockPos}, blockPos, k);
        }
      } else {
        forall k
          ensures CountIn(stored, k) == ClusterCount(cs, done + {blockPos}, k)
        {
          ClusterCountSkipsEmptyPositions(cs, done + {blockPos}, blockPos, k);
        }
      }
      assert members - (containerList - {blockPos}) == done + {blockPos};
      containerList := containerList - {blockPos};
    }
    assert members - containerList == members;
    assert cs == Contents(level);
  }

  /**
   * The inner loop of the aggregation: every entry of one rack's content is
   * inserted into `stored`, or added to the amount already there.
   */
  method MergeContent(stored: map<ItemKey, nat>, rackStorage: map<ItemKey, nat>) returns (merged: map<ItemKey, nat>)
    ensures forall k :: CountIn(merged, k) == CountIn(stored, k) + CountIn(rackStorage, k)
    ensures (forall k :: k in stored ==> stored[k] > 0) && (forall k :: k in rackStorage ==> rackStorage[k] > 0) ==>
      forall k :: k in merged ==> merged[k] > 0
  {
    merged := stored;
    var entries := rackStorage.Keys;
    while entries != {}
      invariant entries <= rackStorage.Keys
      invariant forall k :: CountIn(merged, k) == CountIn(stored, k) + (if k in rackStorage && k !in entries then rackStorage[k] else 0)
      invariant (forall k :: k in stored ==> stored[k] > 0) && (forall k :: k in rackStorage ==> rackStorage[k] > 0) ==>
        forall k :: k in merged ==> merged[k] > 0
      decreases |entries|
    {
      var key :| key in entries;
      if key in merged {
        merged := merged[key := merged[key] + rackStorage[key]];
      } else {
        merged := merged[key := rackStorage[key]];
      }
      entries := entries - {key};
    }
  }

  // ---------------------------------------------------------------------
  // The listing
  // ---------------------------------------------------------------------

  /** A row of the listing: an item and its amount across the cluster. */
  datatype Entry = Entry(key: ItemKey, amount: nat)

  /** Sort modes of the listing. */
  const NO_SORT: int := 0
  const ASC_SORT: int := 1
  const DESC_SORT: int := 2
  const COUNT_ASC_SORT: int := 3
  const COUNT_DESC_SORT: int := 4

  /** No item key has two rows. */
  predicate DistinctKeys(s: seq<Entry>) {
    forall i, j :: 0 <= i < j < |s| ==> s[i].key != s[j].key
  }

  /** The entries that pass the filter, in order; an empty filter keeps every entry. */
  function Filtered(items: seq<Entry>, filter: string, matches: ItemKey -> bool): (kept: seq<Entry>)
    ensures filter == "" ==> kept == items
    ensures forall e :: e in kept <==> e in items && (filter == "" || matches(e.key))
    ensures DistinctKeys(items) ==> DistinctKeys(kept)
  {
    if items == [] then []
    else
      var rest := Filtered(items[..|items| - 1], filter, matches);
      var last := items[|items| - 1];
      assert items == items[..|items| - 1] + [last];
      rest + (if filter == "" || matches(last.key) then [last] else [])
  }

  /** `a` may stand before `b` in a count-sorted listing (ascending, or descending). */
  predicate InOrder(a: Entry, b: Entry, descending: bool) {
    if descending then a.amount >= b.amount else a.amount <= b.amount
  }

  predicate SortedByCount(s: seq<Entry>, descending: bool) {
    forall i, j :: 0 <= i < j < |s| ==> InOrder(s[i], s[j], descending)
  }

  /** Insert `x` before the first entry it may precede. */
  function Insert(x: Entry, s: seq<Entry>, descending: bool): (r: seq<Entry>)
    ensures multiset(r) == multiset(s) + multiset{x}
  {
    if s == [] then [x]
    else if InOrder(x, s[0], descending) then [x] + s
    else
      assert s == [s[0]] + s[1..];
      [s[0]] + Insert(x, s[1..], descending)
  }

  /** Inserting into a sorted listing keeps it sorted. */
  lemma {:induction false} InsertSorted(x: Entry, s: seq<Entry>, descending: bool)
    requires SortedByCount(s, descending)
    ensures SortedByCount(Insert(x, s, descending), descending)
  {
    if s != [] && !InOrder(x, s[0], descending) {
      var rest := Insert(x, s[1..], descending);
      InsertSorted(x, s[1..], descending);
      forall j | 0 <= j < |rest|
        ensures InOrder(s[0], rest[j], descending)
      {
        InsertFrom(x, s[1..], descending, rest[j]);
        if rest[j] != x {
          var k :| 1 <= k < |s| && s[k] == rest[j];
        }
      }
      SortedCons(s[0], rest, descending);
    }
  }

  /** Every row of an insertion is the inserted one or a row of the listing. */
  lemma InsertFrom(x: Entry, s: seq<Entry>, descending: bool, y: Entry)
    requires y in Insert(x, s, descending)
    ensures y == x || y in s
  {
    assert y in multiset(Insert(x, s, descending));
  }

  /** A sorted listing stays sorted with a first row that may precede all of it. */
  lemma SortedCons(h: Entry, rest: seq<Entry>, descending: bool)
    requires SortedByCount(rest, descending)
    requires forall j :: 0 <= j < |rest| ==> InOrder(h, rest[j], descending)
    ensures SortedByCount([h] + rest, descending)
  {
    var r := [h] + rest;
    forall i, j | 0 <= i < j < |r|
      ensures InOrder(r[i], r[j], descending)
    {
      assert r[j] == rest[j - 1];
      if i > 0 {
        assert r[i] == rest[i - 1];
      }
    }
  }

  /** Rows with distinct keys keep them through an insertion of a row with a new key. */
  lemma {:induction false} InsertKeepsDistinctKeys(x: Entry, s: seq<Entry>, descending: bool)
    requires SortedByCount(s, descending) && DistinctKeys(s)
    requires forall e :: e in s ==> e.key != x.key
    ensures DistinctKeys(Insert(x, s, descending))
  {
    if s != [] && !InOrder(x, s[0], descending) {
      InsertKeepsDistinctKeys(x, s[1..], descending);
      var rest := Insert(x, s[1..], descending);
      forall e | e in rest
        ensures e.key != s[0].key
      {
        assert e in multiset(rest);
      }
    }
  }

  /** `allItems.sort(compareByCount)` (or its reverse), as an insertion sort. */
  function SortByCount(s: seq<Entry>, descending: bool): (r: seq<Entry>)
    ensures multiset(r) == multiset(s)
    ensures SortedByCount(r, descending)
  {
    if s == [] then []
    else
      assert s == [s[0]] + s[1..];
      var sorted := SortByCount(s[1..], descending);
      InsertSorted(s[0], sorted, descending);
      Insert(s[0], sorted, descending)
  }

  /** Sorting keeps the rows' keys distinct. */
  lemma {:induction false} SortKeepsDistinctKeys(s: seq<Entry>, descending: bool)
    requires DistinctKeys(s)
    ensures DistinctKeys(SortByCount(s, descending))
  {
    if s != [] {
      SortKeepsDistinctKeys(s[1..], descending);
      var sorted := SortByCount(s[1..], descending);
      forall e | e in sorted
        ensures e.key != s[0].key
      {
        assert e in multiset(sorted);
      }
      InsertKeepsDistinctKeys(s[0], sorted, descending);
    }
  }

  /** The listing in the order of the sort mode; the name sorts are not part of this model and keep the order. */
  function Arranged(items: seq<Entry>, sortDescriptor: int): (r: seq<Entry>)
    ensures multiset(r) == multiset(items)
    ensures sortDescriptor == COUNT_ASC_SORT ==> SortedByCount(r, false)
    ensures sortDescriptor == COUNT_DESC_SORT ==> SortedByCount(r, true)
    ensures sortDescriptor != COUNT_ASC_SORT && sortDescriptor != COUNT_DESC_SORT ==> r == items
  {
    if sortDescriptor == COUNT_ASC_SORT then SortByCount(items, false)
    else if sortDescriptor == COUNT_DESC_SORT then SortByCount(items, true)
    else items
  }

  /** The sort mode after the sort button: the next of the five, wrapping to NO_SORT after the last. */
  function NextSort(d: int): int {
    if d + 1 > COUNT_DESC_SORT then NO_SORT else d + 1
  }

  /** Pressing the sort button five times from any mode visits every mode once and comes back. */
  lemma SortButtonCycles(d: int)
    requires NO_SORT <= d <= COUNT_DESC_SORT
    ensures NO_SORT <= NextSort(d) <= COUNT_DESC_SORT
    ensures NextSort(NextSort(NextSort(NextSort(NextSort(d))))) == d
    ensures {d, NextSort(d), NextSort(NextSort(d)), NextSort(NextSort(NextSort(d))),
             NextSort(NextSort(NextSort(NextSort(d))))} == {0, 1, 2, 3, 4}
  {
    if d == 0 {
    } else if d == 1 {
    } else if d == 2 {
    } else if d == 3 {
    } else {
    }
  }

  /** How long a located rack stays highlighted: 120 seconds of 20 ticks. */
  const LOCATE_TICKS: int := 120 * 20

  /** The highlight category `locate` writes. */
  const INVENTORY_HIGHLIGHT: string := "inventoryHighlight"

  /** The all-inventory window of one controller. */
  class Window {
    const controller: ControllerEntity
    /** The rows shown: aggregated, filtered and sorted. */
    var allItems: seq<Entry>
    var filter: string
    var sortDescriptor: int

    constructor(controller: ControllerEntity, level: Level, matches: ItemKey -> bool)
      requires level.Valid()
      ensures this.controller == controller && filter == "" && sortDescriptor == NO_SORT
      ensures Lists(Contents(level), controller.racks, allItems, filter, matches, sortDescriptor)
    {
      this.controller := controller;
      allItems := [];
      filter := "";
      sortDescriptor := NO_SORT;
      new;
      UpdateResources(level, matches);
    }

    /**
     * `updateResources`: aggregate the member racks, list the totals,
     * keep the entries that pass the filter (`matches` stands for the
     * display-name test) and sort by the current mode.
     */
    method UpdateResources(level: Level, matches: ItemKey -> bool)
      requires level.Valid()
      modifies this`allItems
      ensures Lists(Contents(level), controller.racks, allItems, filter, matches, sortDescriptor)
    {
      ghost var cs := Contents(level);
      ghost var members := controller.racks;
      var stored := StoredItems(level, controller.racks);
      assert cs == Contents(level) && members == controller.racks;
      var filterItems := Listing(stored);
      ListingIsListed(cs, members, stored, filterItems, filter, matches, sortDescriptor);
      allItems := Arranged(Filtered(filterItems, filter, matches), sortDescriptor);
      assert cs == Contents(level);
    }

    /** The sort button: advance the mode and rebuild the listing. */
    method SetSortFlag(level: Level, matches: ItemKey -> bool)
      requires level.Valid()
      modifies this`sortDescriptor, this`allItems
      ensures sortDescriptor == NextSort(old(sortDescriptor))
      ensures Lists(Contents(level), controller.racks, allItems, filter, matches, sortDescriptor)
    {
      sortDescriptor := NextSort(sortDescriptor);
      UpdateResources(level, matches);
    }

    /** Typing in the filter field: take its text as the filter and rebuild the listing. */
    method OnKeyTyped(handled: bool, text: string, level: Level, matches: ItemKey -> bool)
      requires level.Valid()
      modifies this`filter, this`allItems
      ensures handled ==> filter == text && Lists(Contents(level), controller.racks, allItems, filter, matches, sortDescriptor)
      ensures !handled ==> filter == old(filter) && allItems == old(allItems)
    {
      if handled {
        filter := text;
        UpdateResources(level, matches);
      }
    }

    /**
     * `locate` for the listing row `row`: the first member rack found that
     * holds at least one of the row's item is highlighted, replacing the
     * highlight category, until LOCATE_TICKS after `gameTime`. When no
     * member rack holds the item nothing is recorded.
     */
    method Locate(level: Level, row: int, gameTime: int, table: HighlightTable) returns (found: Option<Pos>)
      requires 0 <= row < |allItems|
      modifies table
      ensures found.Some? ==>
        && found.value in controller.racks && found.value in level.racks
        && level.racks[found.value].HasItemStack(allItems[row].key, 1)
        && table.boxes == old(table.boxes)[INVENTORY_HIGHLIGHT :=
             [TimedBox([], found.value, gameTime + LOCATE_TICKS, WHITE)]]
      ensures found.None? ==>
        && (forall p :: p in controller.racks && p in level.racks ==>
              !level.racks[p].HasItemStack(allItems[row].key, 1))
        && table.boxes == old(table.boxes)
    {
      var storage := allItems[row];
      var containerList := controller.racks;
      while containerList != {}
        invariant containerList <= controller.racks
        invariant forall p :: p in controller.racks - containerList && p in level.racks ==>
          !level.racks[p].HasItemStack(storage.key, 1)
        invariant table.boxes == old(table.boxes)
        decreases |containerList|
      {
        var blockPos :| blockPos in containerList;
        if blockPos in level.racks && level.racks[blockPos].HasItemStack(storage.key, 1) {
          table.boxes := table.boxes[INVENTORY_HIGHLIGHT := [TimedBox([], blockPos, gameTime + LOCATE_TICKS, WHITE)]];
          return Some(blockPos);
        }
        containerList := containerList - {blockPos};
      }
      found := None;
    }
  }

  /**
   * What the window lists for a member set: one row per item key the member
   * racks hold, with its summed amount, restricted by the filter and in the
   * order of the sort mode.
   */
  ghost predicate Lists(cs: map<Pos, map<ItemKey, nat>>, members: set<Pos>, items: seq<Entry>, filter: string,
                        matches: ItemKey -> bool, sortDescriptor: int)
  {
    && (forall e :: e in items ==>
          e.amount == ClusterCount(cs, members, e.key) && e.amount > 0 && (filter == "" || matches(e.key)))
    && DistinctKeys(items)
    && (forall k :: ClusterCount(cs, members, k) > 0 && (filter == "" || matches(k)) ==>
          exists e :: e in items && e.key == k)
    && (sortDescriptor == COUNT_ASC_SORT ==> SortedByCount(items, false))
    && (sortDescriptor == COUNT_DESC_SORT ==> SortedByCount(items, true))
  }

  /** Listing the aggregated map, filtering and arranging it gives what the window must list. */
  lemma ListingIsListed(cs: map<Pos, map<ItemKey, nat>>, members: set<Pos>, stored: map<ItemKey, nat>,
                        listing: seq<Entry>, filter: string, matches: ItemKey -> bool, sortDescriptor: int)
    requires forall k :: CountIn(stored, k) == ClusterCount(cs, members, k)
    requires forall k :: k in stored ==> stored[k] > 0
    requires forall e :: e in listing <==> e.key in stored && e.amount == stored[e.key]
    requires DistinctKeys(listing)
    ensures Lists(cs, members, Arranged(Filtered(listing, filter, matches), sortDescriptor), filter, matches, sortDescriptor)
  {
    var kept := Filtered(listing, filter, matches);
    var items := Arranged(kept, sortDescriptor);
    if sortDescriptor == COUNT_ASC_SORT || sortDescriptor == COUNT_DESC_SORT {
      SortKeepsDistinctKeys(kept, sortDescriptor == COUNT_DESC_SORT);
    }
    forall e | e in items
      ensures e in kept
    {
      assert e in multiset(items);
    }
    forall k | ClusterCount(cs, members, k) > 0 && (filter == "" || matches(k))
      ensures exists e :: e in items && e.key == k
    {
      assert CountIn(stored, k) > 0;
      var e := Entry(k, stored[k]);
      assert e in kept;
      assert e in multiset(items);
    }
  }

  /** `storedItems.forEach(... filterItems.add ...)`: one entry per key of the map, with its amount. */
  method Listing(stored: map<ItemKey, nat>) returns (items: seq<Entry>)
    ensures forall e :: e in items <==> e.key in stored && e.amount == stored[e.key]
    ensures DistinctKeys(items)
  {
    items := [];
    var keys := stored.Keys;
    while keys != {}
      invariant keys <= stored.Keys
      invariant forall e :: e in items <==> e.key in stored.Keys - keys && e.amount == stored[e.key]
      invariant DistinctKeys(items)
      invariant forall i :: 0 <= i < |items| ==> items[i].key !in keys
      decreases |keys|
    {
      var key :| key in keys;
      items := items + [Entry(key, stored[key])];
      keys := keys - {key};
    }
  }
}
