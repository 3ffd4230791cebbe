/**
  The intrusive circular doubly linked list of src/CommonLib/src/list.c.  The ghost argument
  `ring` of each operation is the sequence of entries met by following Flink, list head first;
  the list proper is ring[1..].
 */
module List {

  import opened Basics
  import opened HashKey

  // A LIST_ENTRY; `key` stands for the part of the enclosing record that identifies it.
  class ListEntry {
    const key: Key
    var flink: ListEntry?
    var blink: ListEntry?

    constructor (k: Key)
      ensures key == k && flink == null && blink == null
    {
      key, flink, blink := k, null, null;
    }
  }

  // Flink goes once round the ring and Blink is its inverse.
  ghost predicate IsRing(ring: seq<ListEntry>)
    reads ring
  {
    && ring != [] && Distinct(ring)
    && (forall i :: 0 <= i < |ring| ==> ring[i].flink == Next(ring, i))
    && (forall i :: 0 <= i < |ring| ==> ring[i].blink == Previous(ring, i))
  }

  function Next(ring: seq<ListEntry>, i: nat): ListEntry
    requires i < |ring|
  {
    if i == |ring| - 1 then ring[0] else ring[i + 1]
  }

  function Previous(ring: seq<ListEntry>, i: nat): ListEntry
    requires i < |ring|
  {
    if i == 0 then ring[|ring| - 1] else ring[i - 1]
  }

  // The ring with e after position i, and without position i.
  function InsertedAfter(ring: seq<ListEntry>, i: nat, e: ListEntry): seq<ListEntry>
    requires i < |ring|
  {
    ring[..i + 1] + [e] + ring[i + 1..]
  }

  function Without(ring: seq<ListEntry>, i: nat): seq<ListEntry>
    requires i < |ring|
  {
    ring[..i] + ring[i + 1..]
  }

  // Neighbours in the longer ring, in terms of the old one.
  lemma InsertedNeighbours(ring: seq<ListEntry>, i: nat, e: ListEntry, k: nat)
    requires i < |ring| && k <= |ring|
    ensures var r := InsertedAfter(ring, i, e);
            && r[k] == (if k <= i then ring[k] else if k == i + 1 then e else ring[k - 1])
            && Next(r, k) == (if k == i then e else if k == i + 1 then Next(ring, i)
                              else Next(ring, if k < i then k else k - 1))
            && Previous(r, k) == (if k == i + 1 then ring[i] else if k == (if i == |ring| - 1 then 0 else i + 2) then e
                                  else Previous(ring, if k <= i then k else k - 1))
  {
  }

  lemma WithoutNeighbours(ring: seq<ListEntry>, i: nat, k: nat)
    requires 0 < i < |ring| && k < |ring| - 1
    ensures var r, j := Without(ring, i), if k < i then k else k + 1;
            && r[k] == ring[j]
            && Next(r, k) == (if j == i - 1 then Next(ring, i) else Next(ring, j))
            && Previous(r, k) == (if Previous(ring, j) == ring[i] && j == (if i == |ring| - 1 then 0 else i + 1)
                                  then ring[i - 1]
                                  else Previous(ring, j))
  {
  }

  lemma DistinctAfterUpdate(ring: seq<ListEntry>, i: nat, e: ListEntry)
    requires Distinct(ring) && i < |ring|
    ensures Distinct(Without(ring, i)) && (e !in ring ==> Distinct(InsertedAfter(ring, i, e)))
  {
  }

  // Flink and Blink undo each other everywhere on a ring.
  lemma LinksAreInverse(ring: seq<ListEntry>, i: nat)
    requires IsRing(ring) && i < |ring|
    ensures ring[i].flink != null && ring[i].flink.blink == ring[i]
    ensures ring[i].blink != null && ring[i].blink.flink == ring[i]
  {
    assert ring[i].flink == Next(ring, i) && ring[i].blink == Previous(ring, i);
  }

  // Four pointer writes make the longer ring.
  lemma InsertionLinked(ring: seq<ListEntry>, i: nat, e: ListEntry)
    requires Distinct(ring) && i < |ring| && e !in ring
    requires e.flink == Next(ring, i) && e.blink == ring[i] && ring[i].flink == e && Next(ring, i).blink == e
    requires forall k :: 0 <= k < |ring| && k != i ==> ring[k].flink == Next(ring, k)
    requires forall k :: 0 <= k < |ring| && ring[k] != Next(ring, i) ==> ring[k].blink == Previous(ring, k)
    ensures IsRing(InsertedAfter(ring, i, e))
  {
    var r := InsertedAfter(ring, i, e);
    DistinctAfterUpdate(ring, i, e);
    forall k | 0 <= k < |r| ensures r[k].flink == Next(r, k) && r[k].blink == Previous(r, k) {
      InsertedNeighbours(ring, i, e, k);
    }
  }

  lemma RemovalLinked(ring: seq<ListEntry>, i: nat)
    requires Distinct(ring) && 0 < i < |ring|
    requires ring[i - 1].flink == Next(ring, i) && Next(ring, i).blink == ring[i - 1]
    requires forall k :: 0 <= k < |ring| && k != i - 1 ==> ring[k].flink == Next(ring, k)
    requires forall k :: 0 <= k < |ring| && ring[k] != Next(ring, i) ==> ring[k].blink == Previous(ring, k)
    ensures IsRing(Without(ring, i))
  {
    var r := Without(ring, i);
    DistinctAfterUpdate(ring, i, ring[i]);
    forall k | 0 <= k < |r| ensures r[k].flink == Next(r, k) && r[k].blink == Previous(r, k) {
      WithoutNeighbours(ring, i, k);
    }
  }

  method InitializeListHead(listHead: ListEntry)
    modifies listHead
    ensures IsRing([listHead])
  {
    listHead.flink, listHead.blink := listHead, listHead;
  }

  // Inserts behind any entry of the ring, not only behind its head.
  method InsertHeadList(listHead: ListEntry, entry: ListEntry, ghost ring: seq<ListEntry>, ghost i: nat)
    requires IsRing(ring) && i < |ring| && ring[i] == listHead && entry !in ring
    modifies ring, entry
    ensures IsRing(InsertedAfter(ring, i, entry))
  {
    var flink := listHead.flink;
    entry.flink := flink;
    entry.blink := listHead;
    flink.blink := entry;
    listHead.flink := entry;
    InsertionLinked(ring, i, entry);
  }

  // Inserts before any entry of the ring; before the head is at the end of the list.
  method InsertTailList(listHead: ListEntry, entry: ListEntry, ghost ring: seq<ListEntry>, ghost i: nat)
    requires IsRing(ring) && i < |ring| && ring[i] == listHead && entry !in ring
    modifies ring, entry
    ensures IsRing(InsertedAfter(ring, if i == 0 then |ring| - 1 else i - 1, entry))
  {
    var blink := listHead.blink;
    entry.flink := listHead;
    entry.blink := blink;
    blink.flink := entry;
    listHead.blink := entry;
    InsertionLinked(ring, if i == 0 then |ring| - 1 else i - 1, entry);
  }

  // TRUE exactly when the list became empty; the removed entry keeps its own links.
  method RemoveEntryList(entry: ListEntry, ghost ring: seq<ListEntry>, ghost i: nat) returns (becameEmpty: bool)
    requires IsRing(ring) && 0 < i < |ring| && ring[i] == entry
    modifies ring
    ensures IsRing(Without(ring, i)) && (becameEmpty <==> Without(ring, i)[1..] == [])
    ensures entry.flink == old(entry.flink) && entry.blink == old(entry.blink)
  {
    var flink := entry.flink;
    var blink := entry.blink;
    blink.flink := flink;
    flink.blink := blink;
    becameEmpty := flink == blink;
    RemovalLinked(ring, i);
  }

  // On an empty list the head itself is returned and nothing changes.
  method RemoveHeadList(listHead: ListEntry, ghost ring: seq<ListEntry>) returns (entry: ListEntry)
    requires IsRing(ring) && ring[0] == listHead
    modifies ring
    ensures |ring| == 1 ==> entry == listHead && IsRing(ring)
    ensures |ring| > 1 ==> entry == ring[1] && IsRing(Without(ring, 1))
  {
    entry := listHead.flink;
    var flink := entry.flink;
    listHead.flink := flink;
    flink.blink := listHead;
    if |ring| > 1 { RemovalLinked(ring, 1); }
  }

  method RemoveTailList(listHead: ListEntry, ghost ring: seq<ListEntry>) returns (entry: ListEntry)
    requires IsRing(ring) && ring[0] == listHead
    modifies ring
    ensures |ring| == 1 ==> entry == listHead && IsRing(ring)
    ensures |ring| > 1 ==> entry == ring[|ring| - 1] && IsRing(Without(ring, |ring| - 1))
  {
    entry := listHead.blink;
    var blink := entry.blink;
    listHead.blink := blink;
    blink.flink := listHead;
    if |ring| > 1 { RemovalLinked(ring, |ring| - 1); }
  }

  // ----- ordered insertion -----

  type Comparison = (ListEntry, ListEntry) -> int

  // The comparison is a total preorder on these entries.
  ghost predicate IsOrder(compare: Comparison, s: seq<ListEntry>)
  {
    && (forall i, j :: 0 <= i < |s| && 0 <= j < |s| ==> (compare(s[i], s[j]) < 0 <==> compare(s[j], s[i]) > 0))
    && (forall i, j, k :: 0 <= i < |s| && 0 <= j < |s| && 0 <= k < |s|
                       && compare(s[i], s[j]) <= 0 && compare(s[j], s[k]) <= 0
                       ==> compare(s[i], s[k]) <= 0)
  }

  ghost predicate Sorted(compare: Comparison, s: seq<ListEntry>)
  {
    forall i, j :: 0 <= i < j < |s| ==> compare(s[i], s[j]) <= 0
  }

  // p is the last position before the first entry that the new one is smaller than.
  ghost predicate IsInsertionPoint(compare: Comparison, ring: seq<ListEntry>, entry: ListEntry, p: nat)
  {
    && p < |ring|
    && (forall j :: 1 <= j <= p ==> compare(entry, ring[j]) >= 0)
    && (p + 1 < |ring| ==> compare(entry, ring[p + 1]) < 0)
  }

  method InsertOrderedList(listHead: ListEntry, entry: ListEntry, compare: Comparison, ghost ring: seq<ListEntry>)
    returns (ghost p: nat)
    requires IsRing(ring) && ring[0] == listHead && entry !in ring
    modifies ring, entry
    ensures IsInsertionPoint(compare, ring, entry, p) && IsRing(InsertedAfter(ring, p, entry))
  {
    var current := listHead.flink;
    p := 0;
    while current != listHead
      invariant p < |ring| && current == Next(ring, p) && forall j :: 1 <= j <= p ==> compare(entry, ring[j]) >= 0
      invariant forall k :: 0 <= k < |ring| ==> ring[k].flink == Next(ring, k)
      decreases |ring| - p
    {
      if compare(entry, current) < 0 { break; }
      current := current.flink;
      p := p + 1;
    }
    InsertTailList(current, entry, ring, if p == |ring| - 1 then 0 else p + 1);
  }

  lemma Below(compare: Comparison, s: seq<ListEntry>, i: nat, j: nat, k: nat)
    requires IsOrder(compare, s) && i < |s| && j < |s| && k < |s|
    requires compare(s[i], s[j]) < 0 && compare(s[j], s[k]) <= 0
    ensures compare(s[i], s[k]) < 0
  {
    assert compare(s[j], s[i]) > 0;
  }

  // The list stays sorted, and the new entry comes after all entries equal to it.
  lemma SortedAfterInsertion(compare: Comparison, ring: seq<ListEntry>, entry: ListEntry, p: nat)
    requires IsInsertionPoint(compare, ring, entry, p) && Sorted(compare, ring[1..])
    requires IsOrder(compare, ring[1..] + [entry])
    ensures Sorted(compare, InsertedAfter(ring, p, entry)[1..])
    ensures forall j :: p < j < |ring| ==> compare(entry, ring[j]) < 0
  {
    var list, all, after := ring[1..], ring[1..] + [entry], InsertedAfter(ring, p, entry)[1..];
    var n := |list|;
    assert all[n] == entry && forall j :: 0 <= j < n ==> all[j] == list[j] == ring[j + 1];
    forall j | p <= j < n ensures compare(entry, list[j]) < 0 {
      if p < j { Below(compare, all, n, p, j); }
    }
    forall i | 0 <= i < p ensures compare(list[i], entry) <= 0 {
      assert compare(all[i], all[n]) > 0 <==> compare(all[n], all[i]) < 0;
    }
    assert after == list[..p] + [entry] + list[p..];
    SortedWithMiddle(compare, list, entry, p);
  }

  lemma SortedWithMiddle(compare: Comparison, list: seq<ListEntry>, entry: ListEntry, p: nat)
    requires Sorted(compare, list) && p <= |list|
    requires forall i :: 0 <= i < p ==> compare(list[i], entry) <= 0
    requires forall j :: p <= j < |list| ==> compare(entry, list[j]) < 0
    ensures Sorted(compare, list[..p] + [entry] + list[p..])
  {
  }

  // ----- search -----

  // ListSearchForElement; probe is the comparison of a list entry with the element searched for.
  // `last` and `lastResult` are the last entry compared (the list head if none) and its result,
  // which a comparison context can record.
  method ListSearchForElement(listHead: ListEntry, isListOrdered: bool, probe: ListEntry -> int,
                              ghost ring: seq<ListEntry>)
    returns (result: ListEntry?, last: ListEntry, lastResult: int, ghost k: nat)
    requires IsRing(ring) && ring[0] == listHead
    ensures k < |ring| && last == ring[k] && lastResult == if k == 0 then 0 else probe(ring[k])
    ensures forall j :: 1 <= j < k ==> probe(ring[j]) != 0 && (isListOrdered ==> probe(ring[j]) < 0)
    ensures result != null ==> 0 < k && result == ring[k] && probe(ring[k]) == 0
    ensures result == null ==>
      (k == 0 || probe(ring[k]) != 0) && (k == |ring| - 1 || (isListOrdered && 0 < k && probe(ring[k]) > 0))
    // where the probe only rises, stopping early misses nothing
    ensures result == null && (forall i, j :: 1 <= i < j < |ring| && probe(ring[i]) > 0 ==> probe(ring[j]) > 0)
            ==> forall j :: 1 <= j < |ring| ==> probe(ring[j]) != 0
  {
    last, lastResult, k := listHead, 0, 0;
    var current := listHead.flink;
    while current != listHead
      invariant k < |ring| && current == Next(ring, k) && last == ring[k]
      invariant lastResult == if k == 0 then 0 else probe(ring[k])
      invariant forall j :: 1 <= j <= k ==> probe(ring[j]) != 0 && (isListOrdered ==> probe(ring[j]) < 0)
      decreases |ring| - k
    {
      lastResult, last, k := probe(current), current, k + 1;
      if lastResult == 0 { return current, last, lastResult, k; }
      if isListOrdered && lastResult > 0 { return null, last, lastResult, k; }
      current := current.flink;
    }
    result := null;
  }
}
