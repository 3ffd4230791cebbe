/**
  Iteration over a hash table (src/CommonLib/src/hash_table.c, on the list iterator of
  src/CommonLib/src/list.c), also while the entry just returned is removed, and HashTableClear.
 */
module HashIterator {

  import opened Basics
  import opened List
  import opened HashKey
  import opened HashTable

  // The entries from position p of bucket b on; from (0, 1), all entries of the table.
  function Rest(rings: seq<seq<ListEntry>>, b: nat, p: nat): seq<ListEntry>
    decreases |rings| - b
  {
    if b >= |rings| then []
    else (if p <= |rings[b]| then rings[b][p..] else []) + Rest(rings, b + 1, 1)
  }

  // Position i of bucket c lies at or behind position p of bucket b.
  predicate IsAhead(rings: seq<seq<ListEntry>>, b: nat, p: nat, c: nat, i: nat)
  {
    c < |rings| && i < |rings[c]| && (if c == b then p <= i else b < c && 1 <= i)
  }

  lemma {:induction false} RestHasAll(rings: seq<seq<ListEntry>>, b: nat, p: nat, c: nat, i: nat)
    requires IsAhead(rings, b, p, c, i)
    ensures rings[c][i] in Rest(rings, b, p)
    decreases |rings| - b
  {
    if c == b {
      assert rings[b][p..][i - p] == rings[c][i];
    } else {
      RestHasAll(rings, b + 1, 1, c, i);
    }
  }

  lemma {:induction false} RestHasOnly(rings: seq<seq<ListEntry>>, b: nat, p: nat, n: nat) returns (c: nat, i: nat)
    requires n < |Rest(rings, b, p)|
    ensures IsAhead(rings, b, p, c, i) && rings[c][i] == Rest(rings, b, p)[n]
    decreases |rings| - b
  {
    var here := if p <= |rings[b]| then |rings[b]| - p else 0;
    if n < here {
      c, i := b, p + n;
    } else {
      c, i := RestHasOnly(rings, b + 1, 1, n - here);
    }
  }

  // No entry comes twice.
  lemma {:induction false} RestIsDistinct(rings: seq<seq<ListEntry>>, owner: map<ListEntry, nat>, b: nat, p: nat)
    requires DisjointRings(rings, owner) && forall c :: 0 <= c < |rings| ==> Distinct(rings[c])
    ensures Distinct(Rest(rings, b, p))
    decreases |rings| - b
  {
    if b < |rings| {
      RestIsDistinct(rings, owner, b + 1, 1);
      var later := Rest(rings, b + 1, 1);
      forall n | 0 <= n < |later| ensures later[n] in owner && owner[later[n]] > b {
        var c, i := RestHasOnly(rings, b + 1, 1, n);
      }
    }
  }

  // Changing an earlier bucket does not matter.
  lemma {:induction false} RestAfterUpdate(rings: seq<seq<ListEntry>>, a: nat, ring: seq<ListEntry>, b: nat, p: nat)
    requires a < |rings| && a < b
    ensures Rest(rings[a := ring], b, p) == Rest(rings, b, p)
    decreases |rings| - b
  {
    if b < |rings| { RestAfterUpdate(rings, a, ring, b + 1, 1); }
  }

  // Removing the entry just returned leaves the same rest.
  lemma RestAfterRemove(rings: seq<seq<ListEntry>>, b: nat, p: nat)
    requires b < |rings| && 1 < p <= |rings[b]|
    ensures Rest(rings[b := Without(rings[b], p - 1)], b, p - 1) == Rest(rings, b, p)
  {
    var ring := Without(rings[b], p - 1);
    RestAfterUpdate(rings, b, ring, b + 1, 1);
    assert ring[p - 1..] == rings[b][p..];
  }

  // HASH_ITERATOR with the LIST_ITERATOR inside it; p is the ghost position of `current`.
  class Iterator {
    const table: HashTable
    var keyIndex: nat
    var listHead: ListEntry
    var current: ListEntry
    ghost var p: nat

    // Where the iterator stands in the table.
    ghost predicate Stands()
      reads this, table
    {
      && |table.view.rings| == |table.layout.heads| && keyIndex <= |table.layout.heads|
      && (keyIndex < |table.layout.heads| ==>
            var ring := table.view.rings[keyIndex];
            1 <= p <= |ring| && listHead == ring[0] && current == if p < |ring| then ring[p] else ring[0])
    }

    // The entries still to come.
    ghost function Remaining(): seq<ListEntry>
      reads this, table
    {
      Rest(table.view.rings, keyIndex, p)
    }

    // HashTableIteratorInit
    constructor (t: HashTable)
      requires t.Valid()
      ensures Stands() && table == t && Remaining() == Rest(t.view.rings, 0, 1)
    {
      FlinkAt(t, 0, 0);
      table, keyIndex, p := t, 0, 1;
      listHead := t.layout.heads[0];
      current := t.layout.heads[0].flink;
    }

    // The step to the next bucket, with ListIteratorInit on it.  (The source also sets up the
    // list behind the last bucket, and never uses it.)
    method NextBucket()
      requires table.Valid() && Stands() && keyIndex < |table.layout.heads| && p == |table.view.rings[keyIndex]|
      modifies this
      ensures table.Valid() && Stands() && keyIndex == old(keyIndex) + 1 && Remaining() == old(Remaining())
    {
      assert table.view.rings[keyIndex][p..] == [];
      keyIndex := keyIndex + 1;
      p := 1;
      if keyIndex < |table.layout.heads| {
        FlinkAt(table, keyIndex, 0);
        listHead := table.layout.heads[keyIndex];
        current := listHead.flink;
      }
    }

    // ListIteratorNext
    method NextInBucket() returns (result: ListEntry?)
      requires table.Valid() && Stands() && keyIndex < |table.layout.heads|
      modifies this
      ensures table.Valid() && Stands() && keyIndex == old(keyIndex)
      ensures result == null ==> p == |table.view.rings[keyIndex]| && Remaining() == old(Remaining())
      ensures result != null ==> Returned(old(Remaining()), result)
    {
      ghost var i := if p < |table.view.rings[keyIndex]| then p else 0;
      FlinkAt(table, keyIndex, i);
      if current == listHead {
        return null;
      }
      assert table.view.rings[keyIndex][p..][1..] == table.view.rings[keyIndex][p + 1..];
      result := current;
      current := current.flink;
      p := p + 1;
    }

    // The iterator has just returned e, the first of `before`.
    ghost predicate Returned(before: seq<ListEntry>, e: ListEntry)
      reads this, table
    {
      && before == [e] + Remaining()
      && keyIndex < |table.view.rings| && 1 < p <= |table.view.rings[keyIndex]|
      && table.view.rings[keyIndex][p - 1] == e
    }

    // HashTableIteratorNext: the next entry of the rest, or NULL when there is none.
    method Next() returns (result: ListEntry?)
      requires table.Valid() && Stands()
      modifies this
      ensures table.Valid() && Stands()
      ensures if old(Remaining()) == [] then result == null else result != null && Returned(old(Remaining()), result)
    {
      result := null;
      while keyIndex < |table.layout.heads|
        invariant table.Valid() && Stands() && result == null && Remaining() == old(Remaining())
        decreases |table.layout.heads| - keyIndex
      {
        result := NextInBucket();
        if result != null { break; }
        NextBucket();
      }
    }
  }

  // Flink leads from each entry of a bucket to the next one, and from the last to the head.
  lemma FlinkAt(t: HashTable, b: nat, i: nat)
    requires t.Valid() && b < |t.layout.heads|
    ensures |t.view.rings| == |t.layout.heads|
    ensures t.view.rings[b] != [] && t.view.rings[b][0] == t.layout.heads[b]
    ensures i < |t.view.rings[b]| ==>
      var ring := t.view.rings[b];
      (ring[i] == ring[0] <==> i == 0) && ring[i].flink == if i + 1 < |ring| then ring[i + 1] else ring[0]
  {
    assert t.layout.BucketOk(b, t.view.rings[b]);
    assert IsRing(t.view.rings[b]);
  }

  // ----- iterating while removing -----

  // s lists the entries of m, each once.
  ghost predicate Lists(s: seq<ListEntry>, m: map<Key, ListEntry>)
  {
    && Distinct(s)
    && (forall i :: 0 <= i < |s| ==> s[i].key in m && m[s[i].key] == s[i])
    && (forall k :: k in m ==> m[k] in s)
  }

  // From its start an iterator has every entry of the table ahead of it, and each just once.
  lemma RestIsAllEntries(l: Layout, v: View)
    requires l.Table(v)
    ensures Lists(Rest(v.rings, 0, 1), v.contents)
  {
    var rest := Rest(v.rings, 0, 1);
    forall c | 0 <= c < |v.rings| ensures Distinct(v.rings[c]) { assert l.BucketOk(c, v.rings[c]); }
    RestIsDistinct(v.rings, v.owner, 0, 1);
    forall k | k in v.contents ensures v.contents[k] in rest {
      assert l.KeyOk(v, k);
      var b := l.BucketOf(k);
      var i :| 1 <= i < |v.rings[b]| && v.rings[b][i] == v.contents[k];
      RestHasAll(v.rings, 0, 1, b, i);
    }
    forall n | 0 <= n < |rest| ensures rest[n].key in v.contents && v.contents[rest[n].key] == rest[n] {
      var c, i := RestHasOnly(v.rings, 0, 1, n);
      assert l.EntryOk(v, c, i);
    }
  }

  // What is left of m when the visited entries outside `keep` are dropped one by one.
  function Kept(m: map<Key, ListEntry>, visited: seq<ListEntry>, keep: set<ListEntry>): map<Key, ListEntry>
  {
    if visited == [] then m
    else
      var e := visited[|visited| - 1];
      Kept(m, visited[..|visited| - 1], keep) - (if e in keep then {} else {e.key})
  }

  lemma KeptStep(m: map<Key, ListEntry>, visited: seq<ListEntry>, keep: set<ListEntry>, e: ListEntry,
                 ahead: seq<ListEntry>)
    ensures visited + ([e] + ahead) == (visited + [e]) + ahead
    ensures Kept(m, visited + [e], keep) == Kept(m, visited, keep) - (if e in keep then {} else {e.key})
    ensures e in keep ==> Kept(m, visited + [e], keep) == Kept(m, visited, keep)
  {
    assert (visited + [e])[..|visited|] == visited;
  }

  // Whether key k outlives the visits.
  ghost predicate Outlives(k: Key, visited: seq<ListEntry>, keep: set<ListEntry>)
  {
    forall i :: 0 <= i < |visited| && visited[i] !in keep ==> visited[i].key != k
  }

  lemma {:induction false} KeptHas(m: map<Key, ListEntry>, visited: seq<ListEntry>, keep: set<ListEntry>, k: Key)
    ensures k in Kept(m, visited, keep) <==> k in m && Outlives(k, visited, keep)
    ensures k in Kept(m, visited, keep) ==> Kept(m, visited, keep)[k] == m[k]
  {
    if visited != [] {
      var front := visited[..|visited| - 1];
      KeptHas(m, front, keep, k);
      assert Outlives(k, visited, keep) <==>
        Outlives(k, front, keep) && (visited[|visited| - 1] !in keep ==> visited[|visited| - 1].key != k);
    }
  }

  // After a visit to every entry, exactly the kept ones are left.
  lemma KeptIsWanted(l: Layout, v: View, keep: set<ListEntry>)
    requires l.Table(v)
    ensures Kept(v.contents, Rest(v.rings, 0, 1), keep)
      == map k | k in v.contents && v.contents[k] in keep :: v.contents[k]
    ensures Lists(Rest(v.rings, 0, 1), v.contents)
  {
    var m, visited := v.contents, Rest(v.rings, 0, 1);
    RestIsAllEntries(l, v);
    forall k: Key
      ensures k in Kept(m, visited, keep) <==> k in m && m[k] in keep
      ensures k in Kept(m, visited, keep) ==> Kept(m, visited, keep)[k] == m[k]
    {
      KeptHas(m, visited, keep, k);
      assert l.KeyOk(v, k);
      if k in m {
        var n :| 0 <= n < |visited| && visited[n] == m[k];
      }
    }
  }

  // HashTableRemoveEntry on the entry the iterator has just returned: the iterator still stands
  // where it stood, with the same entries ahead.
  method RemoveReturned(it: Iterator, element: ListEntry)
    requires it.table.Valid() && it.Stands() && it.Returned([element] + it.Remaining(), element)
    modifies it, it.table, it.table.view.owner.Keys
    ensures it.table.Valid() && it.Stands() && it.Remaining() == old(it.Remaining())
    ensures it.table.Contents() == old(it.table.Contents()) - {element.key}
    ensures it.table.view.owner.Keys <= old(it.table.view.owner.Keys)
  {
    FlinkAt(it.table, it.keyIndex, it.p - 1);
    RestAfterRemove(it.table.view.rings, it.keyIndex, it.p);
    it.table.RemoveEntry(element, it.keyIndex, it.p - 1);
    it.p := it.p - 1;
  }

  // A client that goes over the whole table and removes each entry outside `keep` as it is returned.
  method Sweep(t: HashTable, keep: set<ListEntry>) returns (visited: seq<ListEntry>)
    requires t.Valid()
    modifies t, t.view.owner.Keys
    ensures t.Valid()
    ensures Lists(visited, old(t.Contents()))
    ensures t.Contents() == map k | k in old(t.Contents()) && old(t.Contents())[k] in keep :: old(t.Contents())[k]
  {
    ghost var v := t.view;
    ghost var all := Rest(v.rings, 0, 1);
    var it := new Iterator(t);
    ghost var ahead := all;
    var e := it.Next();
    visited := [];
    while e != null
      invariant it.table == t && fresh(it) && t.Valid() && it.Stands() && t.view.owner.Keys <= v.owner.Keys
      invariant if e == null then ahead == [] else it.Returned(ahead, e)
      invariant visited + ahead == all && t.Contents() == Kept(v.contents, visited, keep)
      decreases |ahead|
    {
      var element: ListEntry := e;
      ahead := it.Remaining();
      if element !in keep {
        RemoveReturned(it, element);
      }
      KeptStep(v.contents, visited, keep, element, ahead);
      visited := visited + [element];
      e := it.Next();
    }
    assert visited == all;
    KeptIsWanted(t.layout, v, keep);
  }

  // HashTableClear; `freed` are the arguments of the calls of the free function, in order.
  method Clear(t: HashTable) returns (freed: seq<ListEntry>)
    requires t.Valid()
    modifies t, t.view.owner.Keys
    ensures t.Valid() && t.Contents() == map[] && t.numberOfElements == 0
    ensures Lists(freed, old(t.Contents()))
  {
    freed := Sweep(t, {});
    assert t.Contents().Keys == {};
    assert t.Contents() == map[];
  }
}
