/**
  The hash table of src/CommonLib/src/hash_table.c: an array of circular lists, each sorted by
  key.  The ghost field `view` is what the table stands for: the ring of entries of each bucket,
  its list head first, and the map from keys to entries.
 */
module HashTable {

  import opened Basics
  import opened List
  import opened HashKey

  // owner: the bucket of each list head and entry.
  datatype View = View(rings: seq<seq<ListEntry>>, owner: map<ListEntry, nat>, contents: map<Key, ListEntry>)

  // What is fixed when a table is created: MaxKeys and TableData->Entries, KeySize, HashFunc.
  datatype Layout = Layout(heads: seq<ListEntry>, keySize: nat, hashFunction: HashFunction)
  {
    // The bucket of a key.
    function BucketOf(key: Key): (b: nat)
      requires 0 < |heads|
      ensures b < |heads|
    {
      Hash(hashFunction, key, |heads|)
    }

    // One bucket: its list head, then entries that hash here and have rising keys.
    ghost predicate BucketOk(b: nat, ring: seq<ListEntry>)
      requires b < |heads|
    {
      && ring != [] && ring[0] == heads[b] && Distinct(ring)
      && (forall i :: 1 <= i < |ring| ==> |ring[i].key| == keySize && BucketOf(ring[i].key) == b)
      && (forall i, j :: 1 <= i < j < |ring| ==> Number(ring[i].key) < Number(ring[j].key))
    }

    // Whatever is in a bucket is in the map.
    ghost predicate EntryOk(v: View, b: nat, i: nat)
    {
      b < |v.rings| && 0 < i < |v.rings[b]| ==>
        v.rings[b][i].key in v.contents && v.contents[v.rings[b][i].key] == v.rings[b][i]
    }

    // Whatever is in the map is in its bucket.
    ghost predicate KeyOk(v: View, k: Key)
      requires 0 < |heads| == |v.rings|
    {
      k in v.contents ==> |k| == keySize && v.contents[k].key == k && IsInBucket(v.rings[BucketOf(k)], v.contents[k])
    }

    ghost predicate Table(v: View)
    {
      && 0 < |heads| == |v.rings| && DisjointRings(v.rings, v.owner)
      && (forall b: nat {:trigger BucketOk(b, v.rings[b])} :: b < |heads| ==> BucketOk(b, v.rings[b]))
      && (forall b: nat, i: nat :: EntryOk(v, b, i))
      && (forall k: Key :: KeyOk(v, k))
    }

    // Position p lies between the smaller and the larger keys.
    ghost predicate Separates(ring: seq<ListEntry>, key: Key, p: nat)
    {
      && p < |ring|
      && (forall i :: 1 <= i <= p ==> Number(ring[i].key) < Number(key))
      && (forall i :: p < i < |ring| ==> Number(ring[i].key) > Number(key))
    }

    // Bucket b becomes `ring`, and the map changes at keys of bucket b only.
    lemma TableAfterChange(v: View, b: nat, ring: seq<ListEntry>, v': View)
      requires Table(v) && b < |heads| && BucketOk(b, ring) && v'.rings == v.rings[b := ring]
      requires forall i: nat :: i < |ring| ==> ring[i] in v'.owner && v'.owner[ring[i]] == b
      requires forall i: nat :: EntryOk(v', b, i)
      requires forall e :: e in v.owner && v.owner[e] != b ==> e in v'.owner && v'.owner[e] == v.owner[e]
      requires forall k: Key :: BucketOf(k) == b ==> KeyOk(v', k)
      requires forall k: Key :: BucketOf(k) != b ==>
        (k in v.contents <==> k in v'.contents) && (k in v.contents ==> v'.contents[k] == v.contents[k])
      ensures Table(v')
    {
      forall c: nat, i: nat ensures EntryOk(v', c, i) {
        if c < |v'.rings| && c != b && 0 < i < |v'.rings[c]| {
          assert EntryOk(v, c, i) && BucketOk(c, v.rings[c]);
        }
      }
      forall k: Key ensures KeyOk(v', k) {
        if BucketOf(k) != b { assert KeyOk(v, k); }
      }
    }

    // The table after bucket b of e.key got a new entry, replaced one, or lost one.
    function Inserted(v: View, p: nat, e: ListEntry): View
      requires 0 < |heads| == |v.rings| && p < |v.rings[BucketOf(e.key)]|
    {
      var b := BucketOf(e.key);
      View(v.rings[b := InsertedAfter(v.rings[b], p, e)], v.owner[e := b], v.contents[e.key := e])
    }

    function Replaced(v: View, p: nat, e: ListEntry): View
      requires 0 < |heads| == |v.rings| && p < |v.rings[BucketOf(e.key)]|
    {
      var b := BucketOf(e.key);
      View(v.rings[b := v.rings[b][p := e]], v.owner[e := b] - {v.rings[b][p]}, v.contents[e.key := e])
    }

    function Removed(v: View, b: nat, p: nat): View
      requires b < |v.rings| && p < |v.rings[b]|
    {
      var e := v.rings[b][p];
      View(v.rings[b := Without(v.rings[b], p)], v.owner - {e}, v.contents - {e.key})
    }

    lemma BucketAfterInsert(b: nat, ring: seq<ListEntry>, p: nat, e: ListEntry)
      requires b < |heads| && BucketOk(b, ring) && |e.key| == keySize && BucketOf(e.key) == b && e !in ring
      requires Separates(ring, e.key, p)
      ensures BucketOk(b, InsertedAfter(ring, p, e))
    {
      var r := InsertedAfter(ring, p, e);
      DistinctAfterUpdate(ring, p, e);
      forall k | 0 <= k < |r| ensures r[k] == if k <= p then ring[k] else if k == p + 1 then e else ring[k - 1] {}
    }

    lemma TableAfterInsert(v: View, p: nat, e: ListEntry)
      requires Table(v) && |e.key| == keySize && e !in v.owner && Separates(v.rings[BucketOf(e.key)], e.key, p)
      ensures Table(Inserted(v, p, e)) && e.key !in v.contents
    {
      var b, v' := BucketOf(e.key), Inserted(v, p, e);
      var ring, r := v.rings[b], v'.rings[b];
      BucketAfterInsert(b, ring, p, e);
      forall i: nat ensures i < |r| ==> r[i] in v'.owner && v'.owner[r[i]] == b
      {
        assert i < |r| ==> r[i] == if i <= p then ring[i] else if i == p + 1 then e else ring[i - 1];
      }
      assert KeyOk(v, e.key);
      forall i: nat ensures EntryOk(v', b, i) {
        if 0 < i < |r| && i != p + 1 {
          assert EntryOk(v, b, if i <= p then i else i - 1);
          assert r[i] == if i <= p then ring[i] else ring[i - 1];
        }
      }
      forall k: Key | BucketOf(k) == b ensures KeyOk(v', k) {
        assert KeyOk(v, k);
        if k == e.key { assert r[p + 1] == e; } else if k in v.contents { AlsoInBucket(ring, p, e, v.contents[k]); }
      }
      TableAfterChange(v, b, r, v');
    }

    lemma BucketAfterReplace(b: nat, ring: seq<ListEntry>, p: nat, e: ListEntry)
      requires b < |heads| && BucketOk(b, ring) && 0 < p < |ring| && ring[p].key == e.key && e !in ring
      ensures BucketOk(b, ring[p := e])
      ensures forall i :: 1 <= i < |ring| && i != p ==> ring[i].key != e.key
    {
    }

    lemma TableAfterReplace(v: View, p: nat, e: ListEntry)
      requires Table(v) && |e.key| == keySize && e !in v.owner
      requires 0 < p < |v.rings[BucketOf(e.key)]| && v.rings[BucketOf(e.key)][p].key == e.key
      ensures Table(Replaced(v, p, e)) && e.key in v.contents && v.contents[e.key] == v.rings[BucketOf(e.key)][p]
    {
      var b, v' := BucketOf(e.key), Replaced(v, p, e);
      var ring, r := v.rings[b], v'.rings[b];
      assert EntryOk(v, b, p);
      BucketAfterReplace(b, ring, p, e);
      forall i: nat ensures EntryOk(v', b, i) {
        if 0 < i < |r| && i != p { assert EntryOk(v, b, i); }
      }
      forall k: Key | BucketOf(k) == b ensures KeyOk(v', k) {
        assert KeyOk(v, k);
        if k == e.key {
          assert r[p] == e;
        } else if k in v.contents {
          var i :| 1 <= i < |ring| && ring[i] == v.contents[k];
          assert r[i] == v.contents[k];
        }
      }
      TableAfterChange(v, b, r, v');
    }

    lemma BucketAfterRemove(b: nat, ring: seq<ListEntry>, p: nat)
      requires b < |heads| && BucketOk(b, ring) && 0 < p < |ring|
      ensures BucketOk(b, Without(ring, p))
      ensures forall k :: 0 <= k < |ring| - 1 ==>
        Without(ring, p)[k] == (if k < p then ring[k] else ring[k + 1]) && Without(ring, p)[k] != ring[p]
      ensures forall k :: 1 <= k < |ring| - 1 ==> Without(ring, p)[k].key != ring[p].key
    {
      var r := Without(ring, p);
      DistinctAfterUpdate(ring, p, ring[p]);
      forall k | 0 <= k < |r| ensures r[k] == (if k < p then ring[k] else ring[k + 1]) && r[k] != ring[p] {}
    }

    lemma TableAfterRemove(v: View, b: nat, p: nat)
      requires Table(v) && b < |v.rings| && 0 < p < |v.rings[b]|
      ensures Table(Removed(v, b, p)) && v.rings[b][p].key in v.contents
    {
      var v', e := Removed(v, b, p), v.rings[b][p];
      var ring, r := v.rings[b], v'.rings[b];
      assert EntryOk(v, b, p) && BucketOk(b, ring);
      BucketAfterRemove(b, ring, p);
      forall i: nat ensures EntryOk(v', b, i) {
        if 0 < i < |r| { assert EntryOk(v, b, if i < p then i else i + 1); }
      }
      forall k: Key | BucketOf(k) == b ensures KeyOk(v', k) {
        assert KeyOk(v, k);
        if k != e.key && k in v.contents { StillInBucket(ring, p, v.contents[k]); }
      }
      TableAfterChange(v, b, r, v');
    }
  }

  ghost predicate IsInBucket(ring: seq<ListEntry>, e: ListEntry) { exists i :: 1 <= i < |ring| && ring[i] == e }

  lemma StillInBucket(ring: seq<ListEntry>, p: nat, x: ListEntry)
    requires 0 < p < |ring| && IsInBucket(ring, x) && x != ring[p]
    ensures IsInBucket(Without(ring, p), x)
  {
    var i :| 1 <= i < |ring| && ring[i] == x;
    assert Without(ring, p)[if i < p then i else i - 1] == x;
  }

  lemma AlsoInBucket(ring: seq<ListEntry>, p: nat, e: ListEntry, x: ListEntry)
    requires p < |ring| && IsInBucket(ring, x)
    ensures IsInBucket(InsertedAfter(ring, p, e), x)
  {
    var i :| 1 <= i < |ring| && ring[i] == x;
    assert InsertedAfter(ring, p, e)[if i <= p then i else i + 1] == x;
  }

  // ----- pointer operations on one bucket leave the other buckets alone -----

  ghost predicate DisjointRings(rings: seq<seq<ListEntry>>, owner: map<ListEntry, nat>)
  {
    forall b, i :: 0 <= b < |rings| && 0 <= i < |rings[b]| ==> rings[b][i] in owner && owner[rings[b][i]] == b
  }

  ghost predicate AllRings(rings: seq<seq<ListEntry>>, owner: map<ListEntry, nat>)
    requires DisjointRings(rings, owner)
    reads owner.Keys
  {
    forall b {:trigger IsRing(rings[b])} :: 0 <= b < |rings| ==> IsRing(rings[b])
  }

  lemma WithoutIsDisjoint(rings: seq<seq<ListEntry>>, owner: map<ListEntry, nat>, b: nat, p: nat)
    requires DisjointRings(rings, owner) && b < |rings| && p < |rings[b]| && Distinct(rings[b])
    ensures DisjointRings(rings[b := Without(rings[b], p)], owner - {rings[b][p]})
  {
    var ring := rings[b];
    forall i | 0 <= i < |ring| - 1
      ensures Without(ring, p)[i] == ring[if i < p then i else i + 1] && Without(ring, p)[i] != ring[p]
    {}
  }

  lemma InsertionIsDisjoint(rings: seq<seq<ListEntry>>, owner: map<ListEntry, nat>, b: nat, p: nat, e: ListEntry)
    requires DisjointRings(rings, owner) && b < |rings| && p < |rings[b]| && e !in owner
    ensures DisjointRings(rings[b := InsertedAfter(rings[b], p, e)], owner[e := b])
  {
    var ring := rings[b];
    forall i | 0 <= i <= |ring|
      ensures InsertedAfter(ring, p, e)[i] == if i <= p then ring[i] else if i == p + 1 then e else ring[i - 1]
    {}
  }

  lemma InsertThenRemove(ring: seq<ListEntry>, p: nat, e: ListEntry)
    requires p < |ring|
    ensures Without(InsertedAfter(ring, p, e), p) == ring[p := e]
  {
    var both := InsertedAfter(ring, p, e);
    assert both[..p] == ring[..p] && both[p + 1] == e && both[p + 2..] == ring[p + 1..];
    assert both[p + 1..] == [e] + ring[p + 1..];
  }

  method RemoveFromBucket(entry: ListEntry, ghost rings: seq<seq<ListEntry>>, ghost owner: map<ListEntry, nat>,
                          ghost b: nat, ghost p: nat)
    requires DisjointRings(rings, owner) && AllRings(rings, owner) && b < |rings| && 0 < p < |rings[b]|
    requires rings[b][p] == entry
    modifies rings[b]
    ensures DisjointRings(rings[b := Without(rings[b], p)], owner - {entry}) && entry.flink == old(entry.flink)
    ensures AllRings(rings[b := Without(rings[b], p)], owner - {entry})
  {
    assert IsRing(rings[b]);
    WithoutIsDisjoint(rings, owner, b, p);
    var empty := RemoveEntryList(entry, rings[b], p);
    forall c | 0 <= c < |rings| && c != b ensures IsRing(rings[c]) {
      assert forall i :: 0 <= i < |rings[c]| ==> rings[c][i] !in rings[b];
    }
  }

  method InsertIntoBucket(place: ListEntry, entry: ListEntry, ghost rings: seq<seq<ListEntry>>,
                          ghost owner: map<ListEntry, nat>, ghost b: nat, ghost p: nat)
    requires DisjointRings(rings, owner) && AllRings(rings, owner) && b < |rings| && p < |rings[b]|
    requires rings[b][p] == place && entry !in owner
    modifies rings[b], entry
    ensures DisjointRings(rings[b := InsertedAfter(rings[b], p, entry)], owner[entry := b])
    ensures AllRings(rings[b := InsertedAfter(rings[b], p, entry)], owner[entry := b])
  {
    assert IsRing(rings[b]);
    InsertionIsDisjoint(rings, owner, b, p, entry);
    InsertHeadList(place, entry, rings[b], p);
    forall c | 0 <= c < |rings| && c != b ensures IsRing(rings[c]) {
      assert forall i :: 0 <= i < |rings[c]| ==> rings[c][i] !in rings[b] && rings[c][i] != entry;
    }
  }

  // The new entry goes behind the old one, which is then taken out.
  method ReplaceInBucket(place: ListEntry, entry: ListEntry, ghost rings: seq<seq<ListEntry>>,
                         ghost owner: map<ListEntry, nat>, ghost b: nat, ghost p: nat)
    requires DisjointRings(rings, owner) && AllRings(rings, owner) && b < |rings| && 0 < p < |rings[b]|
    requires rings[b][p] == place && entry !in owner
    modifies rings[b], entry
    ensures DisjointRings(rings[b := rings[b][p := entry]], owner[entry := b] - {place})
    ensures AllRings(rings[b := rings[b][p := entry]], owner[entry := b] - {place})
  {
    InsertIntoBucket(place, entry, rings, owner, b, p);
    ghost var both := rings[b := InsertedAfter(rings[b], p, entry)];
    assert both[b][p] == place && forall i :: 0 <= i < |both[b]| ==> both[b][i] in rings[b] || both[b][i] == entry;
    RemoveFromBucket(place, both, owner[entry := b], b, p);
    InsertThenRemove(rings[b], p, entry);
    assert both[b := Without(both[b], p)] == rings[b := rings[b][p := entry]];
  }

  lemma EmptyTable(l: Layout, v: View)
    requires 0 < |l.heads| == |v.rings| && v.contents == map[]
    requires forall b :: 0 <= b < |v.rings| ==>
      v.rings[b] == [l.heads[b]] && l.heads[b] in v.owner && v.owner[l.heads[b]] == b
    ensures l.Table(v)
  {
  }

  // The 32-bit element count follows the size of the map.
  function Low32(n: nat): nat { n % DWORD_SIZE }

  function Increment32(n: nat): nat { (n + 1) % DWORD_SIZE }

  function Decrement32(n: nat): nat { (n - 1) % DWORD_SIZE }

  lemma CountStep(n: nat)
    ensures Increment32(Low32(n)) == Low32(n + 1)
    ensures n > 0 ==> Decrement32(Low32(n)) == Low32(n - 1)
  {
  }

  lemma SizeAfterRemove(m: map<Key, ListEntry>, k: Key)
    requires k in m
    ensures Low32(|m - {k}|) == Decrement32(Low32(|m|))
  {
    assert (m - {k}).Keys == m.Keys - {k};
    assert |m - {k}| == |m| - 1;
    CountStep(|m|);
  }

  lemma SizeAfterInsert(m: map<Key, ListEntry>, k: Key, e: ListEntry)
    ensures Low32(|m[k := e]|) == if k in m then Low32(|m|) else Increment32(Low32(|m|))
  {
    assert m[k := e].Keys == m.Keys + {k};
    if k in m {
      assert m[k := e].Keys == m.Keys;
    } else {
      assert |m[k := e]| == |m| + 1;
      CountStep(|m|);
    }
  }

  class HashTable {
    const layout: Layout
    var numberOfElements: nat
    ghost var view: View

    ghost predicate Valid()
      reads this, view.owner.Keys
    {
      && 1 <= layout.keySize <= 8 && layout.Table(view)
      && AllRings(view.rings, view.owner)
      && numberOfElements == Low32(|view.contents|)
    }

    // The map the table stands for.
    ghost function Contents(): map<Key, ListEntry>
      reads this
    {
      view.contents
    }

    // HashTablePreinit and HashTableInit
    constructor (entries: seq<ListEntry>, keySize: nat, hashFunction: HashFunction)
      requires 0 < |entries| && Distinct(entries) && 1 <= keySize <= 8
      modifies entries
      ensures Valid() && Contents() == map[] && layout == Layout(entries, keySize, hashFunction)
      ensures view.owner.Keys == set e | e in entries
    {
      layout := Layout(entries, keySize, hashFunction);
      numberOfElements := 0;
      view := View(seq(|entries|, i requires 0 <= i < |entries| => [entries[i]]),
                   map i | 0 <= i < |entries| :: entries[i] := i, map[]);
      new;
      InitializeBuckets(entries);
      EmptyTable(layout, view);
    }

    // The call of HashFunc
    method BucketIndex(key: Key) returns (b: nat)
      requires 0 < |layout.heads| && 1 <= |key| <= 8
      ensures b == layout.BucketOf(key)
    {
      match layout.hashFunction
      case Incremental => b := HashFuncGenericIncremental(key, |layout.heads|);
      case UniversalHash => b := HashFuncUniversal(key, |layout.heads|);
    }

    // _HashTableSearchElem: an entry against the key searched for.
    static function Probe(e: ListEntry, key: Key): int { if |e.key| == |key| then Compare(e.key, key) else 0 }

    // _HashTableSearchKeyInBucket: the entry with the key, or the entry after which it belongs.
    method SearchKeyInBucket(b: nat, key: Key) returns (found: bool, place: ListEntry, ghost p: nat)
      requires Valid() && b < |layout.heads| && |key| == layout.keySize
      ensures p < |view.rings[b]| && place == view.rings[b][p]
      ensures found ==> 0 < p && place.key == key
      ensures !found ==> layout.Separates(view.rings[b], key, p)
    {
      ghost var ring := view.rings[b];
      assert IsRing(ring) && layout.BucketOk(b, ring);
      ghost var k;
      var result, last, lastResult;
      result, last, lastResult, k := ListSearchForElement(layout.heads[b], true, (e: ListEntry) => Probe(e, key), ring);
      place := if lastResult > 0 then last.blink else last;
      found := result != null;
      p := if lastResult > 0 then k - 1 else k;
      assert lastResult > 0 ==> last.blink == Previous(ring, k);
      if found { CompareOrdersNumbers(place.key, key); } else { SearchSeparates(b, ring, key, k, p); }
    }

    lemma SearchSeparates(b: nat, ring: seq<ListEntry>, key: Key, k: nat, p: nat)
      requires b < |layout.heads| && layout.BucketOk(b, ring) && |key| == layout.keySize && k < |ring|
      requires forall j :: 1 <= j < k ==> Probe(ring[j], key) < 0
      requires if 0 < k && Probe(ring[k], key) > 0 then p == k - 1
               else p == k == |ring| - 1 && (0 < k ==> Probe(ring[k], key) < 0)
      ensures layout.Separates(ring, key, p)
    {
      forall i | 1 <= i <= p ensures Number(ring[i].key) < Number(key) { CompareOrdersNumbers(ring[i].key, key); }
      if p < k { CompareOrdersNumbers(ring[k].key, key); }
    }

    // HashTableLookup
    method Lookup(key: Key) returns (entry: ListEntry?)
      requires Valid() && |key| == layout.keySize
      ensures entry == if key in Contents() then Contents()[key] else null
    {
      var hIndex := BucketIndex(key);
      var found, place;
      ghost var p;
      found, place, p := SearchKeyInBucket(hIndex, key);
      entry := if found then place else null;
      assert layout.EntryOk(view, hIndex, p) && layout.KeyOk(view, key);
    }

    // HashTableInsert: an entry with the same key is replaced and returned.
    method Insert(element: ListEntry) returns (replaced: ListEntry?)
      requires Valid() && |element.key| == layout.keySize && element !in view.owner
      modifies this, view.owner.Keys, element
      ensures Valid() && Contents() == old(Contents())[element.key := element]
      ensures replaced == if element.key in old(Contents()) then old(Contents())[element.key] else null
      ensures view.owner.Keys == old(view.owner.Keys) + {element} - (if replaced == null then {} else {replaced})
    {
      var hIndex := BucketIndex(element.key);
      var found, place;
      ghost var p;
      found, place, p := SearchKeyInBucket(hIndex, element.key);
      if found {
        Replace(element, place, p);
      } else {
        Add(element, place, p);
      }
      replaced := if found then place else null;
    }

    // The two ways HashTableInsert links the element.
    method Add(element: ListEntry, place: ListEntry, ghost p: nat)
      requires Valid() && |element.key| == layout.keySize && element !in view.owner
      requires layout.Separates(view.rings[layout.BucketOf(element.key)], element.key, p)
      requires place == view.rings[layout.BucketOf(element.key)][p]
      modifies this, view.owner.Keys, element
      ensures Valid() && element.key !in old(Contents()) && Contents() == old(Contents())[element.key := element]
      ensures view.owner.Keys == old(view.owner.Keys) + {element}
    {
      ghost var v := view;
      SizeAfterInsert(v.contents, element.key, element);
      layout.TableAfterInsert(v, p, element);
      InsertIntoBucket(place, element, v.rings, v.owner, layout.BucketOf(element.key), p);
      view := layout.Inserted(v, p, element);
      numberOfElements := Increment32(numberOfElements);
    }

    method Replace(element: ListEntry, place: ListEntry, ghost p: nat)
      requires Valid() && |element.key| == layout.keySize && element !in view.owner
      requires 0 < p < |view.rings[layout.BucketOf(element.key)]|
      requires place == view.rings[layout.BucketOf(element.key)][p] && place.key == element.key
      modifies this, view.owner.Keys, element
      ensures Valid() && element.key in old(Contents()) && old(Contents())[element.key] == place
      ensures Contents() == old(Contents())[element.key := element]
      ensures view.owner.Keys == old(view.owner.Keys) + {element} - {place}
    {
      ghost var v := view;
      SizeAfterInsert(v.contents, element.key, element);
      layout.TableAfterReplace(v, p, element);
      ReplaceInBucket(place, element, v.rings, v.owner, layout.BucketOf(element.key), p);
      view := layout.Replaced(v, p, element);
    }

    lemma Find(element: ListEntry) returns (b: nat, p: nat)
      requires Valid() && element.key in Contents() && Contents()[element.key] == element
      ensures b < |view.rings| && 0 < p < |view.rings[b]| && view.rings[b][p] == element
    {
      assert layout.KeyOk(view, element.key);
      b := layout.BucketOf(element.key);
      p :| 1 <= p < |view.rings[b]| && view.rings[b][p] == element;
    }

    // HashTableRemoveEntry
    method RemoveEntry(element: ListEntry, ghost b: nat, ghost p: nat)
      requires Valid() && b < |view.rings| && 0 < p < |view.rings[b]| && view.rings[b][p] == element
      modifies this, view.owner.Keys
      ensures Valid() && view == layout.Removed(old(view), b, p)
      ensures element.flink == old(element.flink)
    {
      ghost var v := view;
      layout.TableAfterRemove(v, b, p);
      SizeAfterRemove(v.contents, element.key);
      RemoveFromBucket(element, v.rings, v.owner, b, p);
      numberOfElements := Decrement32(numberOfElements);
      view := layout.Removed(v, b, p);
    }

    // HashTableRemove
    method Remove(key: Key) returns (entry: ListEntry?)
      requires Valid() && |key| == layout.keySize
      modifies this, view.owner.Keys
      ensures Valid() && Contents() == old(Contents()) - {key}
      ensures view.owner.Keys == old(view.owner.Keys) - (if entry == null then {} else {entry})
      ensures entry == if key in old(Contents()) then old(Contents())[key] else null
    {
      entry := Lookup(key);
      if entry != null {
        assert layout.KeyOk(view, key);
        ghost var b, p := Find(entry);
        RemoveEntry(entry, b, p);
      }
    }
  }

  // The loop of HashTableInit
  method InitializeBuckets(heads: seq<ListEntry>)
    requires Distinct(heads)
    modifies heads
    ensures forall b :: 0 <= b < |heads| ==> IsRing([heads[b]])
  {
    var i := 0;
    while i < |heads|
      invariant 0 <= i <= |heads|
      invariant forall b :: 0 <= b < i ==> IsRing([heads[b]])
    {
      InitializeListHead(heads[i]);
      i := i + 1;
    }
  }
}
