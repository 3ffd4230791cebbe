/**
  Whole runs of the hash table against a plain map: the shadow map that
  src/CommonLibUnitTests/src/ut_cl_hash_table.cpp keeps beside the table.
 */
module HashRun {

  import opened Basics
  import opened List
  import opened HashKey
  import opened HashTable

  datatype Command = Insert(element: ListEntry) | Lookup(key: Key) | Remove(key: Key) | RemoveEntry(element: ListEntry)

  // ----- the same commands on a map -----

  function Get(m: map<Key, ListEntry>, k: Key): ListEntry? { if k in m then m[k] else null }

  predicate Holds(m: map<Key, ListEntry>, e: ListEntry) { e.key in m && m[e.key] == e }

  function Effect(m: map<Key, ListEntry>, c: Command): map<Key, ListEntry>
  {
    match c
    case Insert(e) => m[e.key := e]
    case Lookup(_) => m
    case Remove(k) => m - {k}
    case RemoveEntry(e) => m - {e.key}
  }

  function Answer(m: map<Key, ListEntry>, c: Command): ListEntry?
  {
    match c
    case Insert(e) => Get(m, e.key)
    case Lookup(k) => Get(m, k)
    case Remove(k) => Get(m, k)
    case RemoveEntry(_) => null
  }

  // What the caller owes: keys of the table's size, no entry linked twice, no unlinked entry removed.
  predicate Allowed(l: Layout, m: map<Key, ListEntry>, c: Command)
  {
    match c
    case Insert(e) => |e.key| == l.keySize && e !in l.heads && !Holds(m, e)
    case Lookup(k) => |k| == l.keySize
    case Remove(k) => |k| == l.keySize
    case RemoveEntry(e) => Holds(m, e)
  }

  function Final(m: map<Key, ListEntry>, cs: seq<Command>): map<Key, ListEntry>
    decreases |cs|
  {
    if cs == [] then m else Final(Effect(m, cs[0]), cs[1..])
  }

  function Answers(m: map<Key, ListEntry>, cs: seq<Command>): seq<ListEntry?>
    decreases |cs|
  {
    if cs == [] then [] else [Answer(m, cs[0])] + Answers(Effect(m, cs[0]), cs[1..])
  }

  predicate AllAllowed(l: Layout, m: map<Key, ListEntry>, cs: seq<Command>)
    decreases |cs|
  {
    cs != [] ==> Allowed(l, m, cs[0]) && AllAllowed(l, Effect(m, cs[0]), cs[1..])
  }

  function Inserts(cs: seq<Command>): set<ListEntry> { set c | c in cs && c.Insert? :: c.element }

  // ----- the table does the same -----

  // Only the list heads and the entries of the map are linked.
  ghost predicate OnlyLinked(l: Layout, v: View) { forall e :: e in v.owner ==> e in l.heads || Holds(v.contents, e) }

  // What a command links and unlinks.
  function Linked(linked: set<ListEntry>, c: Command, answer: ListEntry?): set<ListEntry>
  {
    var gone := if answer == null then {} else {answer};
    match c
    case Insert(e) => linked + {e} - gone
    case Lookup(_) => linked
    case Remove(_) => linked - gone
    case RemoveEntry(e) => linked - {e}
  }

  // From v to v' by command c.
  ghost predicate Step(v: View, c: Command, v': View, answer: ListEntry?)
  {
    && v'.contents == Effect(v.contents, c) && answer == Answer(v.contents, c)
    && v'.owner.Keys == Linked(v.owner.Keys, c, answer)
  }

  lemma StepKeepsOnlyLinked(l: Layout, v: View, c: Command, v': View, answer: ListEntry?, cs: seq<Command>)
    requires l.Table(v) && OnlyLinked(l, v) && Allowed(l, v.contents, c) && Step(v, c, v', answer) && c in cs
    ensures OnlyLinked(l, v') && v'.owner.Keys <= v.owner.Keys + Inserts(cs)
  {
    forall e | e in v'.owner
      ensures e in l.heads || Holds(v'.contents, e)
      ensures e in v.owner.Keys + Inserts(cs)
    {
      assert e in v'.owner.Keys;
      assert e in v.owner.Keys || (c.Insert? && e == c.element);
      if c.Remove? { assert l.KeyOk(v, c.key); }
    }
  }

  method RunOne(t: HashTable, c: Command) returns (answer: ListEntry?)
    requires t.Valid() && Allowed(t.layout, t.Contents(), c) && (c.Insert? ==> c.element !in t.view.owner)
    modifies t, t.view.owner.Keys, Inserts([c])
    ensures t.Valid() && Step(old(t.view), c, t.view, answer)
  {
    match c
    case Insert(e) =>
      assert c in [c];
      assert e in Inserts([c]);
      answer := t.Insert(e);
    case Lookup(k) =>
      answer := t.Lookup(k);
    case _ =>
      answer := RunRemoval(t, c);
  }

  method RunRemoval(t: HashTable, c: Command) returns (answer: ListEntry?)
    requires t.Valid() && Allowed(t.layout, t.Contents(), c) && (c.Remove? || c.RemoveEntry?)
    modifies t, t.view.owner.Keys
    ensures t.Valid() && Step(old(t.view), c, t.view, answer)
  {
    if c.Remove? {
      answer := t.Remove(c.key);
    } else {
      ghost var b, p := t.Find(c.element);
      t.RemoveEntry(c.element, b, p);
      answer := null;
    }
  }

  // Every sequence of commands gets from the table the answers it gets from the map.
  method Run(t: HashTable, cs: seq<Command>) returns (answers: seq<ListEntry?>)
    requires t.Valid() && OnlyLinked(t.layout, t.view) && AllAllowed(t.layout, t.Contents(), cs)
    modifies t, t.view.owner.Keys, Inserts(cs)
    ensures t.Valid() && OnlyLinked(t.layout, t.view)
    ensures answers == Answers(old(t.Contents()), cs) && t.Contents() == Final(old(t.Contents()), cs)
    decreases |cs|
  {
    if cs == [] { return []; }
    ghost var v := t.view;
    assert Inserts([cs[0]]) <= Inserts(cs) && Inserts(cs[1..]) <= Inserts(cs);
    var answer := RunOne(t, cs[0]);
    StepKeepsOnlyLinked(t.layout, v, cs[0], t.view, answer, cs);
    answers := Run(t, cs[1..]);
    answers := [answer] + answers;
  }

  // A run from a new table; the entry count is the size of the map.
  method RunFromNew(heads: seq<ListEntry>, keySize: nat, hashFunction: HashFunction, cs: seq<Command>)
    returns (answers: seq<ListEntry?>, size: nat)
    requires 0 < |heads| && Distinct(heads) && 1 <= keySize <= 8
    requires AllAllowed(Layout(heads, keySize, hashFunction), map[], cs)
    modifies heads, Inserts(cs)
    ensures answers == Answers(map[], cs) && size == |Final(map[], cs)| % DWORD_SIZE
  {
    var t := new HashTable(heads, keySize, hashFunction);
    answers := Run(t, cs);
    size := t.numberOfElements;
  }
}
