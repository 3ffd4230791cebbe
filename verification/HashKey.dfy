/**
  Hash-table keys: the byte comparison cl_rmemcmp and the copy cl_memcpy of
  src/CommonLib/src/cl_memory.c, and the two hash functions of src/CommonLib/src/hash_table.c.
 */
module HashKey {

  import opened Basics
  import opened Bits

  type Key = seq<Byte>

  // The little-endian number in the bytes.
  function Number(key: Key): nat
  {
    if key == [] then 0 else key[0] + 0x100 * Number(key[1..])
  }

  // The first difference from the last byte down.
  function Compare(a: Key, b: Key): int
    requires |a| == |b|
  {
    if a == [] then 0
    else if Compare(a[1..], b[1..]) != 0 then Compare(a[1..], b[1..])
    else a[0] as int - b[0] as int
  }

  method Rmemcmp(p1: Key, p2: Key) returns (r: int)
    requires |p1| == |p2|
    ensures r == Compare(p1, p2)
  {
    var i := |p1| - 1;
    while i >= 0
      invariant -1 <= i < |p1| && Compare(p1[i + 1..], p2[i + 1..]) == 0
    {
      CompareStep(p1, p2, i);
      if p1[i] != p2[i] {
        ComparePrefix(p1, p2, i);
        return p1[i] as int - p2[i] as int;
      }
      i := i - 1;
    }
    assert p1[0..] == p1 && p2[0..] == p2;
    return 0;
  }

  lemma CompareStep(a: Key, b: Key, i: nat)
    requires |a| == |b| && i < |a| && Compare(a[i + 1..], b[i + 1..]) == 0
    ensures Compare(a[i..], b[i..]) == a[i] as int - b[i] as int
  {
    assert a[i..][1..] == a[i + 1..] && b[i..][1..] == b[i + 1..];
  }

  // A difference in the tail decides.
  lemma {:induction false} ComparePrefix(a: Key, b: Key, i: nat)
    requires |a| == |b| && i <= |a| && Compare(a[i..], b[i..]) != 0
    ensures Compare(a, b) == Compare(a[i..], b[i..])
  {
    if i > 0 {
      assert a[1..][i - 1..] == a[i..] && b[1..][i - 1..] == b[i..];
      ComparePrefix(a[1..], b[1..], i - 1);
    } else {
      assert a[0..] == a && b[0..] == b;
    }
  }

  // The comparison orders keys of one size as the numbers they hold, and tells different keys apart.
  lemma {:induction false} CompareOrdersNumbers(a: Key, b: Key)
    requires |a| == |b|
    ensures Compare(a, b) < 0 <==> Number(a) < Number(b)
    ensures Compare(a, b) > 0 <==> Number(a) > Number(b)
    ensures Number(a) == Number(b) <==> a == b
  {
    if a != [] {
      CompareOrdersNumbers(a[1..], b[1..]);
      assert a == [a[0]] + a[1..] && b == [b[0]] + b[1..];
    }
  }

  // cl_memcpy: 4, 2 and 1 bytes for the unaligned part, then 8 bytes at a time.
  method Memcpy(destination: array<Byte>, source: Key, count: nat)
    requires count <= |source| && count <= destination.Length
    modifies destination
    ensures Copied(destination, source, count, old(destination[..]))
  {
    var unalignedCount := count % 8;
    var at := 0;
    if unalignedCount / 4 % 2 == 1 { at := Move(destination, source, at, 4, old(destination[..])); }
    if unalignedCount / 2 % 2 == 1 { at := Move(destination, source, at, 2, old(destination[..])); }
    if unalignedCount % 2 == 1 { at := Move(destination, source, at, 1, old(destination[..])); }
    while at < count
      invariant at <= count && (count - at) % 8 == 0 && Copied(destination, source, at, old(destination[..]))
    {
      at := Move(destination, source, at, 8, old(destination[..]));
    }
  }

  // The first n bytes come from the source, the others are as before.
  ghost predicate Copied(destination: array<Byte>, source: Key, n: nat, before: seq<Byte>)
    requires n <= |source|
    reads destination
  {
    && n <= destination.Length == |before|
    && forall i :: 0 <= i < destination.Length ==> destination[i] == if i < n then source[i] else before[i]
  }

  // One store of `size` bytes.
  method Move(destination: array<Byte>, source: Key, at: nat, size: nat, ghost before: seq<Byte>) returns (next: nat)
    requires at + size <= |source| && at + size <= destination.Length && Copied(destination, source, at, before)
    modifies destination
    ensures next == at + size && Copied(destination, source, next, before)
  {
    next := at;
    while next < at + size
      invariant at <= next <= at + size && Copied(destination, source, next, before)
    {
      destination[next] := source[next];
      next := next + 1;
    }
  }

  const HASH_UNIVERSAL_A: nat := 1701
  const HASH_UNIVERSAL_B: nat := 59
  const HASH_UNIVERSAL_P: nat := 10007

  // The key read into a zeroed 64-bit variable.
  method LoadKey(key: Key) returns (value: nat)
    requires 1 <= |key| <= 8
    ensures value == Number(key) < QWORD_SIZE
  {
    var buffer := new Byte[8](i => 0);
    Memcpy(buffer, key, |key|);
    ghost var pad := buffer[..][|key|..];
    assert buffer[..] == key + pad;
    NumberOfPadded(key, pad);
    NumberBound(buffer[..]);
    assert Pow256(8) == QWORD_SIZE;
    value := Number(buffer[..]);
  }

  function Pow256(n: nat): nat { if n == 0 then 1 else 0x100 * Pow256(n - 1) }

  lemma {:induction false} NumberOfPadded(key: Key, pad: Key)
    requires forall i :: 0 <= i < |pad| ==> pad[i] == 0
    ensures Number(key + pad) == Number(key)
  {
    if key != [] {
      NumberOfPadded(key[1..], pad);
      assert (key + pad)[1..] == key[1..] + pad;
    } else if pad != [] {
      NumberOfPadded(key, pad[1..]);
      assert key + pad == pad && key + pad[1..] == pad[1..];
    }
  }

  lemma {:induction false} NumberBound(key: Key)
    ensures Number(key) < Pow256(|key|)
  {
    if key != [] { NumberBound(key[1..]); }
  }

  function GenericIncremental(key: Key, maxKeys: nat): (index: nat)
    requires 0 < maxKeys
    ensures index < maxKeys
  {
    Number(key) % maxKeys
  }

  function Universal(key: Key, maxKeys: nat): (index: nat)
    requires 0 < maxKeys
    ensures index < maxKeys
  {
    (HASH_UNIVERSAL_A * (Number(key) % HASH_UNIVERSAL_P) + HASH_UNIVERSAL_B) % HASH_UNIVERSAL_P % maxKeys
  }

  // Reducing the key's number first, so that no product wraps, changes nothing.
  lemma UniversalIsAffine(key: Key, maxKeys: nat)
    requires 0 < maxKeys
    ensures Universal(key, maxKeys) == (1701 * Number(key) + 59) % 10007 % maxKeys
  {
    var n := Number(key);
    var q, r := n / 10007, n % 10007;
    var m := 1701 * r + 59;
    RemainderIs(1701 * n + 59, 10007, 1701 * q + m / 10007, m % 10007);
  }

  datatype HashFunction = Incremental | UniversalHash

  function Hash(f: HashFunction, key: Key, maxKeys: nat): (index: nat)
    requires 0 < maxKeys
    ensures index < maxKeys
  {
    match f
    case Incremental => GenericIncremental(key, maxKeys)
    case UniversalHash => Universal(key, maxKeys)
  }

  method HashFuncGenericIncremental(key: Key, maxKeys: nat) returns (index: nat)
    requires 1 <= |key| <= 8 && 0 < maxKeys
    ensures index == GenericIncremental(key, maxKeys)
  {
    var keyValue := LoadKey(key);
    index := keyValue % maxKeys;
  }

  // The overflow ASSERT never fires, so no product wraps around.
  method HashFuncUniversal(key: Key, maxKeys: nat) returns (index: nat)
    requires 1 <= |key| <= 8 && 0 < maxKeys
    ensures index == Universal(key, maxKeys)
  {
    var keyValue := LoadKey(key);
    var result := keyValue % HASH_UNIVERSAL_P;
    assert result < (QWORD_SIZE - 1) / HASH_UNIVERSAL_A - HASH_UNIVERSAL_B;
    index := (HASH_UNIVERSAL_A * result + HASH_UNIVERSAL_B) % QWORD_SIZE % HASH_UNIVERSAL_P % maxKeys;
  }
}
