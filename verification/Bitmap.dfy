/**
  The bitmap of src/CommonLib/src/bitmap.c: bits packed into bytes, searched for runs of equal
  bits.  Clients reserve runs of bits and give them back.
 */
module Bitmap {

  import opened Basics
  import Base = Bits

  const MAX_DWORD: nat := 0xFFFF_FFFF

  // ----- bits of a byte -----

  function Mask(i: nat): (m: bv8)
    requires i < 8
    ensures m == if i == 0 then 1 else if i == 1 then 2 else if i == 2 then 4 else if i == 3 then 8
                 else if i == 4 then 16 else if i == 5 then 32 else if i == 6 then 64 else 128
  {
    (1 as bv8) << i
  }

  lemma MasksAreDisjoint(i: nat, j: nat)
    requires i < 8 && j < 8
    ensures Mask(i) & Mask(j) == if i == j then Mask(i) else 0
    ensures Mask(i) != 0
  {
  }

  lemma MaskedByte(b: bv8, m: bv8, n: bv8)
    requires m & n == 0
    ensures (b | m) & n == b & n && (b & !m) & n == b & n
  {
    assert (b | m) & n == (b & n) | (m & n);
    assert (b & !m) & n == b & n & !(m & n);
  }

  lemma MaskedByteSelf(b: bv8, m: bv8)
    ensures (b | m) & m == m && (b & !m) & m == 0
  {
  }

  // ----- bits of a buffer -----

  // _BitmapGetBit
  function GetBit(buffer: seq<bv8>, k: nat): bool
    requires k < 8 * |buffer|
  {
    Mask(k % 8) == buffer[k / 8] & Mask(k % 8)
  }

  // The bytes _BitmapChangeBit leaves.
  function WithBit(buffer: seq<bv8>, k: nat, value: bool): seq<bv8>
    requires k < 8 * |buffer|
  {
    var byte := buffer[k / 8];
    buffer[k / 8 := if value then byte | Mask(k % 8) else byte & !Mask(k % 8)]
  }

  // Exactly one bit changes.
  lemma OnlyThatBit(buffer: seq<bv8>, k: nat, value: bool, j: nat)
    requires k < 8 * |buffer| && j < 8 * |buffer|
    ensures GetBit(WithBit(buffer, k, value), j) == if j == k then value else GetBit(buffer, j)
  {
    MasksAreDisjoint(k % 8, j % 8);
    if j == k {
      MaskedByteSelf(buffer[k / 8], Mask(k % 8));
    } else if j / 8 == k / 8 {
      assert j % 8 != k % 8;
      MaskedByte(buffer[k / 8], Mask(k % 8), Mask(j % 8));
    }
  }

  // The first n bits.
  function BitsOf(buffer: seq<bv8>, n: nat): seq<bool>
    requires n <= 8 * |buffer|
  {
    seq(n, k requires 0 <= k < n => GetBit(buffer, k))
  }

  lemma BitsWithBit(buffer: seq<bv8>, n: nat, k: nat, value: bool)
    requires k < n <= 8 * |buffer|
    ensures BitsOf(WithBit(buffer, k, value), n) == BitsOf(buffer, n)[k := value]
  {
    forall j | 0 <= j < n ensures BitsOf(WithBit(buffer, k, value), n)[j] == BitsOf(buffer, n)[k := value][j] {
      OnlyThatBit(buffer, k, value, j);
    }
  }

  // A run of `count` bits equal to `value`, starting at bit i.
  ghost predicate IsRun(bits: seq<bool>, i: nat, count: nat, value: bool)
  {
    i + count <= |bits| && forall k :: i <= k < i + count ==> bits[k] == value
  }

  // The bits with `count` of them, from bit i on, set to `value`.
  function Changed(bits: seq<bool>, i: nat, count: nat, value: bool): seq<bool>
  {
    seq(|bits|, k requires 0 <= k < |bits| => if i <= k < i + count then value else bits[k])
  }

  // r is the lowest start of a run in the window, or MAX_DWORD because the window has none.
  ghost predicate IsLowestRun(bits: seq<bool>, from: nat, limit: nat, count: nat, value: bool, r: nat)
  {
    if r == MAX_DWORD then
      forall i :: from <= i && i + count <= limit ==> !IsRun(bits, i, count, value)
    else
      && from <= r && r + count <= limit && IsRun(bits, r, count, value)
      && forall i :: from <= i < r ==> !IsRun(bits, i, count, value)
  }

  // The ASSERTs of BitmapSetBitsValue, which subtracts DWORDs.
  predicate PassesAsserts(bitCount: nat, index: nat, count: nat)
  {
    index < bitCount && (bitCount - count) % DWORD_SIZE >= index
  }

  // They refuse a range that leaves the bitmap unless it is longer than the bitmap itself: the
  // subtraction then wraps around, and the range passes if it ends within 2^32 bits of the last.
  lemma AssertsAreExact(bitCount: nat, index: nat, count: nat)
    requires bitCount < DWORD_SIZE && index < DWORD_SIZE && count < DWORD_SIZE
    ensures PassesAsserts(bitCount, index, count) <==>
      index < bitCount && (index + count <= bitCount || (bitCount < count && index + count <= bitCount + DWORD_SIZE))
    ensures PassesAsserts(10, 0, 11)
  {
    if count <= bitCount {
      Base.RemainderIs(bitCount - count, DWORD_SIZE, 0, bitCount - count);
    } else {
      Base.RemainderIs(bitCount - count, DWORD_SIZE, -1, bitCount - count + DWORD_SIZE);
    }
  }

  // Overruns: an ASSERT was meant to fail and did not.
  datatype Outcome = Done | Aborted | Overruns

  class Bitmap {
    const bitCount: nat
    const buffer: array<bv8>

    ghost predicate Valid()
    {
      0 < bitCount <= MAX_DWORD && bitCount <= 8 * buffer.Length < bitCount + 8
    }

    ghost function Bits(): (bits: seq<bool>)
      requires Valid()
      reads buffer
      ensures |bits| == bitCount
    {
      BitsOf(buffer[..], bitCount)
    }

    // BitmapPreinit and BitmapInitEx
    constructor (numberOfElements: nat, value: bool)
      requires 0 < numberOfElements <= MAX_DWORD
      ensures Valid() && fresh(buffer) && bitCount == numberOfElements
      ensures IsRun(Bits(), 0, bitCount, value)
    {
      bitCount := numberOfElements;
      assert Base.Pow2(3) == 8;
      Base.AlignUpperRoundsUp(numberOfElements, 8);
      var size := Base.AlignAddressUpper(numberOfElements, 8) / 8;
      buffer := new bv8[size](_ => if value then 0xFF else 0);
      new;
      forall k | 0 <= k < bitCount ensures Bits()[k] == value {
        MasksAreDisjoint(k % 8, k % 8);
        assert buffer[..][k / 8] == if value then 0xFF else 0;
      }
    }

    // _BitmapChangeBit
    method ChangeBit(index: nat, value: bool)
      requires Valid() && index < bitCount
      modifies buffer
      ensures Bits() == old(Bits())[index := value]
    {
      var byteIndex, bitIndex := index / 8, index % 8;
      BitsWithBit(buffer[..], bitCount, index, value);
      if value {
        buffer[byteIndex] := buffer[byteIndex] | Mask(bitIndex);
      } else {
        buffer[byteIndex] := buffer[byteIndex] & !Mask(bitIndex);
      }
      assert buffer[..] == WithBit(old(buffer[..]), index, value);
    }

    // BitmapSetBitsValue.  What the source writes behind the end of the bitmap is not modelled.
    method SetBitsValue(index: nat, count: nat, value: bool) returns (outcome: Outcome)
      requires Valid() && index < DWORD_SIZE && count < DWORD_SIZE
      modifies buffer
      ensures outcome == Done <==> index < bitCount && index + count <= bitCount
      ensures outcome == Overruns <==> index < bitCount < count && index + count <= bitCount + DWORD_SIZE
      ensures Bits() == if outcome == Done then Changed(old(Bits()), index, count, value) else old(Bits())
    {
      AssertsAreExact(bitCount, index, count);
      if !PassesAsserts(bitCount, index, count) {
        return Aborted;
      }
      if bitCount < index + count {
        return Overruns;
      }
      ChangeBits(index, count, value);
      outcome := Done;
    }

    // _BitmapChangeBits
    method ChangeBits(index: nat, count: nat, value: bool)
      requires Valid() && index + count <= bitCount
      modifies buffer
      ensures Bits() == Changed(old(Bits()), index, count, value)
    {
      var i := 0;
      while i < count
        invariant 0 <= i <= count
        invariant Bits() == Changed(old(Bits()), index, i, value)
      {
        ChangeBit(index + i, value);
        i := i + 1;
      }
    }

    // BitmapGetBitValue
    method GetBitValue(index: nat) returns (value: bool)
      requires Valid() && index < bitCount
      ensures value == Bits()[index]
    {
      value := GetBit(buffer[..], index);
    }

    // The inner loop of _BitmapScanInternal
    method RunAt(i: nat, count: nat, value: bool) returns (found: bool)
      requires Valid() && i + count <= bitCount
      ensures found <==> IsRun(Bits(), i, count, value)
    {
      found := true;
      var j := 0;
      while j < count
        invariant 0 <= j <= count && found && IsRun(Bits(), i, j, value)
      {
        var bit := GetBitValue(i + j);
        if value != bit {
          return false;
        }
        j := j + 1;
      }
    }

    // BitmapScanFromTo, _BitmapScanInternal
    method ScanFromTo(index: nat, firstInvalidBitIndex: nat, consecutiveBits: nat, value: bool) returns (r: nat)
      requires Valid()
      ensures if consecutiveBits == 0 || index > firstInvalidBitIndex || firstInvalidBitIndex > bitCount
        then r == MAX_DWORD
              else IsLowestRun(Bits(), index, firstInvalidBitIndex, consecutiveBits, value, r)
    {
      if consecutiveBits == 0 || index > firstInvalidBitIndex || firstInvalidBitIndex > bitCount {
        return MAX_DWORD;
      }
      if firstInvalidBitIndex - index < consecutiveBits {
        return MAX_DWORD;
      }
      var lastIndex := firstInvalidBitIndex - consecutiveBits;
      var i := index;
      while i <= lastIndex
        invariant index <= i <= lastIndex + 1
        invariant forall k :: index <= k < i ==> !IsRun(Bits(), k, consecutiveBits, value)
      {
        var found := RunAt(i, consecutiveBits, value);
        if found {
          return i;
        }
        i := i + 1;
      }
      return MAX_DWORD;
    }

    // BitmapScanFromToAndFlip
    method ScanFromToAndFlip(index: nat, firstInvalidBitIndex: nat, consecutiveBits: nat, value: bool) returns (r: nat)
      requires Valid()
      modifies buffer
      ensures if consecutiveBits == 0 || index > firstInvalidBitIndex || firstInvalidBitIndex > bitCount
        then r == MAX_DWORD
              else IsLowestRun(old(Bits()), index, firstInvalidBitIndex, consecutiveBits, value, r)
      ensures if r == MAX_DWORD then Bits() == old(Bits())
              else r + consecutiveBits <= bitCount && Bits() == Changed(old(Bits()), r, consecutiveBits, !value)
    {
      r := ScanFromTo(index, firstInvalidBitIndex, consecutiveBits, value);
      if r != MAX_DWORD {
        ChangeBits(r, consecutiveBits, !value);
      }
    }
  }

  // ----- clients -----

  // A reservation a client holds.
  datatype Run = Run(start: nat, count: nat)
  {
    predicate Has(k: int) { start <= k < start + count }
  }

  // The runs held are pairwise disjoint, and exactly their bits are set.
  ghost predicate Tracks(bits: seq<bool>, runs: seq<Run>)
  {
    && (forall i :: 0 <= i < |runs| ==> IsRun(bits, runs[i].start, runs[i].count, true))
    && (forall i, j, k :: 0 <= i < j < |runs| && runs[i].Has(k) ==> !runs[j].Has(k))
    && (forall k :: 0 <= k < |bits| && bits[k] ==> exists i :: 0 <= i < |runs| && runs[i].Has(k))
  }

  lemma ReserveTracks(bits: seq<bool>, runs: seq<Run>, start: nat, count: nat)
    requires Tracks(bits, runs) && IsRun(bits, start, count, false)
    ensures Tracks(Changed(bits, start, count, true), runs + [Run(start, count)])
  {
    var bits', runs' := Changed(bits, start, count, true), runs + [Run(start, count)];
    forall i, k | 0 <= i < |runs| && runs[i].Has(k) ensures bits[k] && !runs'[|runs|].Has(k) {
      assert IsRun(bits, runs[i].start, runs[i].count, true);
    }
    forall k | 0 <= k < |bits'| && bits'[k] ensures exists i :: 0 <= i < |runs'| && runs'[i].Has(k) {
      if start <= k < start + count {
        assert runs'[|runs|].Has(k);
      } else {
        var i :| 0 <= i < |runs| && runs[i].Has(k);
        assert runs'[i].Has(k);
      }
    }
  }

  lemma ReleaseTracks(bits: seq<bool>, runs: seq<Run>, i: nat)
    requires Tracks(bits, runs) && i < |runs|
    ensures Tracks(Changed(bits, runs[i].start, runs[i].count, false), runs[..i] + runs[i + 1..])
  {
    var bits', runs' := Changed(bits, runs[i].start, runs[i].count, false), runs[..i] + runs[i + 1..];
    forall j | 0 <= j < |runs'| ensures IsRun(bits', runs'[j].start, runs'[j].count, true) {
      var m := if j < i then j else j + 1;
      assert runs'[j] == runs[m] && IsRun(bits, runs[m].start, runs[m].count, true);
      forall k | runs[m].Has(k) ensures bits'[k] { assert !runs[i].Has(k); }
    }
    forall k | 0 <= k < |bits'| && bits'[k] ensures exists j :: 0 <= j < |runs'| && runs'[j].Has(k) {
      var m :| 0 <= m < |runs| && runs[m].Has(k);
      assert !runs[i].Has(k) && runs'[if m < i then m else m - 1].Has(k);
    }
  }

  // A client asks for `count` bits in a window, or gives back the i-th run it holds.
  datatype Request = Reserve(from: nat, limit: nat, count: nat) | Release(i: nat)

  // The bits, and the runs that are held.
  datatype Pool = Pool(bits: seq<bool>, runs: seq<Run>)

  // The lowest run of clear bits in the window.
  ghost function Lowest(bits: seq<bool>, from: nat, limit: nat, count: nat): (r: nat)
    requires 0 < count && from <= limit <= |bits| <= MAX_DWORD
    ensures IsLowestRun(bits, from, limit, count, false, r)
    decreases limit - from
  {
    if from + count > limit then MAX_DWORD
    else if IsRun(bits, from, count, false) then from
    else Lowest(bits, from + 1, limit, count)
  }

  // What each request does: a run is granted exactly when the window has one, and it is the lowest.
  ghost function ServeOne(pool: Pool, q: Request): (r: Pool)
    requires |pool.bits| <= MAX_DWORD
    ensures |r.bits| == |pool.bits|
  {
    match q
    case Reserve(from, limit, count) =>
      if count == 0 || from > limit || limit > |pool.bits| then pool
      else
        var start := Lowest(pool.bits, from, limit, count);
        if start == MAX_DWORD then pool
        else Pool(Changed(pool.bits, start, count, true), pool.runs + [Run(start, count)])
    case Release(i) =>
      if i >= |pool.runs| then pool
      else Pool(Changed(pool.bits, pool.runs[i].start, pool.runs[i].count, false), pool.runs[..i] + pool.runs[i + 1..])
  }

  ghost function ServeAll(pool: Pool, requests: seq<Request>): (r: Pool)
    requires |pool.bits| <= MAX_DWORD
    ensures |r.bits| == |pool.bits|
    decreases |requests|
  {
    if requests == [] then pool else ServeAll(ServeOne(pool, requests[0]), requests[1..])
  }

  // Whatever the requests, the runs held stay disjoint and account for every set bit.
  lemma {:induction false} RunsStayDisjoint(pool: Pool, requests: seq<Request>)
    requires |pool.bits| <= MAX_DWORD && Tracks(pool.bits, pool.runs)
    ensures var r := ServeAll(pool, requests); Tracks(r.bits, r.runs)
    decreases |requests|
  {
    if requests != [] {
      match requests[0] {
        case Reserve(from, limit, count) =>
          if 0 < count && from <= limit <= |pool.bits| && Lowest(pool.bits, from, limit, count) != MAX_DWORD {
            ReserveTracks(pool.bits, pool.runs, Lowest(pool.bits, from, limit, count), count);
          }
        case Release(i) =>
          if i < |pool.runs| { ReleaseTracks(pool.bits, pool.runs, i); }
      }
      RunsStayDisjoint(ServeOne(pool, requests[0]), requests[1..]);
    }
  }

  // The client's calls do exactly that to the bitmap.
  method Serve(bitmap: Bitmap, requests: seq<Request>) returns (runs: seq<Run>)
    requires bitmap.Valid() && IsRun(bitmap.Bits(), 0, bitmap.bitCount, false)
    modifies bitmap.buffer
    ensures Pool(bitmap.Bits(), runs) == ServeAll(Pool(old(bitmap.Bits()), []), requests)
    ensures Tracks(bitmap.Bits(), runs)
  {
    ghost var last := ServeAll(Pool(bitmap.Bits(), []), requests);
    RunsStayDisjoint(Pool(bitmap.Bits(), []), requests);
    runs := [];
    var n := 0;
    while n < |requests|
      invariant 0 <= n <= |requests|
      invariant Tracks(bitmap.Bits(), runs) && ServeAll(Pool(bitmap.Bits(), runs), requests[n..]) == last
    {
      assert requests[n..][1..] == requests[n + 1..];
      RunsStayDisjoint(Pool(bitmap.Bits(), runs), [requests[n]]);
      runs := ServeRequest(bitmap, requests[n], runs);
      n := n + 1;
    }
  }

  method ServeRequest(bitmap: Bitmap, q: Request, runs: seq<Run>) returns (runs': seq<Run>)
    requires bitmap.Valid() && Tracks(bitmap.Bits(), runs)
    modifies bitmap.buffer
    ensures Pool(bitmap.Bits(), runs') == ServeOne(Pool(old(bitmap.Bits()), runs), q)
  {
    ghost var bits := bitmap.Bits();
    runs' := runs;
    match q {
      case Reserve(from, limit, count) =>
        var start := bitmap.ScanFromToAndFlip(from, limit, count, false);
        if start != MAX_DWORD {
          runs' := runs + [Run(start, count)];
        }
        if 0 < count && from <= limit <= |bits| {
          LowestIsUnique(bits, from, limit, count, start, Lowest(bits, from, limit, count));
        }
      case Release(i) =>
        if i < |runs| {
          assert IsRun(bits, runs[i].start, runs[i].count, true);
          bitmap.ChangeBits(runs[i].start, runs[i].count, false);
          runs' := runs[..i] + runs[i + 1..];
        }
    }
  }

  lemma LowestIsUnique(bits: seq<bool>, from: nat, limit: nat, count: nat, r: nat, r': nat)
    requires limit <= |bits| && IsLowestRun(bits, from, limit, count, false, r)
    requires IsLowestRun(bits, from, limit, count, false, r')
    ensures r == r'
  {
  }
}
