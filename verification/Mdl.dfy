/**
  Memory descriptor lists (src/HAL9000/src/mdl.c): the physical ranges behind a buffer, one pair for
  each run of pages that lie next to each other in physical memory.
 */
module Mdl {

  import opened Basics
  import opened Bits

  const PAGE_SIZE: nat := 0x1000

  // MDL_TRANSLATION_PAIR: a QWORD and a DWORD
  datatype Pair = Pair(address: nat, numberOfBytes: nat)

  predicate Fits(p: Pair) { p.address < QWORD_SIZE && p.numberOfBytes < DWORD_SIZE }

  // NotMapped: NULL is returned.  Halted: an ASSERT failed.
  datatype Allocation = NotMapped | Halted | Allocated(pairs: seq<Pair>)

  // The physical address of each page, counted from the first page of the buffer; 0 if not mapped.
  type Pages = nat -> nat

  ghost predicate AreFrames(frame: Pages)
  {
    forall i: nat :: frame(i) < QWORD_SIZE && frame(i) % PAGE_SIZE == 0
  }

  // The physical address of byte x, counted from the start of the first page.
  function Physical(frame: Pages, x: nat): nat { frame(x / PAGE_SIZE) + x % PAGE_SIZE }

  // The physical addresses of the bytes of a buffer.
  function BufferBytes(frame: Pages, offset: nat, length: nat): seq<nat>
  {
    seq<nat>(length, k requires 0 <= k => Physical(frame, offset + k))
  }

  // ----- ranges -----

  // The addresses of `count` bytes from `address` on.
  function Span(address: nat, count: nat): seq<nat> { seq(count, k => address + k) }

  function BytesOfPairs(pairs: seq<Pair>): seq<nat>
  {
    if pairs == [] then [] else Span(pairs[0].address, pairs[0].numberOfBytes) + BytesOfPairs(pairs[1..])
  }

  function Total(pairs: seq<Pair>): nat { if pairs == [] then 0 else pairs[0].numberOfBytes + Total(pairs[1..]) }

  lemma {:induction false} TotalIsLength(pairs: seq<Pair>)
    ensures |BytesOfPairs(pairs)| == Total(pairs)
  {
    if pairs != [] { TotalIsLength(pairs[1..]); }
  }

  // Every pair has some bytes of a request of `remaining` bytes.
  predicate AllUsed(pairs: seq<Pair>, remaining: nat)
    decreases |pairs|
  {
    pairs != [] ==>
      && 0 < pairs[0].numberOfBytes && 0 < remaining
      && AllUsed(pairs[1..], remaining - Min(pairs[0].numberOfBytes, remaining))
  }

  // ----- the pairs of a buffer -----

  // alignedSize in pages, from the first byte in the first page and the length; a DWORD in the source.
  function AlignedSize(offset: nat, length: nat): nat
    requires offset < PAGE_SIZE && length < DWORD_SIZE
  {
    AlignAddressUpper((length + offset) % DWORD_SIZE, PAGE_SIZE) % DWORD_SIZE
  }

  // Pages that are looked at; the first one always is.
  function PageCount(offset: nat, length: nat): nat
    requires offset < PAGE_SIZE && length < DWORD_SIZE
  {
    if AlignedSize(offset, length) == 0 then 1 else AlignedSize(offset, length) / PAGE_SIZE
  }

  // Page i is added to the pair `last` if it continues it, or else starts a pair.
  function Joined(frame: Pages, last: Pair, i: nat, n: nat): (pairs: seq<Pair>)
    ensures pairs != []
    decreases n - i
  {
    if n <= i then [last]
    else if last.address + last.numberOfBytes == frame(i) then
      Joined(frame, Pair(last.address, last.numberOfBytes + PAGE_SIZE), i + 1, n)
    else [last] + Joined(frame, Pair(frame(i), PAGE_SIZE), i + 1, n)
  }

  function PairsOf(frame: Pages, offset: nat, length: nat): seq<Pair>
    requires offset < PAGE_SIZE && length < DWORD_SIZE
  {
    Joined(frame, Pair(frame(0) + offset, PAGE_SIZE - offset), 1, PageCount(offset, length))
  }

  predicate AllMapped(frame: Pages, n: nat) { forall i :: 1 <= i < n ==> frame(i) != 0 }

  // The bytes of pages i to n - 1
  function PageBytes(frame: Pages, i: nat, n: nat): seq<nat>
    decreases n - i
  {
    if n <= i then [] else Span(frame(i), PAGE_SIZE) + PageBytes(frame, i + 1, n)
  }

  lemma {:induction false} BytesOfJoined(frame: Pages, last: Pair, i: nat, n: nat)
    ensures BytesOfPairs(Joined(frame, last, i, n)) == Span(last.address, last.numberOfBytes) + PageBytes(frame, i, n)
    decreases n - i
  {
    var s := Span(last.address, last.numberOfBytes);
    if n <= i {
      assert [last][1..] == [] && BytesOfPairs([last]) == s + [];
    } else if last.address + last.numberOfBytes == frame(i) {
      var more := Pair(last.address, last.numberOfBytes + PAGE_SIZE);
      BytesOfJoined(frame, more, i + 1, n);
      assert Span(more.address, more.numberOfBytes) == s + Span(frame(i), PAGE_SIZE);
      Regroup(s, Span(frame(i), PAGE_SIZE), PageBytes(frame, i + 1, n));
    } else {
      var rest := Joined(frame, Pair(frame(i), PAGE_SIZE), i + 1, n);
      BytesOfJoined(frame, Pair(frame(i), PAGE_SIZE), i + 1, n);
      assert ([last] + rest)[1..] == rest;
    }
  }

  lemma Regroup(a: seq<nat>, b: seq<nat>, c: seq<nat>)
    ensures a + b + c == a + (b + c)
  {
  }

  lemma {:induction false} PageByteAt(frame: Pages, i: nat, n: nat, x: nat)
    requires i * PAGE_SIZE <= x < n * PAGE_SIZE
    ensures |PageBytes(frame, i, n)| == (n - i) * PAGE_SIZE
    ensures PageBytes(frame, i, n)[x - i * PAGE_SIZE] == Physical(frame, x)
    decreases n - i
  {
    if x < (i + 1) * PAGE_SIZE {
      assert x / PAGE_SIZE == i && x % PAGE_SIZE == x - i * PAGE_SIZE;
      PageBytesLength(frame, i + 1, n);
    } else {
      PageByteAt(frame, i + 1, n, x);
    }
  }

  lemma {:induction false} PageBytesLength(frame: Pages, i: nat, n: nat)
    requires i <= n
    ensures |PageBytes(frame, i, n)| == (n - i) * PAGE_SIZE
    decreases n - i
  {
    if i < n { PageBytesLength(frame, i + 1, n); }
  }

  // The pairs stand for the bytes of the buffer and the rest of its last page, in order.
  lemma PairsDescribe(frame: Pages, offset: nat, length: nat)
    requires offset < PAGE_SIZE && length < DWORD_SIZE
    ensures var pairs, n := PairsOf(frame, offset, length), PageCount(offset, length);
      && 0 < n && |BytesOfPairs(pairs)| == Total(pairs) == n * PAGE_SIZE - offset
      && forall k :: 0 <= k < Total(pairs) ==> BytesOfPairs(pairs)[k] == Physical(frame, offset + k)
  {
    var pairs, n := PairsOf(frame, offset, length), PageCount(offset, length);
    var first := Span(frame(0) + offset, PAGE_SIZE - offset);
    PageCountIs(offset, length);
    BytesOfJoined(frame, Pair(frame(0) + offset, PAGE_SIZE - offset), 1, n);
    PageBytesLength(frame, 1, n);
    TotalIsLength(pairs);
    forall k | 0 <= k < Total(pairs)
      ensures BytesOfPairs(pairs)[k] == Physical(frame, offset + k)
    {
      if k < |first| {
        assert (offset + k) / PAGE_SIZE == 0;
      } else {
        PageByteAt(frame, 1, n, offset + k);
      }
    }
  }

  // The pages hold the buffer and no page is idle, exactly when the size rounded up fits in a DWORD.
  lemma PageCountIs(offset: nat, length: nat)
    requires offset < PAGE_SIZE && length < DWORD_SIZE
    ensures var n := PageCount(offset, length);
      && 0 < n && AlignedSize(offset, length) == (if AlignedSize(offset, length) == 0 then 0 else n * PAGE_SIZE)
      && (offset + length <= n * PAGE_SIZE <==> offset + length <= DWORD_SIZE - PAGE_SIZE)
      && (0 < length && offset + length <= n * PAGE_SIZE ==> (n - 1) * PAGE_SIZE < offset + length)
  {
    var sum := (length + offset) % DWORD_SIZE;
    PageSizeIsPower();
    AlignUpperRoundsUp(sum, PAGE_SIZE);
    var up := AlignAddressUpper(sum, PAGE_SIZE);
    if length + offset < DWORD_SIZE {
      RemainderIs(length + offset, DWORD_SIZE, 0, length + offset);
    } else {
      RemainderIs(length + offset, DWORD_SIZE, 1, length + offset - DWORD_SIZE);
    }
    if up < DWORD_SIZE {
      RemainderIs(up, DWORD_SIZE, 0, up);
    } else {
      assert up == DWORD_SIZE;
      RemainderIs(up, DWORD_SIZE, 1, 0);
    }
  }

  lemma PageSizeIsPower()
    ensures IsPowerOf2(PAGE_SIZE)
  {
    assert Pow2(6) == 64;
    assert Pow2(12) == PAGE_SIZE;
  }

  // Every pair holds a byte of the buffer.
  lemma {:induction false} JoinedAreUsed(frame: Pages, last: Pair, i: nat, n: nat, remaining: nat)
    requires 0 < last.numberOfBytes && 0 < remaining && i <= n
    requires last.numberOfBytes + (n - i) * PAGE_SIZE < remaining + PAGE_SIZE
    ensures AllUsed(Joined(frame, last, i, n), remaining)
    decreases n - i
  {
    if n <= i {
      assert [last][1..] == [];
    } else if last.address + last.numberOfBytes == frame(i) {
      JoinedAreUsed(frame, Pair(last.address, last.numberOfBytes + PAGE_SIZE), i + 1, n, remaining);
    } else {
      var rest := Joined(frame, Pair(frame(i), PAGE_SIZE), i + 1, n);
      JoinedAreUsed(frame, Pair(frame(i), PAGE_SIZE), i + 1, n, remaining - last.numberOfBytes);
      assert ([last] + rest)[1..] == rest;
    }
  }

  // No two neighbouring pairs could be one.
  lemma {:induction false} JoinedAreMaximal(frame: Pages, last: Pair, i: nat, n: nat, j: nat)
    requires j + 1 < |Joined(frame, last, i, n)|
    ensures var pairs := Joined(frame, last, i, n);
      pairs[0].address == last.address && pairs[j].address + pairs[j].numberOfBytes != pairs[j + 1].address
    decreases n - i
  {
    if n <= i {
    } else if last.address + last.numberOfBytes == frame(i) {
      JoinedAreMaximal(frame, Pair(last.address, last.numberOfBytes + PAGE_SIZE), i + 1, n, j);
    } else {
      StartOfJoined(frame, Pair(frame(i), PAGE_SIZE), i + 1, n);
      if 0 < j { JoinedAreMaximal(frame, Pair(frame(i), PAGE_SIZE), i + 1, n, j - 1); }
    }
  }

  lemma {:induction false} StartOfJoined(frame: Pages, last: Pair, i: nat, n: nat)
    ensures Joined(frame, last, i, n)[0].address == last.address
    decreases n - i
  {
    if i < n && last.address + last.numberOfBytes == frame(i) {
      StartOfJoined(frame, Pair(last.address, last.numberOfBytes + PAGE_SIZE), i + 1, n);
    }
  }

  // Addresses and sizes fit in their fields.
  lemma {:induction false} JoinedFit(frame: Pages, last: Pair, i: nat, n: nat, j: nat)
    requires AreFrames(frame) && i <= n && j < |Joined(frame, last, i, n)|
    requires last.address < QWORD_SIZE && last.numberOfBytes + (n - i) * PAGE_SIZE < DWORD_SIZE
    ensures Fits(Joined(frame, last, i, n)[j])
    decreases n - i
  {
    if n <= i {
    } else if last.address + last.numberOfBytes == frame(i) {
      JoinedFit(frame, Pair(last.address, last.numberOfBytes + PAGE_SIZE), i + 1, n, j);
    } else if 0 < j {
      JoinedFit(frame, Pair(frame(i), PAGE_SIZE), i + 1, n, j - 1);
    }
  }

  lemma PairsFit(frame: Pages, offset: nat, length: nat)
    requires AreFrames(frame) && offset < PAGE_SIZE && length < DWORD_SIZE
    ensures forall j :: 0 <= j < |PairsOf(frame, offset, length)| ==> Fits(PairsOf(frame, offset, length)[j])
  {
    var n := PageCount(offset, length);
    PageCountIs(offset, length);
    FrameIsBelow(frame(0));
    forall j | 0 <= j < |PairsOf(frame, offset, length)|
      ensures Fits(PairsOf(frame, offset, length)[j])
    {
      JoinedFit(frame, Pair(frame(0) + offset, PAGE_SIZE - offset), 1, n, j);
    }
  }

  // What a descriptor list promises for every buffer, exactly when its size rounded up to pages fits
  // in a DWORD: the first bytes of the pairs are those of the buffer, and no pair is without one.
  lemma BufferIsCovered(frame: Pages, offset: nat, length: nat)
    requires offset < PAGE_SIZE && 0 < length < DWORD_SIZE
    ensures var pairs := PairsOf(frame, offset, length);
      && |BytesOfPairs(pairs)| == Total(pairs)
      && (length <= Total(pairs) <==> offset + length <= DWORD_SIZE - PAGE_SIZE)
      && (length <= Total(pairs) ==>
            && AllUsed(pairs, length)
            && BytesOfPairs(pairs)[..length] == BufferBytes(frame, offset, length))
  {
    var n := PageCount(offset, length);
    PageCountIs(offset, length);
    PairsDescribe(frame, offset, length);
    if length <= Total(PairsOf(frame, offset, length)) {
      JoinedAreUsed(frame, Pair(frame(0) + offset, PAGE_SIZE - offset), 1, n, length);
    }
  }

  // ----- MdlAllocateEx -----

  // What both loops of the source do with page i.
  function NextPair(frame: Pages, last: Pair, i: nat): Pair
  {
    if Continues(frame, last, i) then Pair(last.address, (last.numberOfBytes + PAGE_SIZE) % DWORD_SIZE)
    else Pair(frame(i), PAGE_SIZE)
  }

  // A comparison of pointers
  predicate Continues(frame: Pages, last: Pair, i: nat)
  {
    (last.address + last.numberOfBytes) % QWORD_SIZE == frame(i)
  }

  // The pair so far ends on a page boundary, and nothing wraps.
  ghost predicate Sound(frame: Pages, last: Pair, i: nat, n: nat)
  {
    && 0 < last.numberOfBytes <= i * PAGE_SIZE
    && (last.address + last.numberOfBytes) % PAGE_SIZE == 0
    && last.address < QWORD_SIZE && last.address + last.numberOfBytes <= QWORD_SIZE
    && n * PAGE_SIZE < DWORD_SIZE
  }

  lemma NextIsSound(frame: Pages, last: Pair, i: nat, n: nat)
    requires AreFrames(frame) && Sound(frame, last, i, n) && 0 < i < n && frame(i) != 0
    ensures Sound(frame, NextPair(frame, last, i), i + 1, n)
    ensures Continues(frame, last, i) <==> last.address + last.numberOfBytes == frame(i)
    ensures Joined(frame, last, i, n) ==
      (if Continues(frame, last, i) then [] else [last]) + Joined(frame, NextPair(frame, last, i), i + 1, n)
  {
    var end := last.address + last.numberOfBytes;
    if end < QWORD_SIZE {
      RemainderIs(end, QWORD_SIZE, 0, end);
    } else {
      RemainderIs(end, QWORD_SIZE, 1, 0);
    }
    var size := last.numberOfBytes + PAGE_SIZE;
    assert size <= (i + 1) * PAGE_SIZE <= n * PAGE_SIZE;
    RemainderIs(size, DWORD_SIZE, 0, size);
    FrameIsBelow(frame(i));
    if Continues(frame, last, i) { NextMultiple(end); }
    NextMultiple(frame(i));
  }

  lemma FrameIsBelow(a: nat)
    requires a < QWORD_SIZE && a % PAGE_SIZE == 0
    ensures a + PAGE_SIZE <= QWORD_SIZE
  {
  }

  lemma NextMultiple(a: nat)
    requires a % PAGE_SIZE == 0
    ensures (a + PAGE_SIZE) % PAGE_SIZE == 0
  {
  }

  // The answer of MdlAllocateEx.  MmuGetPhysicalAddressEx adds the offset to the 0 of a page that is
  // not mapped, so the test for NULL does not notice an unmapped first page behind an offset.
  ghost function Answer(frame: Pages, offset: nat, length: nat): Allocation
    requires offset < PAGE_SIZE && length < DWORD_SIZE
  {
    if frame(0) + offset == 0 then NotMapped
    else if !AllMapped(frame, PageCount(offset, length)) then Halted
    else Allocated(PairsOf(frame, offset, length))
  }

  // So a first page that is not mapped is noticed exactly when the buffer starts at its first byte;
  // otherwise the list starts in physical page 0.
  lemma UnmappedFirstPage(frame: Pages, offset: nat, length: nat)
    requires frame(0) == 0 && offset < PAGE_SIZE && length < DWORD_SIZE
    ensures Answer(frame, offset, length) == NotMapped <==> offset == 0
    ensures Answer(frame, offset, length).Allocated? ==> Answer(frame, offset, length).pairs[0].address == offset
  {
    StartOfJoined(frame, Pair(offset, PAGE_SIZE - offset), 1, PageCount(offset, length));
  }

  // Byte x, counted from the start of the first page, is mapped.
  predicate IsMapped(frame: Pages, x: nat) { frame(x / PAGE_SIZE) != 0 }

  // The ASSERT fails exactly when a byte of the buffer behind its first page is not mapped.
  lemma UnmappedLaterPage(frame: Pages, offset: nat, length: nat)
    requires 0 < frame(0) + offset && offset < PAGE_SIZE && 0 < length && offset + length <= DWORD_SIZE - PAGE_SIZE
    ensures Answer(frame, offset, length).Allocated? <==>
      forall x: nat :: PAGE_SIZE <= x < offset + length ==> IsMapped(frame, x)
    ensures !Answer(frame, offset, length).Allocated? ==> Answer(frame, offset, length) == Halted
  {
    var n := PageCount(offset, length);
    PageCountIs(offset, length);
    if forall x: nat :: PAGE_SIZE <= x < offset + length ==> IsMapped(frame, x) {
      forall i | 1 <= i < n ensures frame(i) != 0 {
        RemainderIs(i * PAGE_SIZE, PAGE_SIZE, i, 0);
        assert IsMapped(frame, i * PAGE_SIZE);
      }
    }
  }

  // MdlAllocateEx
  method MdlAllocate(virtualAddress: nat, length: nat, frame: Pages) returns (mdl: Allocation)
    requires 0 < virtualAddress < QWORD_SIZE && 0 < length < DWORD_SIZE && AreFrames(frame)
    ensures mdl == Answer(frame, virtualAddress % PAGE_SIZE, length)
  {
    PageSizeIsPower();
    AlignLowerRoundsDown(virtualAddress, PAGE_SIZE);
    var alignmentDifferences := AddressOffset(virtualAddress, PAGE_SIZE);
    var alignedSize := AlignAddressUpper((length + alignmentDifferences) % DWORD_SIZE, PAGE_SIZE) % DWORD_SIZE;
    if frame(0) + alignmentDifferences == 0 {
      return NotMapped;
    }
    var first := Pair(frame(0) + alignmentDifferences, PAGE_SIZE - alignmentDifferences);
    ghost var n := PageCount(alignmentDifferences, length);
    PageCountIs(alignmentDifferences, length);
    FirstIsSound(frame, alignmentDifferences, n);
    var mapped, noOfPairs := CountPairs(frame, first, alignedSize, n);
    if !mapped {
      return Halted;
    }
    var translations := new Pair[noOfPairs];
    FillPairs(frame, first, alignedSize, translations, n);
    mdl := Allocated(translations[..]);
  }

  lemma FirstIsSound(frame: Pages, offset: nat, n: nat)
    requires AreFrames(frame) && offset < PAGE_SIZE && n * PAGE_SIZE < DWORD_SIZE
    ensures Sound(frame, Pair(frame(0) + offset, PAGE_SIZE - offset), 1, n)
  {
    FrameIsBelow(frame(0));
    NextMultiple(frame(0));
  }

  // The first loop: how many pairs there are.
  method CountPairs(frame: Pages, first: Pair, alignedSize: nat, ghost n: nat) returns (mapped: bool, noOfPairs: nat)
    requires AreFrames(frame) && Sound(frame, first, 1, n)
    requires 0 < n && alignedSize == (if alignedSize == 0 then 0 else n * PAGE_SIZE) && (alignedSize == 0 ==> n == 1)
    ensures mapped <==> AllMapped(frame, n)
    ensures mapped ==> noOfPairs == |Joined(frame, first, 1, n)|
  {
    var last, offset := first, PAGE_SIZE;
    ghost var i := 1;
    noOfPairs := 1;
    while offset < alignedSize
      invariant 1 <= i <= n && offset == i * PAGE_SIZE && AllMapped(frame, i) && Sound(frame, last, i, n)
      invariant noOfPairs + |Joined(frame, last, i, n)| == 1 + |Joined(frame, first, 1, n)|
    {
      assert offset / PAGE_SIZE == i;
      if frame(offset / PAGE_SIZE) == 0 {
        return false, noOfPairs;
      }
      NextIsSound(frame, last, i, n);
      if !Continues(frame, last, offset / PAGE_SIZE) { noOfPairs := noOfPairs + 1; }
      last := NextPair(frame, last, offset / PAGE_SIZE);
      offset := offset + PAGE_SIZE;
      i := i + 1;
    }
    mapped := true;
  }

  // The second loop: the list of pairs has exactly the room for them.
  method FillPairs(frame: Pages, first: Pair, alignedSize: nat, translations: array<Pair>, ghost n: nat)
    requires AreFrames(frame) && Sound(frame, first, 1, n) && AllMapped(frame, n)
    requires 0 < n && alignedSize == (if alignedSize == 0 then 0 else n * PAGE_SIZE) && (alignedSize == 0 ==> n == 1)
    requires translations.Length == |Joined(frame, first, 1, n)|
    modifies translations
    ensures translations[..] == Joined(frame, first, 1, n)
  {
    var last, offset, index := first, PAGE_SIZE, 0;
    ghost var i, all := 1, Joined(frame, first, 1, n);
    while offset < alignedSize
      invariant 1 <= i <= n && offset == i * PAGE_SIZE && Sound(frame, last, i, n) && 0 <= index < translations.Length
      invariant translations[..index] + Joined(frame, last, i, n) == all
    {
      assert offset / PAGE_SIZE == i;
      NextIsSound(frame, last, i, n);
      if !Continues(frame, last, offset / PAGE_SIZE) {
        ghost var done, rest := translations[..index], Joined(frame, Pair(frame(i), PAGE_SIZE), i + 1, n);
        translations[index] := last;
        index := index + 1;
        assert translations[..index] == done + [last];
        Appended(done, last, rest);
      }
      last := NextPair(frame, last, offset / PAGE_SIZE);
      offset := offset + PAGE_SIZE;
      i := i + 1;
    }
    translations[index] := last;
    assert index + 1 == translations.Length;
  }

  lemma Appended(done: seq<Pair>, last: Pair, rest: seq<Pair>)
    ensures done + [last] + rest == done + ([last] + rest)
  {
  }

  // ----- buffers of one run -----

  // A buffer that is contiguous in physical memory is one pair.
  lemma {:induction false} ContiguousIsOnePair(frame: Pages, last: Pair, i: nat, n: nat)
    requires i <= n
    requires forall k :: i <= k < n ==> frame(k) == last.address + last.numberOfBytes + (k - i) * PAGE_SIZE
    ensures Joined(frame, last, i, n) == [Pair(last.address, last.numberOfBytes + (n - i) * PAGE_SIZE)]
    decreases n - i
  {
    if i < n {
      assert frame(i) == last.address + last.numberOfBytes;
      ContiguousIsOnePair(frame, Pair(last.address, last.numberOfBytes + PAGE_SIZE), i + 1, n);
    }
  }
}
