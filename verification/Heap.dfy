/**
  The kernel heap (src/CommonLib/src/cl_heap.c): an address-ordered list of live blocks, bump
  allocation at FreeAddress, and otherwise a next-fit search of the holes between neighbours.

  A block is its HEAP_ENTRY header, the data and the HEAP_TAIL.  The circular list of entries is
  the sequence `blocks` in list order; position 0 of the ring is the list head and position p the
  entry blocks[p - 1].
 */
module Heap {

  import opened Basics
  import opened Bits

  const HEAP_MINIMUM_SIZE: nat := 64 * 1024
  const HEAP_DEFAULT_ALIGNMENT: nat := 16
  const HEADER_SIZE: nat := 0x48  // sizeof(HEAP_HEADER)
  const ENTRY_SIZE: nat := 0x20   // sizeof(HEAP_ENTRY)
  const TAIL_SIZE: nat := 4       // sizeof(HEAP_TAIL)

  datatype Block = Block(addr: nat, size: nat, tag: nat)
  {
    function Footprint(): nat { ENTRY_SIZE + size + TAIL_SIZE }

    function Data(): nat { addr + ENTRY_SIZE }

    function End(): nat { addr + Footprint() }
  }

  // ----- list of blocks -----

  // The blocks lie in [low, high) one after the other, in list order, without overlap.
  predicate Packed(blocks: seq<Block>, low: nat, high: nat)
  {
    if blocks == [] then low <= high
    else low <= blocks[0].addr && blocks[0].size > 0 && blocks[0].tag > 0 && Packed(blocks[1..], blocks[0].End(), high)
  }

  // An insertion before the last block leaves the end where it is.
  lemma EndsAfterInsert(blocks: seq<Block>, p: nat, b: Block, start: nat)
    requires 0 < p < |blocks|
    ensures EndOfLast(blocks[..p], start) == blocks[p - 1].End()
    ensures EndOfLast(blocks[..p] + [b] + blocks[p..], start) == EndOfLast(blocks, start)
  {
  }

  // `after` is `before` with b somewhere in between.
  ghost predicate Gains(before: seq<Block>, after: seq<Block>, b: Block)
  {
    exists p: nat :: p <= |before| && after == before[..p] + [b] + before[p..]
  }

  function EndOfLast(blocks: seq<Block>, start: nat): nat
  {
    if blocks == [] then start else blocks[|blocks| - 1].End()
  }

  // In a packed list any two blocks are disjoint and in list order, and all lie inside the heap.
  lemma {:induction false} PackedBlocksAreDisjoint(blocks: seq<Block>, low: nat, high: nat, i: nat, j: nat)
    requires Packed(blocks, low, high) && i <= j < |blocks|
    ensures low <= blocks[i].addr && blocks[j].End() <= high
    ensures i < j ==> blocks[i].End() <= blocks[j].addr
    ensures blocks[i].size > 0 && blocks[i].tag > 0
  {
    if j > 0 {
      PackedBlocksAreDisjoint(blocks[1..], blocks[0].End(), high, if i == 0 then 0 else i - 1, j - 1);
    } else {
      PackedRange(blocks[1..], blocks[0].End(), high);
    }
  }

  lemma {:induction false} PackedRange(blocks: seq<Block>, low: nat, high: nat)
    requires Packed(blocks, low, high)
    ensures low + TotalFootprint(blocks) <= EndOfLast(blocks, low) <= high
  {
    if blocks != [] { PackedRange(blocks[1..], blocks[0].End(), high); }
  }

  lemma {:induction false} PackedConcat(a: seq<Block>, b: seq<Block>, low: nat, high: nat)
    ensures Packed(a + b, low, high)
       <==> Packed(a, low, EndOfLast(a, low)) && Packed(b, EndOfLast(a, low), high)
  {
    if a == [] {
      assert a + b == b;
    } else {
      assert (a + b)[1..] == a[1..] + b;
      PackedConcat(a[1..], b, a[0].End(), high);
    }
  }

  lemma PackedInsert(blocks: seq<Block>, low: nat, high: nat, at: nat, b: Block)
    requires Packed(blocks, low, high) && at <= |blocks| && b.size > 0 && b.tag > 0
    requires EndOfLast(blocks[..at], low) <= b.addr
    requires b.End() <= if at == |blocks| then high else blocks[at].addr
    ensures Packed(blocks[..at] + [b] + blocks[at..], low, high)
    ensures TotalFootprint(blocks[..at] + [b] + blocks[at..]) == TotalFootprint(blocks) + b.Footprint()
  {
    var left, right := blocks[..at], blocks[at..];
    assert blocks == left + right && left + [b] + right == left + ([b] + right);
    PackedConcat(left, right, low, high);
    PackedConcat(left, [b] + right, low, high);
    assert ([b] + right)[1..] == right;
    TotalFootprintOfConcat(left, right);
    TotalFootprintOfConcat(left, [b] + right);
  }

  lemma PackedRemove(blocks: seq<Block>, low: nat, high: nat, at: nat)
    requires Packed(blocks, low, high) && at < |blocks|
    ensures Packed(blocks[..at] + blocks[at + 1..], low, high)
    ensures TotalFootprint(blocks[..at] + blocks[at + 1..]) == TotalFootprint(blocks) - blocks[at].Footprint()
  {
    var left, right := blocks[..at], blocks[at..];
    assert blocks == left + right && right[1..] == blocks[at + 1..];
    PackedConcat(left, right, low, high);
    PackedConcat(left, right[1..], low, high);
    PackedRange(right[1..], right[0].End(), high);
    TotalFootprintOfConcat(left, right);
    TotalFootprintOfConcat(left, right[1..]);
  }

  // The end moves only if the last block goes.
  lemma EndAfterRemove(blocks: seq<Block>, low: nat, high: nat, at: nat)
    requires Packed(blocks, low, high) && at < |blocks|
    ensures EndOfLast(blocks[..at] + blocks[at + 1..], low)
         == if blocks[at].End() != EndOfLast(blocks, low) then EndOfLast(blocks, low)
            else if at == 0 then low else blocks[at - 1].End()
  {
    PackedBlocksAreDisjoint(blocks, low, high, at, |blocks| - 1);
  }

  function TotalFootprint(blocks: seq<Block>): nat
  {
    if blocks == [] then 0 else blocks[0].Footprint() + TotalFootprint(blocks[1..])
  }

  lemma {:induction false} TotalFootprintOfConcat(a: seq<Block>, b: seq<Block>)
    ensures TotalFootprint(a + b) == TotalFootprint(a) + TotalFootprint(b)
  {
    if a == [] {
      assert a + b == b;
    } else {
      TotalFootprintOfConcat(a[1..], b);
      assert (a + b)[1..] == a[1..] + b;
    }
  }

  // The sizes of all holes between start and the end of the last block.
  function Holes(blocks: seq<Block>, start: nat): int
  {
    if blocks == [] then 0 else blocks[0].addr - start + Holes(blocks[1..], blocks[0].End())
  }

  // Holes and footprints partition the used part of the heap.
  lemma {:induction false} HolesComplementFootprints(blocks: seq<Block>, start: nat)
    ensures Holes(blocks, start) == EndOfLast(blocks, start) - start - TotalFootprint(blocks)
  {
    if blocks != [] { HolesComplementFootprints(blocks[1..], blocks[0].End()); }
  }

  // Each single hole is at most all holes together.
  lemma {:induction false} HoleIsPartOfHoles(blocks: seq<Block>, start: nat, high: nat, p: nat)
    requires Packed(blocks, start, high) && p < |blocks|
    ensures blocks[p].addr - (if p == 0 then start else blocks[p - 1].End()) <= Holes(blocks, start)
  {
    var rest := blocks[1..];
    HolesComplementFootprints(rest, blocks[0].End());
    PackedRange(rest, blocks[0].End(), high);
    if p > 0 { HoleIsPartOfHoles(rest, blocks[0].End(), high, p - 1); }
  }

  // ----- placement -----

  // Where _InitHeapEntry puts a block in free space that begins at start.
  function Placed(start: nat, size: nat, tag: nat, alignment: nat): Block
    requires 0 < alignment <= QWORD_SIZE
  {
    var data := AlignAddressUpper(start + ENTRY_SIZE, alignment);
    Block(if data < ENTRY_SIZE then 0 else data - ENTRY_SIZE, size, tag)
  }

  // The block, padding included, fits in `available` bytes from start.
  predicate Fits(start: nat, size: nat, alignment: nat, available: int)
    requires 0 < alignment <= QWORD_SIZE
  {
    AlignAddressUpper(start + ENTRY_SIZE, alignment) - (start + ENTRY_SIZE) + ENTRY_SIZE + size + TAIL_SIZE <= available
  }

  lemma PlacedWhereItFits(start: nat, size: nat, tag: nat, alignment: nat, available: int)
    requires IsPowerOf2(alignment) && alignment < DWORD_SIZE && start + ENTRY_SIZE + DWORD_SIZE <= QWORD_SIZE
    ensures var b := Placed(start, size, tag, alignment);
            && start <= b.addr && b.Data() % alignment == 0
            && (Fits(start, size, alignment, available) <==> b.End() <= start + available)
  {
    AlignUpperRoundsUp(start + ENTRY_SIZE, alignment);
  }

  // ----- room for a block -----

  // Aligned data with header and tail fits between two addresses, with the data at `data`.
  predicate IsPlace(from: int, limit: int, size: nat, alignment: nat, data: int)
    requires 0 < alignment
  {
    data % alignment == 0 && from + ENTRY_SIZE <= data && data + size + TAIL_SIZE <= limit
  }

  ghost predicate HasRoom(from: int, limit: int, size: nat, alignment: nat)
    requires 0 < alignment
  {
    exists data :: IsPlace(from, limit, size, alignment, data)
  }

  ghost predicate IsLowestPlace(from: int, limit: int, size: nat, alignment: nat, data: int)
    requires 0 < alignment
  {
    IsPlace(from, limit, size, alignment, data) && forall d :: IsPlace(from, limit, size, alignment, d) ==> data <= d
  }

  lemma MultiplesApart(a: int, b: int, d: nat)
    requires 0 < d && a % d == 0 && b % d == 0 && a < b
    ensures a + d <= b
  {
    var q, r := a / d, b / d;
    assert a == q * d && b == r * d;
    assert r <= q ==> r * d <= q * d;
    assert (q + 1) * d <= r * d;
  }

  // _InitHeapEntry finds the lowest place, and fails exactly when there is none.
  lemma FitsIsRoom(start: nat, size: nat, tag: nat, alignment: nat, available: int)
    requires IsPowerOf2(alignment) && alignment < DWORD_SIZE && start + ENTRY_SIZE + DWORD_SIZE <= QWORD_SIZE
    ensures Fits(start, size, alignment, available) <==> HasRoom(start, start + available, size, alignment)
    ensures Fits(start, size, alignment, available) ==>
      IsLowestPlace(start, start + available, size, alignment, Placed(start, size, tag, alignment).Data())
  {
    AlignUpperRoundsUp(start + ENTRY_SIZE, alignment);
    var data, limit := AlignAddressUpper(start + ENTRY_SIZE, alignment), start + available;
    forall d | IsPlace(start, limit, size, alignment, d)
      ensures data <= d && Fits(start, size, alignment, available)
    {
      if d < data { MultiplesApart(d, data, alignment); }
    }
    if Fits(start, size, alignment, available) { assert IsPlace(start, limit, size, alignment, data); }
  }

  // The hole after list position p, between blocks[p - 1] and blocks[p].
  predicate HoleFits(blocks: seq<Block>, p: nat, size: nat, alignment: nat)
    requires 1 <= p < |blocks| && 0 < alignment <= QWORD_SIZE
  {
    Fits(blocks[p - 1].End(), size, alignment, blocks[p].addr - blocks[p - 1].End())
  }

  // The holes the search looks at when it restarts at ring position r: those after r, and after
  // the wrap-around those from position 2 up to, but not next to, r.
  predicate Examined(p: nat, r: nat, n: nat)
  {
    1 <= p < n && (r < p || (2 <= p && p + 1 < r))
  }

  // The order in which it looks at them.
  predicate Sooner(q: nat, p: nat, r: nat)
  {
    if r < p then r < q < p else r < q || q < p
  }

  // ASSERT(NULL != pPreviousHeapEntry) fires after the wrap-around.
  predicate SearchAborts(r: nat, n: nat) { 3 <= r && n <= r + 1 }

  datatype Cursor = ListHead | Entry(addr: nat)

  datatype Allocation =
    | Allocated(data: nat)
    | InvalidSize
    | InvalidTag
    | NoMoreMemory
    | Aborted  // an ASSERT fired

  // pPreviousHeapEntry and pCurHeapEntry in the search.
  datatype HeapEntryPointer = Null | NotAnEntry | At(p: nat)

  function PositionOf(blocks: seq<Block>, addr: nat): (p: nat)
    ensures p <= |blocks|
    ensures p > 0 ==> blocks[p - 1].addr == addr
    ensures p == 0 ==> forall i :: 0 <= i < |blocks| ==> blocks[i].addr != addr
  {
    if blocks == [] then 0
    else if blocks[|blocks| - 1].addr == addr then |blocks|
    else PositionOf(blocks[..|blocks| - 1], addr)
  }

  lemma PositionOfBlock(blocks: seq<Block>, low: nat, high: nat, i: nat)
    requires Packed(blocks, low, high) && i < |blocks|
    ensures PositionOf(blocks, blocks[i].addr) == i + 1
  {
    var p := PositionOf(blocks, blocks[i].addr);
    if p > 0 && p - 1 != i {
      PackedBlocksAreDisjoint(blocks, low, high, if p - 1 < i then p - 1 else i, if p - 1 < i then i else p - 1);
    }
  }

  lemma PositionAfterRemove(blocks: seq<Block>, low: nat, high: nat, i: nat, addr: nat)
    requires Packed(blocks, low, high) && i < |blocks|
    ensures PositionOf(blocks[..i] + blocks[i + 1..], addr) > 0 <==>
      PositionOf(blocks, addr) > 0 && addr != blocks[i].addr
  {
    var p, rest := PositionOf(blocks, addr), blocks[..i] + blocks[i + 1..];
    PositionOfBlock(blocks, low, high, i);
    if p > 0 && p - 1 != i {
      assert rest[if p - 1 < i then p - 1 else p - 2].addr == addr;
    }
    var q := PositionOf(rest, addr);
    if q > 0 {
      var k := if q - 1 < i then q - 1 else q;
      assert blocks[k].addr == addr;
      PositionOfBlock(blocks, low, high, k);
    }
  }

  function Flink(position: nat, n: nat): nat { if position >= n then 0 else position + 1 }

  // p is the first fitting hole the search examines, or 0 if none of them fits.
  ghost predicate IsFirstFit(blocks: seq<Block>, r: nat, size: nat, alignment: nat, p: nat)
    requires 0 < alignment <= QWORD_SIZE
  {
    && (p > 0 ==> Examined(p, r, |blocks|) && HoleFits(blocks, p, size, alignment))
    && (forall q: nat :: Examined(q, r, |blocks|) && (p == 0 || Sooner(q, p, r)) ==>
        !HoleFits(blocks, q, size, alignment))
  }

  // There is only one such hole.
  ghost function FirstFit(blocks: seq<Block>, r: nat, size: nat, alignment: nat): nat
    requires 0 < alignment <= QWORD_SIZE
  {
    if exists p: nat :: IsFirstFit(blocks, r, size, alignment, p)
    then var p: nat :| IsFirstFit(blocks, r, size, alignment, p); p
    else 0
  }

  lemma FirstFitIs(blocks: seq<Block>, r: nat, size: nat, alignment: nat, p: nat)
    requires 0 < alignment <= QWORD_SIZE && IsFirstFit(blocks, r, size, alignment, p)
    ensures FirstFit(blocks, r, size, alignment) == p
  {
  }

  // How soon the search comes to a hole.
  function SearchRank(q: nat, r: nat, n: nat): nat { if r < q then q - r else q + n }

  lemma FirstFitExists(blocks: seq<Block>, r: nat, size: nat, alignment: nat, q: nat)
    requires 0 < alignment <= QWORD_SIZE && Examined(q, r, |blocks|) && HoleFits(blocks, q, size, alignment)
    ensures exists p: nat :: 0 < p && IsFirstFit(blocks, r, size, alignment, p)
    decreases SearchRank(q, r, |blocks|)
  {
    if x: nat :| Examined(x, r, |blocks|) && Sooner(x, q, r) && HoleFits(blocks, x, size, alignment) {
      FirstFitExists(blocks, r, size, alignment, x);
    } else {
      assert IsFirstFit(blocks, r, size, alignment, q);
    }
  }

  // The test of the hole after position prev, made with the end of entry `left`: it is the right
  // test if left is prev, and fails if left is stale, that is, further on in the list.
  lemma HoleTest(blocks: seq<Block>, low: nat, high: nat, prev: nat, left: nat, size: nat, alignment: nat)
    requires Packed(blocks, low, high) && 1 <= prev < |blocks| && (left == prev || prev < left <= |blocks|) && 0 < size
    requires high + ENTRY_SIZE + DWORD_SIZE <= QWORD_SIZE && IsPowerOf2(alignment) && alignment < DWORD_SIZE
    ensures var start := blocks[left - 1].End();
            var between := blocks[prev].addr - start;
            (between >= size + ENTRY_SIZE + TAIL_SIZE && Fits(start, size, alignment, between))
            <==> left == prev && HoleFits(blocks, prev, size, alignment)
  {
    if left == prev {
      PackedBlocksAreDisjoint(blocks, low, high, prev - 1, prev);
      PlacedWhereItFits(blocks[prev - 1].End(), size, 1, alignment, blocks[prev].addr - blocks[prev - 1].End());
    } else {
      PackedBlocksAreDisjoint(blocks, low, high, prev, left - 1);
    }
  }

  // The search loop as written, with positions in the ring for list pointers.  After the
  // wrap-around pPreviousHeapEntry is stale: NULL, or the last entry while pPreviousEntry is the first.
  method FindHole(blocks: seq<Block>, r: nat, low: nat, high: nat, size: nat, alignment: nat)
    returns (aborted: bool, p: nat)
    requires Packed(blocks, low, high) && r <= |blocks| && 0 < |blocks| && 0 < size
    requires high + ENTRY_SIZE + DWORD_SIZE <= QWORD_SIZE && IsPowerOf2(alignment) && alignment < DWORD_SIZE
    ensures aborted <==> SearchAborts(r, |blocks|)
    ensures !aborted ==> IsFirstFit(blocks, r, size, alignment, p)
  {
    var n, sizeRequired := |blocks|, size + ENTRY_SIZE + TAIL_SIZE;
    var prev: nat := Flink(r, n);
    var prevHeap := if prev == 0 then NotAnEntry else At(prev);
    var curHeap := Null;
    var cur: nat := Flink(prev, n);
    aborted, p := false, 0;
    while r != cur
      invariant prev <= n && cur == Flink(prev, n)
      invariant r < prev ==> prevHeap == At(prev) && curHeap == if prev == r + 1 then Null else At(prev)
      invariant prev == 0 < r ==> curHeap == if n <= r + 1 then Null else At(n)
      invariant prev == 1 < r ==> prevHeap == curHeap == if n <= r + 1 then Null else At(n)
      invariant 2 <= prev < r ==> prevHeap == curHeap == At(prev) && !SearchAborts(r, n)
      invariant prev != r
      invariant forall q: nat :: Examined(q, r, n) && (r < q < prev || (prev < r && (r < q || q < prev)))
                                 ==> !HoleFits(blocks, q, size, alignment)
      decreases if r < prev then n + 1 + r - prev else r - prev
    {
      if cur != 0 && prev != 0 {
        if prevHeap.Null? {
          aborted := true;
          return;
        }
        curHeap := At(cur);
        HoleTest(blocks, low, high, prev, prevHeap.p, size, alignment);
        var startAddress := blocks[prevHeap.p - 1].End();
        var sizeBetweenEntries := blocks[cur - 1].addr - startAddress;
        if sizeBetweenEntries >= sizeRequired && Fits(startAddress, size, alignment, sizeBetweenEntries) {
          p := prev;
          return;
        }
      }
      prev, prevHeap, cur := cur, curHeap, Flink(cur, n);
    }
  }

  // ----- the heap as a value -----

  // What a valid heap is determined by.
  datatype HeapState = HeapState(base: nat, maximum: nat, blocks: seq<Block>, restart: Cursor)
  {
    function Start(): nat { base + HEADER_SIZE }

    function Limit(): nat { base + maximum }

    function FreeAddress(): nat { EndOfLast(blocks, Start()) }

    function Remaining(): int { maximum - HEADER_SIZE - TotalFootprint(blocks) }

    function RestartPosition(): (r: nat)
      ensures r <= |blocks|
    {
      if restart.ListHead? then 0 else PositionOf(blocks, restart.addr)
    }

    // Bump allocation would succeed.
    predicate FitsAtEnd(size: nat, alignment: nat)
      requires 0 < alignment <= QWORD_SIZE
    {
      Fits(FreeAddress(), size, alignment, Limit() - FreeAddress() - ENTRY_SIZE)
    }

    // What ClHeapAllocatePoolWithTag answers in this state.
    ghost function Answer(size: nat, tag: nat, alignment: nat, panicIfFail: bool): Allocation
      requires 0 < alignment <= QWORD_SIZE
    {
      if size == 0 then Failed(panicIfFail, InvalidSize)
      else if tag == 0 then Failed(panicIfFail, InvalidTag)
      else if size + ENTRY_SIZE + TAIL_SIZE > Remaining() then Failed(panicIfFail, NoMoreMemory)
      else if FitsAtEnd(size, alignment) then Allocated(Placed(FreeAddress(), size, tag, alignment).Data())
      else if size + ENTRY_SIZE + TAIL_SIZE > Holes(blocks, Start()) then Failed(panicIfFail, NoMoreMemory)
      else AnswerFromHoles(size, tag, alignment, panicIfFail)
    }

    ghost function AnswerFromHoles(size: nat, tag: nat, alignment: nat, panicIfFail: bool): Allocation
      requires 0 < alignment <= QWORD_SIZE
    {
      var p := FirstFit(blocks, RestartPosition(), size, alignment);
      if SearchAborts(RestartPosition(), |blocks|) then Aborted
      else if 0 < p <= |blocks| then Allocated(Placed(blocks[p - 1].End(), size, tag, alignment).Data())
      else Failed(panicIfFail, NoMoreMemory)
    }

    // The state an allocation with that answer leaves: one block more, which becomes the restart
    // entry if it was put into a hole, or the same state.
    ghost predicate AllocatesTo(size: nat, tag: nat, alignment: nat, result: Allocation, s: HeapState)
      requires 0 < alignment <= QWORD_SIZE
    {
      if result.Allocated? then
        && s.base == base && s.maximum == maximum && ENTRY_SIZE <= result.data && result.data % alignment == 0
        && Gains(blocks, s.blocks, Block(result.data - ENTRY_SIZE, size, tag))
        && s.restart == (if FitsAtEnd(size, alignment) then restart else Entry(result.data - ENTRY_SIZE))
      else s == this
    }
  }

  // ----- what an allocation promises -----

  // The hole after list position q has room, and is one the search looks at.
  ghost predicate IsRoomyHole(s: HeapState, size: nat, alignment: nat, q: nat)
    requires 0 < alignment
  {
    && Examined(q, s.RestartPosition(), |s.blocks|)
    && HasRoom(s.blocks[q - 1].End(), s.blocks[q].addr, size, alignment)
  }

  ghost predicate RoomAtEnd(s: HeapState, size: nat, alignment: nat)
    requires 0 < alignment
  {
    HasRoom(s.FreeAddress(), s.Limit() - ENTRY_SIZE, size, alignment)
  }

  ghost predicate RoomInHoles(s: HeapState, size: nat, alignment: nat)
    requires 0 < alignment
  {
    exists q: nat :: IsRoomyHole(s, size, alignment, q)
  }

  // The search is begun when all holes together are large enough, and may then fail its ASSERT.
  predicate SearchIsFatal(s: HeapState, size: nat)
  {
    SearchAborts(s.RestartPosition(), |s.blocks|) && size + ENTRY_SIZE + TAIL_SIZE <= Holes(s.blocks, s.Start())
  }

  // The data is at the lowest place at the end, or else in the first hole of the search with room.
  ghost predicate IsWhereExpected(s: HeapState, size: nat, alignment: nat, data: nat)
    requires 0 < alignment
  {
    if RoomAtEnd(s, size, alignment)
    then IsLowestPlace(s.FreeAddress(), s.Limit() - ENTRY_SIZE, size, alignment, data)
    else exists p: nat :: IsInFirstRoomyHole(s, size, alignment, data, p)
  }

  ghost predicate IsInFirstRoomyHole(s: HeapState, size: nat, alignment: nat, data: nat, p: nat)
    requires 0 < alignment
  {
    && IsRoomyHole(s, size, alignment, p)
    && IsLowestPlace(s.blocks[p - 1].End(), s.blocks[p].addr, size, alignment, data)
    && forall q: nat :: IsRoomyHole(s, size, alignment, q) ==> !Sooner(q, p, s.RestartPosition())
  }

  // The outcome of an allocation, by the room there is: the block is placed exactly when the end or a
  // hole that is looked at takes it and the search does not fail its ASSERT first.
  ghost predicate AnswersRoom(s: HeapState, size: nat, tag: nat, alignment: nat, panicIfFail: bool, result: Allocation)
    requires 0 < alignment
  {
    if size == 0 then result == (if panicIfFail then Aborted else InvalidSize)
    else if tag == 0 then result == (if panicIfFail then Aborted else InvalidTag)
    else if RoomAtEnd(s, size, alignment) then result.Allocated? && IsWhereExpected(s, size, alignment, result.data)
    else if SearchIsFatal(s, size) then result == Aborted
    else if RoomInHoles(s, size, alignment) then result.Allocated? && IsWhereExpected(s, size, alignment, result.data)
    else result == (if panicIfFail then Aborted else NoMoreMemory)
  }

  ghost predicate IsSound(s: HeapState)
  {
    && Packed(s.blocks, s.Start(), s.Limit()) && s.Limit() + ENTRY_SIZE + DWORD_SIZE <= QWORD_SIZE
  }

  lemma EndIsRoom(s: HeapState, size: nat, tag: nat, alignment: nat)
    requires IsSound(s) && IsPowerOf2(alignment) && alignment < DWORD_SIZE
    ensures s.FitsAtEnd(size, alignment) <==> RoomAtEnd(s, size, alignment)
    ensures s.FitsAtEnd(size, alignment) ==>
      IsLowestPlace(s.FreeAddress(), s.Limit() - ENTRY_SIZE, size, alignment,
                    Placed(s.FreeAddress(), size, tag, alignment).Data())
    ensures s.FitsAtEnd(size, alignment) ==> size + ENTRY_SIZE + TAIL_SIZE <= s.Remaining()
  {
    PackedRange(s.blocks, s.Start(), s.Limit());
    FitsIsRoom(s.FreeAddress(), size, tag, alignment, s.Limit() - s.FreeAddress() - ENTRY_SIZE);
  }

  // A hole that takes the block is found: neither HeapSizeRemaining nor the quick reject stands in the way.
  lemma HoleIsRoom(s: HeapState, size: nat, tag: nat, alignment: nat, q: nat)
    requires IsSound(s) && IsPowerOf2(alignment) && alignment < DWORD_SIZE && 1 <= q < |s.blocks|
    ensures var from, limit := s.blocks[q - 1].End(), s.blocks[q].addr;
      && (HoleFits(s.blocks, q, size, alignment) <==> HasRoom(from, limit, size, alignment))
      && (HoleFits(s.blocks, q, size, alignment) ==>
            IsLowestPlace(from, limit, size, alignment, Placed(from, size, tag, alignment).Data()))
    ensures HoleFits(s.blocks, q, size, alignment) ==>
      size + ENTRY_SIZE + TAIL_SIZE <= Holes(s.blocks, s.Start()) <= s.Remaining()
  {
    var from := s.blocks[q - 1].End();
    PackedBlocksAreDisjoint(s.blocks, s.Start(), s.Limit(), q - 1, q);
    FitsIsRoom(from, size, tag, alignment, s.blocks[q].addr - from);
    PlacedWhereItFits(from, size, tag, alignment, s.blocks[q].addr - from);
    HoleIsPartOfHoles(s.blocks, s.Start(), s.Limit(), q);
    HolesComplementFootprints(s.blocks, s.Start());
    PackedRange(s.blocks, s.Start(), s.Limit());
  }

  lemma FirstFitIsExpected(s: HeapState, size: nat, tag: nat, alignment: nat, p: nat)
    requires IsSound(s) && IsPowerOf2(alignment) && alignment < DWORD_SIZE && 0 < p
    requires IsFirstFit(s.blocks, s.RestartPosition(), size, alignment, p) && !RoomAtEnd(s, size, alignment)
    ensures p < |s.blocks| && RoomInHoles(s, size, alignment)
    ensures IsWhereExpected(s, size, alignment, Placed(s.blocks[p - 1].End(), size, tag, alignment).Data())
  {
    HoleIsRoom(s, size, tag, alignment, p);
    assert IsRoomyHole(s, size, alignment, p);
    forall q: nat | IsRoomyHole(s, size, alignment, q)
      ensures !Sooner(q, p, s.RestartPosition())
    {
      HoleIsRoom(s, size, tag, alignment, q);
    }
    assert IsInFirstRoomyHole(s, size, alignment, Placed(s.blocks[p - 1].End(), size, tag, alignment).Data(), p);
  }

  // The search, if it is not fatal, finds room in the holes exactly when there is some.
  lemma SearchIsRight(s: HeapState, size: nat, tag: nat, alignment: nat)
    requires IsSound(s) && IsPowerOf2(alignment) && alignment < DWORD_SIZE && !RoomAtEnd(s, size, alignment)
    ensures var p := FirstFit(s.blocks, s.RestartPosition(), size, alignment);
      if RoomInHoles(s, size, alignment)
      then && 0 < p < |s.blocks|
           && IsWhereExpected(s, size, alignment, Placed(s.blocks[p - 1].End(), size, tag, alignment).Data())
      else p == 0
  {
    var r, n := s.RestartPosition(), |s.blocks|;
    if q: nat :| Examined(q, r, n) && HoleFits(s.blocks, q, size, alignment) {
      FirstFitExists(s.blocks, r, size, alignment, q);
      var p: nat :| 0 < p && IsFirstFit(s.blocks, r, size, alignment, p);
      FirstFitIs(s.blocks, r, size, alignment, p);
      FirstFitIsExpected(s, size, tag, alignment, p);
    } else {
      NoHoleIsRoomy(s, size, alignment);
      assert IsFirstFit(s.blocks, r, size, alignment, 0);
      FirstFitIs(s.blocks, r, size, alignment, 0);
    }
  }

  lemma RejectsAreRight(s: HeapState, size: nat, alignment: nat)
    requires IsSound(s) && IsPowerOf2(alignment) && alignment < DWORD_SIZE
    ensures Holes(s.blocks, s.Start()) <= s.Remaining()
    ensures size + ENTRY_SIZE + TAIL_SIZE > Holes(s.blocks, s.Start()) ==> !RoomInHoles(s, size, alignment)
  {
    HolesComplementFootprints(s.blocks, s.Start());
    PackedRange(s.blocks, s.Start(), s.Limit());
    if q: nat :| IsRoomyHole(s, size, alignment, q) { HoleIsRoom(s, size, 1, alignment, q); }
  }

  // The function Answer, which Allocate is proved to compute, is right about the room there is.
  lemma AnswerIsRight(s: HeapState, size: nat, tag: nat, alignment: nat, panicIfFail: bool)
    requires IsSound(s) && IsPowerOf2(alignment) && alignment < DWORD_SIZE
    ensures AnswersRoom(s, size, tag, alignment, panicIfFail, s.Answer(size, tag, alignment, panicIfFail))
  {
    EndIsRoom(s, size, tag, alignment);
    RejectsAreRight(s, size, alignment);
    if !RoomAtEnd(s, size, alignment) { SearchIsRight(s, size, tag, alignment); }
  }

  lemma NoHoleIsRoomy(s: HeapState, size: nat, alignment: nat)
    requires IsSound(s) && IsPowerOf2(alignment) && alignment < DWORD_SIZE
    requires forall q: nat :: Examined(q, s.RestartPosition(), |s.blocks|) ==> !HoleFits(s.blocks, q, size, alignment)
    ensures !RoomInHoles(s, size, alignment)
  {
    forall q: nat | Examined(q, s.RestartPosition(), |s.blocks|) ensures !IsRoomyHole(s, size, alignment, q) {
      HoleIsRoom(s, size, 1, alignment, q);
    }
  }

  class Heap {
    const base: nat
    const maximum: nat
    var remaining: int       // HeapSizeRemaining
    var freeAddress: nat
    var allocations: int     // HeapNumberOfAllocations
    var restart: Cursor      // EntryToRestartSearch
    var blocks: seq<Block>   // HeapAllocations

    function Start(): nat { base + HEADER_SIZE }

    function Limit(): nat { base + maximum }

    ghost predicate Valid()
      reads this
    {
      && HEAP_MINIMUM_SIZE <= maximum < DWORD_SIZE && Limit() + ENTRY_SIZE + DWORD_SIZE <= QWORD_SIZE
      && Packed(blocks, Start(), Limit())
      && freeAddress == EndOfLast(blocks, Start())
      && remaining == maximum - HEADER_SIZE - TotalFootprint(blocks)
      && allocations == |blocks|
    }

    ghost function State(): HeapState
      reads this
    {
      HeapState(base, maximum, blocks, restart)
    }

    // EntryToRestartSearch points into the list.
    predicate RestartIsLive()
      reads this
    {
      restart.ListHead? || PositionOf(blocks, restart.addr) > 0
    }

    function RestartPosition(): (r: nat)
      reads this
      ensures r <= |blocks|
    {
      if restart.ListHead? then 0 else PositionOf(blocks, restart.addr)
    }

    // ClHeapInit, once its parameter checks have passed
    constructor (baseAddress: nat, memoryAvailable: nat)
      requires 0 < baseAddress && HEAP_MINIMUM_SIZE <= memoryAvailable < DWORD_SIZE
      requires baseAddress + memoryAvailable + ENTRY_SIZE + DWORD_SIZE <= QWORD_SIZE
      ensures Valid() && RestartIsLive()
      ensures base == baseAddress && maximum == memoryAvailable
      ensures blocks == [] && remaining == memoryAvailable - HEADER_SIZE && freeAddress == baseAddress + HEADER_SIZE
      ensures restart == ListHead
    {
      base, maximum := baseAddress, memoryAvailable;
      remaining, allocations, restart := memoryAvailable - HEADER_SIZE, 0, ListHead;
      freeAddress, blocks := baseAddress + HEADER_SIZE, [];
    }

    // The value tested at the quick reject: HeapSizeRemaining - remainingSizeUntilEnd - sizeof(HEAP_ENTRY).
    function RemainingBeforeCurrent(): int
      reads this
    {
      remaining - (Limit() - freeAddress - ENTRY_SIZE) - ENTRY_SIZE
    }

    // The quick-reject value is exactly the size of all holes below FreeAddress, so a request that
    // passes it finds a list that is not empty.
    lemma QuickRejectMeasuresHoles()
      requires Valid()
      ensures RemainingBeforeCurrent() == Holes(blocks, Start())
      ensures 0 < RemainingBeforeCurrent() ==> blocks != []
    {
      HolesComplementFootprints(blocks, Start());
    }

    // So a reject loses no hole: where the value is too small, no hole (not even the one below
    // the first block, which the search ignores) can take the block.
    lemma QuickRejectLosesNothing(size: nat, alignment: nat, p: nat)
      requires Valid() && IsPowerOf2(alignment) && alignment < DWORD_SIZE && p < |blocks|
      requires ENTRY_SIZE + size + TAIL_SIZE > RemainingBeforeCurrent()
      ensures var from := if p == 0 then Start() else blocks[p - 1].End();
              !Fits(from, size, alignment, blocks[p].addr - from)
    {
      QuickRejectMeasuresHoles();
      HoleIsPartOfHoles(blocks, Start(), Limit(), p);
      if p > 0 {
        PackedBlocksAreDisjoint(blocks, Start(), Limit(), p - 1, p);
      } else {
        PackedBlocksAreDisjoint(blocks, Start(), Limit(), p, p);
      }
      var from := if p == 0 then Start() else blocks[p - 1].End();
      PlacedWhereItFits(from, size, 1, alignment, blocks[p].addr - from);
    }

    // _InitHeapEntry; the entry goes to list position `at` (the end, or right after its left neighbour).
    method InitHeapEntry(start: nat, tag: nat, size: nat, alignment: nat, available: nat, at: nat)
      returns (end: nat)
      requires Valid() && 0 < size < DWORD_SIZE && 0 < tag && at <= |blocks|
      requires ENTRY_SIZE + size + TAIL_SIZE <= remaining
      requires IsPowerOf2(alignment) && alignment < DWORD_SIZE
      requires start == EndOfLast(blocks[..at], Start())
      requires start + available <= Limit() && (at < |blocks| ==> start + available <= blocks[at].addr)
      modifies this`remaining, this`allocations, this`blocks
      ensures end == 0 <==> !Fits(start, size, alignment, available)
      ensures end == 0 ==> unchanged(this)
      ensures end != 0 ==>
        var b := Placed(start, size, tag, alignment);
        && end == b.End()
        && blocks == old(blocks)[..at] + [b] + old(blocks)[at..]
        && remaining == old(remaining) - b.Footprint()
        && allocations == old(allocations) + 1
        && b.Data() % alignment == 0
        && Packed(blocks, Start(), Limit())
        && remaining == maximum - HEADER_SIZE - TotalFootprint(blocks)
    {
      PlacedWhereItFits(start, size, tag, alignment, available);
      var unalignedDataAddress := start + ENTRY_SIZE;
      var dataAddress := AlignAddressUpper(unalignedDataAddress, alignment);
      var heapEntrySize := (size + ENTRY_SIZE + TAIL_SIZE) % DWORD_SIZE;
      RemainderIs(size + ENTRY_SIZE + TAIL_SIZE, DWORD_SIZE, 0, size + ENTRY_SIZE + TAIL_SIZE);
      if available < dataAddress - unalignedDataAddress + heapEntrySize {
        return 0;
      }
      var entry := Block(dataAddress - ENTRY_SIZE, size, tag);
      assert entry == Placed(start, size, tag, alignment);
      LinkEntry(entry, at);
      end := dataAddress + size + TAIL_SIZE;
    }

    method LinkEntry(entry: Block, at: nat)
      requires Valid() && at <= |blocks| && entry.size > 0 && entry.tag > 0 && entry.Footprint() <= remaining
      requires EndOfLast(blocks[..at], Start()) <= entry.addr
      requires entry.End() <= if at == |blocks| then Limit() else blocks[at].addr
      modifies this`remaining, this`allocations, this`blocks
      ensures blocks == old(blocks)[..at] + [entry] + old(blocks)[at..]
      ensures remaining == old(remaining) - entry.Footprint() && allocations == old(allocations) + 1
      ensures Packed(blocks, Start(), Limit()) && remaining == maximum - HEADER_SIZE - TotalFootprint(blocks)
    {
      PackedInsert(blocks, Start(), Limit(), at, entry);
      blocks := blocks[..at] + [entry] + blocks[at..];
      remaining := remaining - entry.Footprint();
      allocations := allocations + 1;
    }

    // The hole found by the search takes the block, which becomes the restart entry.
    method SearchHoles(size: nat, tag: nat, alignment: nat) returns (aborted: bool, p: nat)
      requires Valid() && RestartIsLive() && 0 < size < DWORD_SIZE && 0 < tag && blocks != []
      requires ENTRY_SIZE + size + TAIL_SIZE <= remaining
      requires IsPowerOf2(alignment) && alignment < DWORD_SIZE
      modifies this`remaining, this`allocations, this`blocks, this`restart
      ensures Valid() && RestartIsLive()
      ensures aborted <==> SearchAborts(old(RestartPosition()), old(|blocks|))
      ensures aborted || p == 0 ==> unchanged(this)
      ensures !aborted ==> IsFirstFit(old(blocks), old(RestartPosition()), size, alignment, p)
      ensures !aborted && p > 0 ==>
        var b := Placed(old(blocks)[p - 1].End(), size, tag, alignment);
        && blocks == old(blocks)[..p] + [b] + old(blocks)[p..]
        && restart == Entry(b.addr) && b.Data() % alignment == 0
        && RestartPosition() == p + 1
    {
      aborted, p := FindHole(blocks, RestartPosition(), Start(), Limit(), size, alignment);
      if !aborted && p > 0 {
        FillHole(size, tag, alignment, p);
      }
    }

    method FillHole(size: nat, tag: nat, alignment: nat, p: nat)
      requires Valid() && 0 < size < DWORD_SIZE && 0 < tag && ENTRY_SIZE + size + TAIL_SIZE <= remaining
      requires IsPowerOf2(alignment) && alignment < DWORD_SIZE && 0 < p < |blocks|
      requires HoleFits(blocks, p, size, alignment)
      modifies this`remaining, this`allocations, this`blocks, this`restart
      ensures Valid() && RestartIsLive() && RestartPosition() == p + 1
      ensures var b := Placed(old(blocks)[p - 1].End(), size, tag, alignment);
        && blocks == old(blocks)[..p] + [b] + old(blocks)[p..]
        && restart == Entry(b.addr) && b.Data() % alignment == 0
    {
      PackedBlocksAreDisjoint(blocks, Start(), Limit(), p - 1, p);
      var startAddress := blocks[p - 1].End();
      EndsAfterInsert(blocks, p, Placed(startAddress, size, tag, alignment), Start());
      var end := InitHeapEntry(startAddress, tag, size, alignment, blocks[p].addr - startAddress, p);
      restart := Entry(blocks[p].addr);
      PositionOfBlock(blocks, Start(), Limit(), p);
    }

    // The easier case: the block goes to FreeAddress.
    method Bump(size: nat, tag: nat, alignment: nat) returns (bumped: bool)
      requires Valid() && 0 < size < DWORD_SIZE && 0 < tag && alignment < DWORD_SIZE && IsPowerOf2(alignment)
      requires ENTRY_SIZE + size + TAIL_SIZE <= remaining
      modifies this
      ensures Valid() && restart == old(restart)
      ensures bumped <==> old(State()).FitsAtEnd(size, alignment)
      ensures !bumped ==> unchanged(this)
      ensures bumped ==>
        var b := Placed(old(State()).FreeAddress(), size, tag, alignment);
        && blocks == old(blocks) + [b] && (old(RestartIsLive()) ==> RestartIsLive())
        && old(State()).AllocatesTo(size, tag, alignment, Allocated(b.Data()), State())
    {
      var remainingSizeUntilEnd := Limit() - freeAddress - ENTRY_SIZE;
      PackedRange(blocks, Start(), Limit());
      PlacedWhereItFits(freeAddress, size, tag, alignment, remainingSizeUntilEnd);
      bumped := false;
      if size + ENTRY_SIZE + TAIL_SIZE <= remainingSizeUntilEnd {
        assert blocks[..|blocks|] == blocks;
        var end := InitHeapEntry(freeAddress, tag, size, alignment, remainingSizeUntilEnd, |blocks|);
        if end != 0 {
          ghost var n := |old(blocks)|;
          assert old(blocks)[..n] == old(blocks) && old(blocks)[n..] == [];
          assert blocks == old(blocks) + [Placed(old(freeAddress), size, tag, alignment)];
          assert blocks == old(blocks)[..n] + [Placed(old(freeAddress), size, tag, alignment)] + old(blocks)[n..];
          freeAddress := end;
          bumped := true;
        }
      }
    }

    // ClHeapAllocatePoolWithTag
    method Allocate(size: nat, tag: nat, allocationAlignment: nat, panicIfFail: bool) returns (result: Allocation)
      requires Valid() && RestartIsLive() && size < DWORD_SIZE && allocationAlignment < DWORD_SIZE
      requires allocationAlignment == 0 || IsPowerOf2(allocationAlignment)
      modifies this
      ensures Valid() && RestartIsLive()
      ensures AnswersRoom(old(State()), size, tag, if allocationAlignment == 0 then 16 else allocationAlignment,
                          panicIfFail, result)
      ensures result == old(State()).Answer(size, tag, AlignmentFor(allocationAlignment), panicIfFail)
      ensures old(State()).AllocatesTo(size, tag, AlignmentFor(allocationAlignment), result, State())
      ensures !result.Allocated? ==> unchanged(this)
    {
      var alignment := AlignmentFor(allocationAlignment);
      DefaultAlignmentIsPowerOf2();
      AnswerIsRight(State(), size, tag, alignment, panicIfFail);
      result := AllocateAligned(size, tag, alignment);
      if panicIfFail && !result.Allocated? { result := Aborted; }
    }

    method AllocateAligned(size: nat, tag: nat, alignment: nat) returns (result: Allocation)
      requires Valid() && RestartIsLive() && size < DWORD_SIZE && alignment < DWORD_SIZE && IsPowerOf2(alignment)
      modifies this
      ensures Valid() && RestartIsLive()
      ensures result == old(State()).Answer(size, tag, alignment, false)
      ensures old(State()).AllocatesTo(size, tag, alignment, result, State())
      ensures !result.Allocated? ==> unchanged(this)
    {
      if size == 0 { return InvalidSize; }
      if tag == 0 { return InvalidTag; }
      var sizeRequired := size + ENTRY_SIZE + TAIL_SIZE;
      if sizeRequired > remaining { return NoMoreMemory; }
      result := AllocateWhereItFits(size, tag, alignment);
    }

    // At the end, or else in a hole
    method AllocateWhereItFits(size: nat, tag: nat, alignment: nat) returns (result: Allocation)
      requires Valid() && RestartIsLive() && 0 < size < DWORD_SIZE && 0 < tag
      requires ENTRY_SIZE + size + TAIL_SIZE <= remaining
      requires IsPowerOf2(alignment) && alignment < DWORD_SIZE
      modifies this
      ensures Valid() && RestartIsLive()
      ensures result == old(State()).Answer(size, tag, alignment, false)
      ensures old(State()).AllocatesTo(size, tag, alignment, result, State())
      ensures !result.Allocated? ==> unchanged(this)
    {
      ghost var s := State();
      var sizeRequired := size + ENTRY_SIZE + TAIL_SIZE;
      var remainingSizeUntilEnd := Limit() - freeAddress - ENTRY_SIZE;
      var bumped := Bump(size, tag, alignment);
      if bumped {
        return Allocated(blocks[|blocks| - 1].Data());
      }
      assert State() == s;
      QuickRejectMeasuresHoles();
      var remainingSizeBeforeCurrent := remaining - remainingSizeUntilEnd - ENTRY_SIZE;
      if sizeRequired > remainingSizeBeforeCurrent { return NoMoreMemory; }
      result := AllocateInHole(size, tag, alignment);
    }

    // The answer of the search
    method AllocateInHole(size: nat, tag: nat, alignment: nat) returns (result: Allocation)
      requires Valid() && RestartIsLive() && 0 < size < DWORD_SIZE && 0 < tag && blocks != []
      requires ENTRY_SIZE + size + TAIL_SIZE <= remaining && IsPowerOf2(alignment) && alignment < DWORD_SIZE
      requires !State().FitsAtEnd(size, alignment)
      modifies this
      ensures Valid() && RestartIsLive()
      ensures result == old(State()).AnswerFromHoles(size, tag, alignment, false)
      ensures old(State()).AllocatesTo(size, tag, alignment, result, State())
      ensures !result.Allocated? ==> unchanged(this)
    {
      var aborted, p := SearchHoles(size, tag, alignment);
      if aborted { return Aborted; }
      FirstFitIs(old(blocks), old(RestartPosition()), size, alignment, p);
      if p == 0 { return NoMoreMemory; }
      assert blocks[p] == Placed(old(blocks)[p - 1].End(), size, tag, alignment);
      result := Allocated(blocks[p].Data());
    }

    // ClHeapFreePoolWithTag: memoryAddress is the data pointer of a live block.
    method Free(memoryAddress: nat, tag: nat) returns (aborted: bool, ghost freed: nat)
      requires Valid() && ENTRY_SIZE <= memoryAddress
      requires exists i :: 0 <= i < |blocks| && blocks[i].addr == memoryAddress - ENTRY_SIZE
      modifies this
      ensures Valid()
      ensures freed < |old(blocks)| && old(blocks)[freed].addr == memoryAddress - ENTRY_SIZE
      ensures aborted == (tag != old(blocks)[freed].tag)
      ensures blocks == if aborted then old(blocks) else old(blocks)[..freed] + old(blocks)[freed + 1..]
      ensures restart == old(restart)
      ensures old(RestartIsLive()) ==> (RestartIsLive() <==> aborted || restart != Entry(memoryAddress - ENTRY_SIZE))
      ensures aborted ==> unchanged(this)
    {
      var i :| 0 <= i < |blocks| && blocks[i].addr == memoryAddress - ENTRY_SIZE;
      var entry := blocks[i];
      PackedBlocksAreDisjoint(blocks, Start(), Limit(), i, i);
      if tag == 0 || entry.tag != tag { return true, i; }
      aborted, freed := false, i;
      UnlinkEntry(i);
    }

    // The part of ClHeapFreePoolWithTag behind the checks
    method UnlinkEntry(i: nat)
      requires Valid() && i < |blocks|
      modifies this
      ensures Valid() && blocks == old(blocks)[..i] + old(blocks)[i + 1..] && restart == old(restart)
      ensures old(RestartIsLive()) ==> (RestartIsLive() <==> restart != Entry(old(blocks)[i].addr))
    {
      var entry := blocks[i];
      var endAddress := entry.Data() + entry.size + TAIL_SIZE;
      var previousAddress := if i == 0 then base + HEADER_SIZE else blocks[i - 1].End();
      PackedRemove(blocks, Start(), Limit(), i);
      if restart.Entry? { PositionAfterRemove(blocks, Start(), Limit(), i, restart.addr); }
      EndAfterRemove(blocks, Start(), Limit(), i);
      blocks := blocks[..i] + blocks[i + 1..];
      remaining := remaining + entry.Footprint();
      allocations := allocations - 1;
      if endAddress == freeAddress {
        freeAddress := previousAddress;
      }
    }
  }

  // PoolAllocatePanicIfFail turns a failure into an assertion.
  function Failed(panicIfFail: bool, a: Allocation): Allocation { if panicIfFail then Aborted else a }

  function AlignmentFor(allocationAlignment: nat): (a: nat)
    ensures a > 0
  {
    if allocationAlignment == 0 then HEAP_DEFAULT_ALIGNMENT else allocationAlignment
  }

  lemma DefaultAlignmentIsPowerOf2()
    ensures IsPowerOf2(HEAP_DEFAULT_ALIGNMENT)
  {
    assert Pow2(4) == 16;
  }

  datatype InitStatus = Success | InvalidParameter | TooSmall

  // ClHeapInit
  method HeapInit(baseAddress: nat, memoryAvailable: nat) returns (status: InitStatus, h: Heap?)
    requires memoryAvailable < DWORD_SIZE && baseAddress + memoryAvailable + ENTRY_SIZE + DWORD_SIZE <= QWORD_SIZE
    ensures status == if baseAddress == 0 then InvalidParameter
                      else if memoryAvailable < HEAP_MINIMUM_SIZE then TooSmall else Success
    ensures status == Success <==> h != null
    ensures h != null ==>
      && fresh(h) && h.Valid() && h.base == baseAddress && h.maximum == memoryAvailable
      && h.blocks == [] && h.restart == ListHead
  {
    if baseAddress == 0 {
      return InvalidParameter, null;
    }
    if memoryAvailable < HEAP_MINIMUM_SIZE {
      return TooSmall, null;
    }
    h := new Heap(baseAddress, memoryAvailable);
    status := Success;
  }
}
