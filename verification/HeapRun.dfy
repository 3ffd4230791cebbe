/**
  Whole runs of the kernel heap: any sequence of allocations and frees, as seen by its clients.
 */
module HeapRun {

  import opened Basics
  import opened Bits
  import opened Heap

  // A client allocates, or frees the i-th allocation that is still held.
  datatype Request = Get(size: nat, tag: nat, alignment: nat, panicIfFail: bool) | Return(i: nat)

  // An allocation a client holds, and the alignment it asked for.
  datatype Held = Held(block: Block, alignment: nat)

  // The allocations held are the live blocks of the heap, each held once.
  ghost predicate Tracks(blocks: seq<Block>, held: seq<Held>)
  {
    && (forall i: nat :: HeldIsLive(blocks, held, i))
    && (forall b: Block :: LiveIsHeld(blocks, held, b))
    && (forall i: nat, j: nat :: HeldOnce(held, i, j))
  }

  ghost predicate HeldIsLive(blocks: seq<Block>, held: seq<Held>, i: nat) { i < |held| ==> held[i].block in blocks }

  ghost predicate LiveIsHeld(blocks: seq<Block>, held: seq<Held>, b: Block)
  {
    b in blocks ==> exists i :: 0 <= i < |held| && held[i].block == b
  }

  ghost predicate HeldOnce(held: seq<Held>, i: nat, j: nat)
  {
    i < j < |held| ==> held[i].block.addr != held[j].block.addr
  }

  // Two live blocks at different addresses do not overlap.
  lemma ApartIfDifferent(blocks: seq<Block>, low: nat, high: nat, a: Block, b: Block)
    requires Packed(blocks, low, high) && a in blocks && b in blocks
    ensures a.addr != b.addr ==> a.End() <= b.addr || b.End() <= a.addr
    ensures a.addr == b.addr ==> a == b
    ensures low <= a.addr && a.End() <= high
  {
    var i :| 0 <= i < |blocks| && blocks[i] == a;
    var j :| 0 <= j < |blocks| && blocks[j] == b;
    PackedBlocksAreDisjoint(blocks, low, high, i, i);
    if i < j { PackedBlocksAreDisjoint(blocks, low, high, i, j); }
    if j < i { PackedBlocksAreDisjoint(blocks, low, high, j, i); }
  }

  // The old blocks are still there, away from the new one, and nothing else is.
  lemma GainedBlocks(blocks: seq<Block>, after: seq<Block>, low: nat, high: nat, b: Block)
    requires Packed(after, low, high) && Gains(blocks, after, b)
    ensures b in after
    ensures forall x :: x in blocks ==> x in after && x.addr != b.addr
    ensures forall x :: x in after ==> x == b || x in blocks
  {
    var p: nat :| p <= |blocks| && after == blocks[..p] + [b] + blocks[p..];
    assert after[p] == b;
    forall x | x in blocks ensures x in after && x.addr != b.addr {
      var k :| 0 <= k < |blocks| && blocks[k] == x;
      OldBlockIsAway(blocks, after, low, high, b, p, k);
    }
  }

  lemma OldBlockIsAway(blocks: seq<Block>, after: seq<Block>, low: nat, high: nat, b: Block, p: nat, k: nat)
    requires p <= |blocks| && k < |blocks| && after == blocks[..p] + [b] + blocks[p..] && Packed(after, low, high)
    ensures blocks[k] in after && blocks[k].addr != b.addr
  {
    if k < p {
      assert after[k] == blocks[k];
      PackedBlocksAreDisjoint(after, low, high, k, p);
    } else {
      assert after[k + 1] == blocks[k];
      PackedBlocksAreDisjoint(after, low, high, p, k + 1);
    }
  }

  lemma TracksAfterGain(blocks: seq<Block>, after: seq<Block>, low: nat, high: nat, b: Block, alignment: nat,
                        held: seq<Held>)
    requires Packed(after, low, high) && Gains(blocks, after, b) && Tracks(blocks, held)
    ensures Tracks(after, held + [Held(b, alignment)])
  {
    var held' := held + [Held(b, alignment)];
    GainedBlocks(blocks, after, low, high, b);
    forall i: nat ensures HeldIsLive(after, held', i) { assert HeldIsLive(blocks, held, i); }
    forall i: nat, j: nat ensures HeldOnce(held', i, j) { assert HeldOnce(held, i, j) && HeldIsLive(blocks, held, i); }
    forall x: Block ensures LiveIsHeld(after, held', x) {
      assert LiveIsHeld(blocks, held, x);
      if x == b {
        assert held'[|held|].block == x;
      } else if x in after {
        var i :| 0 <= i < |held| && held[i].block == x;
        assert held'[i].block == x;
      }
    }
  }

  lemma TracksAfterLoss(blocks: seq<Block>, low: nat, high: nat, p: nat, held: seq<Held>, k: nat)
    requires Packed(blocks, low, high) && Tracks(blocks, held) && p < |blocks| && k < |held|
    requires held[k].block == blocks[p]
    ensures Tracks(blocks[..p] + blocks[p + 1..], held[..k] + held[k + 1..])
  {
    var after, held' := blocks[..p] + blocks[p + 1..], held[..k] + held[k + 1..];
    forall i: nat ensures HeldIsLive(after, held', i) {
      if i < |held'| {
        var m: nat := if i < k then i else i + 1;
        assert held'[i] == held[m] && HeldIsLive(blocks, held, m);
        assert HeldOnce(held, if m < k then m else k, if m < k then k else m);
        StaysIn(blocks, p, held[m].block);
      }
    }
    forall i: nat, j: nat ensures HeldOnce(held', i, j) {
      assert HeldOnce(held, if i < k then i else i + 1, if j < k then j else j + 1);
    }
    forall x: Block ensures LiveIsHeld(after, held', x) {
      if x in after {
        ComesFrom(blocks, low, high, p, x);
        assert LiveIsHeld(blocks, held, x);
        var i :| 0 <= i < |held| && held[i].block == x;
        assert held'[if i < k then i else i - 1] == held[i];
      }
    }
  }

  lemma StaysIn(blocks: seq<Block>, p: nat, x: Block)
    requires p < |blocks| && x in blocks && x != blocks[p]
    ensures x in blocks[..p] + blocks[p + 1..]
  {
    var q :| 0 <= q < |blocks| && blocks[q] == x;
    assert (blocks[..p] + blocks[p + 1..])[if q < p then q else q - 1] == x;
  }

  lemma ComesFrom(blocks: seq<Block>, low: nat, high: nat, p: nat, x: Block)
    requires Packed(blocks, low, high) && p < |blocks| && x in blocks[..p] + blocks[p + 1..]
    ensures x in blocks && x != blocks[p]
  {
    var after := blocks[..p] + blocks[p + 1..];
    var q :| 0 <= q < |after| && after[q] == x;
    var m := if q < p then q else q + 1;
    assert blocks[m] == x;
    PackedBlocksAreDisjoint(blocks, low, high, if m < p then m else p, if m < p then p else m);
  }

  // What every run leaves: the blocks held lie inside the heap, header and tail included, no two
  // overlap, and their data is aligned as asked.
  ghost predicate Separate(held: seq<Held>, low: nat, high: nat)
  {
    && (forall i :: 0 <= i < |held| ==>
          && low <= held[i].block.addr && held[i].block.End() <= high
          && 0 < held[i].alignment && held[i].block.Data() % held[i].alignment == 0)
    && (forall i, j :: 0 <= i < j < |held| ==>
          held[i].block.End() <= held[j].block.addr || held[j].block.End() <= held[i].block.addr)
  }

  ghost predicate AllAligned(held: seq<Held>)
  {
    forall i :: 0 <= i < |held| ==> 0 < held[i].alignment && held[i].block.Data() % held[i].alignment == 0
  }

  lemma HeldAreSeparate(blocks: seq<Block>, low: nat, high: nat, held: seq<Held>)
    requires Packed(blocks, low, high) && Tracks(blocks, held) && AllAligned(held)
    ensures Separate(held, low, high)
  {
    forall i, j | 0 <= i < |held| && 0 <= j < |held|
      ensures low <= held[i].block.addr && held[i].block.End() <= high
      ensures i != j ==> held[i].block.End() <= held[j].block.addr || held[j].block.End() <= held[i].block.addr
    {
      assert HeldIsLive(blocks, held, i) && HeldIsLive(blocks, held, j);
      assert HeldOnce(held, if i < j then i else j, if i < j then j else i);
      ApartIfDifferent(blocks, low, high, held[i].block, held[j].block);
    }
  }

  // ----- requests and answers -----

  // What the client learns: the outcome of an allocation, or whether there was something to free.
  datatype Answer = Got(result: Allocation) | Returned | NotHeld

  // What the client holds after an answer.
  function HeldAfter(held: seq<Held>, q: Request, a: Answer): seq<Held>
  {
    match q
    case Get(size, tag, alignment, _) =>
      if a.Got? && a.result.Allocated? && ENTRY_SIZE <= a.result.data
      then held + [Held(Block(a.result.data - ENTRY_SIZE, size, tag), AlignmentFor(alignment))]
      else held
    case Return(i) => if i < |held| then held[..i] + held[i + 1..] else held
  }

  // A run cannot go on behind a failed ASSERT, or once the restart entry is gone.
  predicate Stops(s: HeapState, held: seq<Held>, q: Request, a: Answer)
  {
    match q
    case Get(_, _, _, _) => a == Got(Aborted)
    case Return(i) => i < |held| && s.restart == Entry(held[i].block.addr)
  }

  // The heap answers request q with a and goes from s to s'.
  ghost predicate Serves(s: HeapState, held: seq<Held>, q: Request, a: Answer, s': HeapState)
  {
    match q
    case Get(size, tag, alignment, panicIfFail) =>
      && a.Got? && AlignmentFor(alignment) <= QWORD_SIZE
      && a.result == s.Answer(size, tag, AlignmentFor(alignment), panicIfFail)
      && s.AllocatesTo(size, tag, AlignmentFor(alignment), a.result, s')
    case Return(i) =>
      if i < |held| then a == Returned && Loses(s, held[i].block, s') else a == NotHeld && s' == s
  }

  ghost predicate Loses(s: HeapState, b: Block, s': HeapState)
  {
    exists p: nat :: p < |s.blocks| && s.blocks[p] == b && s' == s.(blocks := s.blocks[..p] + s.blocks[p + 1..])
  }

  // The requests are answered one by one, up to the first one that stops the run.
  ghost predicate Runs(s: HeapState, held: seq<Held>, requests: seq<Request>, answers: seq<Answer>, s': HeapState,
                       held': seq<Held>, stopped: bool)
    decreases |requests|
  {
    if requests == [] then answers == [] && s' == s && held' == held && !stopped
    else
      && answers != []
      && exists s1: HeapState ::
           && Serves(s, held, requests[0], answers[0], s1)
           && var held1 := HeldAfter(held, requests[0], answers[0]);
              if Stops(s, held, requests[0], answers[0]) then |answers| == 1 && s' == s1 && held' == held1 && stopped
              else Runs(s1, held1, requests[1..], answers[1..], s', held', stopped)
  }

  ghost predicate Allowed(q: Request)
  {
    q.Get? ==> q.size < DWORD_SIZE && q.alignment < DWORD_SIZE && (q.alignment == 0 || IsPowerOf2(q.alignment))
  }

  // ----- the heap serves them -----

  lemma StillAligned(s: HeapState, held: seq<Held>, q: Request, a: Answer, s': HeapState)
    requires AllAligned(held) && Serves(s, held, q, a, s')
    ensures AllAligned(HeldAfter(held, q, a))
  {
    var held' := HeldAfter(held, q, a);
    forall k | 0 <= k < |held'| ensures 0 < held'[k].alignment && held'[k].block.Data() % held'[k].alignment == 0 {
      if q.Return? && q.i < |held| { assert held'[k] == held[if k < q.i then k else k + 1]; }
    }
  }

  method Serve(h: Heap, q: Request, held: seq<Held>) returns (a: Answer, stopped: bool)
    requires h.Valid() && h.RestartIsLive() && Tracks(h.blocks, held) && Allowed(q)
    modifies h
    ensures h.Valid() && (!stopped ==> h.RestartIsLive())
    ensures Serves(old(h.State()), held, q, a, h.State()) && stopped == Stops(old(h.State()), held, q, a)
    ensures Tracks(h.blocks, HeldAfter(held, q, a))
  {
    match q {
      case Get(size, tag, alignment, panicIfFail) =>
        a := GetBlock(h, q, held);
        stopped := a.result == Aborted;
      case Return(i) =>
        a, stopped := NotHeld, false;
        if i < |held| {
          ReturnBlock(h, held, i);
          a, stopped := Returned, !h.RestartIsLive();
        }
    }
  }

  // Allocate, as far as it is a step of the heap.
  method AllocateFrom(h: Heap, size: nat, tag: nat, alignment: nat, panicIfFail: bool) returns (result: Allocation)
    requires h.Valid() && h.RestartIsLive() && size < DWORD_SIZE && alignment < DWORD_SIZE
    requires alignment == 0 || IsPowerOf2(alignment)
    modifies h
    ensures h.Valid() && h.RestartIsLive() && AlignmentFor(alignment) <= QWORD_SIZE
    ensures result == old(h.State()).Answer(size, tag, AlignmentFor(alignment), panicIfFail)
    ensures old(h.State()).AllocatesTo(size, tag, AlignmentFor(alignment), result, h.State())
  {
    result := h.Allocate(size, tag, alignment, panicIfFail);
  }

  method GetBlock(h: Heap, q: Request, held: seq<Held>) returns (a: Answer)
    requires h.Valid() && h.RestartIsLive() && Tracks(h.blocks, held) && Allowed(q) && q.Get?
    modifies h
    ensures h.Valid() && h.RestartIsLive() && a.Got?
    ensures Serves(old(h.State()), held, q, a, h.State()) && Tracks(h.blocks, HeldAfter(held, q, a))
  {
    var result := AllocateFrom(h, q.size, q.tag, q.alignment, q.panicIfFail);
    a := Got(result);
    TracksAfterGet(old(h.State()), held, q, result, h.State());
  }

  lemma TracksAfterGet(s: HeapState, held: seq<Held>, q: Request, result: Allocation, s': HeapState)
    requires q.Get? && 0 < AlignmentFor(q.alignment) <= QWORD_SIZE
    requires s.AllocatesTo(q.size, q.tag, AlignmentFor(q.alignment), result, s')
    requires Packed(s'.blocks, s'.Start(), s'.Limit()) && Tracks(s.blocks, held)
    ensures Tracks(s'.blocks, HeldAfter(held, q, Got(result)))
  {
    if result.Allocated? {
      var b := Block(result.data - ENTRY_SIZE, q.size, q.tag);
      TracksAfterGain(s.blocks, s'.blocks, s'.Start(), s'.Limit(), b, AlignmentFor(q.alignment), held);
    }
  }

  method ReturnBlock(h: Heap, held: seq<Held>, i: nat)
    requires h.Valid() && h.RestartIsLive() && Tracks(h.blocks, held) && i < |held|
    modifies h
    ensures h.Valid() && Tracks(h.blocks, held[..i] + held[i + 1..]) && Loses(old(h.State()), held[i].block, h.State())
    ensures h.RestartIsLive() <==> old(h.restart) != Entry(held[i].block.addr)
  {
    var b := held[i].block;
    ghost var blocks := h.blocks;
    assert HeldIsLive(blocks, held, i);
    ghost var p :| 0 <= p < |blocks| && blocks[p] == b;
    var aborted;
    ghost var m;
    aborted, m := h.Free(b.Data(), b.tag);
    ApartIfDifferent(blocks, h.Start(), h.Limit(), b, blocks[m]);
    TracksAfterLoss(blocks, h.Start(), h.Limit(), m, held, i);
  }

  // Every run: the answers are those of the heap, and in the end what the client holds is inside the
  // heap, pairwise disjoint and aligned as asked, and is exactly what the answers say.
  method Run(h: Heap, requests: seq<Request>, held: seq<Held>)
    returns (answers: seq<Answer>, held': seq<Held>, stopped: bool)
    requires h.Valid() && h.RestartIsLive() && Tracks(h.blocks, held) && AllAligned(held)
    requires forall n :: 0 <= n < |requests| ==> Allowed(requests[n])
    modifies h
    ensures Runs(old(h.State()), held, requests, answers, h.State(), held', stopped)
    ensures h.Valid() && Tracks(h.blocks, held') && Separate(held', h.Start(), h.Limit())
    decreases |requests|
  {
    answers, held', stopped := [], held, false;
    if requests == [] {
      HeldAreSeparate(h.blocks, h.Start(), h.Limit(), held);
      return;
    }
    var a;
    a, stopped := Serve(h, requests[0], held);
    ghost var s1 := h.State();
    held' := HeldAfter(held, requests[0], a);
    StillAligned(old(h.State()), held, requests[0], a, s1);
    if stopped {
      HeldAreSeparate(h.blocks, h.Start(), h.Limit(), held');
    } else {
      answers, held', stopped := Run(h, requests[1..], held');
    }
    RunsFirst(old(h.State()), held, requests, a, s1, answers, h.State(), held', stopped);
    answers := [a] + answers;
  }

  lemma RunsFirst(s: HeapState, held: seq<Held>, requests: seq<Request>, a: Answer, s1: HeapState, rest: seq<Answer>,
                  s': HeapState, held': seq<Held>, stopped: bool)
    requires requests != [] && Serves(s, held, requests[0], a, s1)
    requires var held1 := HeldAfter(held, requests[0], a);
      if Stops(s, held, requests[0], a) then rest == [] && s' == s1 && held' == held1 && stopped
      else Runs(s1, held1, requests[1..], rest, s', held', stopped)
    ensures Runs(s, held, requests, [a] + rest, s', held', stopped)
  {
    assert ([a] + rest)[1..] == rest && ([a] + rest)[0] == a;
  }

  // ----- a run in which the search fails its ASSERT -----

  // A new block goes where its address says.
  lemma GainsAt(blocks: seq<Block>, after: seq<Block>, low: nat, high: nat, b: Block, p: nat)
    requires Packed(after, low, high) && Gains(blocks, after, b) && p <= |blocks|
    requires (p > 0 ==> blocks[p - 1].addr < b.addr) && (p < |blocks| ==> b.addr < blocks[p].addr)
    ensures after == blocks[..p] + [b] + blocks[p..]
  {
    var q: nat :| q <= |blocks| && after == blocks[..q] + [b] + blocks[q..];
    assert after[q] == b;
    if q < p {
      assert after[p] == blocks[p - 1];
      PackedBlocksAreDisjoint(after, low, high, q, p);
    } else if p < q {
      assert after[p] == blocks[p];
      PackedBlocksAreDisjoint(after, low, high, p, q);
    }
  }

  // With alignment 1 nothing is padded.
  lemma Unpadded(start: nat, size: nat, tag: nat, available: int)
    requires start + ENTRY_SIZE + DWORD_SIZE <= QWORD_SIZE
    ensures IsPowerOf2(1) && Placed(start, size, tag, 1) == Block(start, size, tag)
    ensures Fits(start, size, 1, available) <==> ENTRY_SIZE + size + TAIL_SIZE <= available
  {
    assert Pow2(0) == 1;
    AlignUpperRoundsUp(start + ENTRY_SIZE, 1);
  }

  // Four blocks that fill a heap of 64 KB, one that is smaller than the hole left by the third, and
  // what the heap holds at four moments.
  const BASE: nat := 0x10_0000
  const START: nat := BASE + HEADER_SIZE
  const END: nat := BASE + 0x1_0000
  const BLOCK_A: Block := Block(START, 64, 1)
  const BLOCK_B: Block := Block(START + 100, 64, 1)
  const BLOCK_C: Block := Block(START + 200, 1000, 1)
  const BLOCK_D: Block := Block(START + 1236, 64160, 1)
  const BLOCK_E: Block := Block(START + 200, 64, 1)

  function Moment(blocks: seq<Block>, restart: Cursor): HeapState { HeapState(BASE, 0x1_0000, blocks, restart) }

  lemma BumpAnswers(blocks: seq<Block>, size: nat)
    requires 0 < size && ENTRY_SIZE + size + TAIL_SIZE <= Moment(blocks, ListHead).Remaining()
    requires Moment(blocks, ListHead).FreeAddress() + ENTRY_SIZE + size + TAIL_SIZE + ENTRY_SIZE <= END
    ensures var s := Moment(blocks, ListHead);
      s.FitsAtEnd(size, 1) && s.Answer(size, 1, 1, false) == Allocated(s.FreeAddress() + ENTRY_SIZE)
  {
    var s := Moment(blocks, ListHead);
    Unpadded(s.FreeAddress(), size, 1, s.Limit() - s.FreeAddress() - ENTRY_SIZE);
  }

  lemma Sums(b: Block, rest: seq<Block>, start: nat)
    ensures TotalFootprint([b] + rest) == b.Footprint() + TotalFootprint(rest)
    ensures Holes([b] + rest, start) == b.addr - start + Holes(rest, b.End())
  {
    assert ([b] + rest)[1..] == rest;
  }

  lemma HoleAnswers()
    ensures var s := Moment([BLOCK_A, BLOCK_B, BLOCK_D], ListHead);
      !s.FitsAtEnd(64, 1) && s.Answer(64, 1, 1, false) == Allocated(BLOCK_E.Data())
  {
    var blocks := [BLOCK_A, BLOCK_B, BLOCK_D];
    var s := Moment(blocks, ListHead);
    Sums(BLOCK_D, [], START + 200);
    Sums(BLOCK_B, [BLOCK_D], START + 100);
    Sums(BLOCK_A, [BLOCK_B, BLOCK_D], START);
    assert [BLOCK_D] + [] == [BLOCK_D] && [BLOCK_B] + [BLOCK_D] == [BLOCK_B, BLOCK_D];
    assert [BLOCK_A] + [BLOCK_B, BLOCK_D] == blocks;
    assert s.Remaining() == 1068 && Holes(blocks, s.Start()) == 1036;
    Unpadded(s.FreeAddress(), 64, 1, s.Limit() - s.FreeAddress() - ENTRY_SIZE);
    Unpadded(BLOCK_A.End(), 64, 1, 0);
    Unpadded(BLOCK_B.End(), 64, 1, BLOCK_D.addr - BLOCK_B.End());
    FirstFitIs(blocks, 0, 64, 1, 2);
  }

  lemma SearchFails()
    ensures Moment([BLOCK_A, BLOCK_B, BLOCK_E, BLOCK_D], Entry(BLOCK_E.addr)).Answer(64, 1, 1, false) == Aborted
  {
    var blocks := [BLOCK_A, BLOCK_B, BLOCK_E, BLOCK_D];
    var s := Moment(blocks, Entry(BLOCK_E.addr));
    Sums(BLOCK_D, [], START + 300);
    Sums(BLOCK_E, [BLOCK_D], START + 200);
    Sums(BLOCK_B, [BLOCK_E, BLOCK_D], START + 100);
    Sums(BLOCK_A, [BLOCK_B, BLOCK_E, BLOCK_D], START);
    assert [BLOCK_D] + [] == [BLOCK_D] && [BLOCK_E] + [BLOCK_D] == [BLOCK_E, BLOCK_D];
    assert [BLOCK_B] + [BLOCK_E, BLOCK_D] == [BLOCK_B, BLOCK_E, BLOCK_D];
    assert [BLOCK_A] + [BLOCK_B, BLOCK_E, BLOCK_D] == blocks;
    assert s.Remaining() == 968 && Holes(blocks, s.Start()) == 936;
    assert blocks[..3] == [BLOCK_A, BLOCK_B, BLOCK_E];
    Unpadded(s.FreeAddress(), 64, 1, s.Limit() - s.FreeAddress() - ENTRY_SIZE);
  }

  // The run itself: allocate A, B, C and D, free C, and allocate twice what fits in the hole.
  method SearchAssertFires() returns (result: Allocation)
    ensures result == Aborted
  {
    Unpadded(0, 0, 0, 0);
    var h := FillWithHole();
    SearchFails();
    result := AllocateFrom(h, 64, 1, 1, false);
  }

  // From the same heap, freeing the restart entry leaves the pointer to it dangling.
  method RestartDangles() returns (h: Heap, aborted: bool)
    ensures h.Valid() && !aborted && !h.RestartIsLive()
  {
    h := FillWithHole();
    ghost var freed;
    assert h.blocks[2] == BLOCK_E;
    aborted, freed := h.Free(BLOCK_E.Data(), 1);
    assert freed == 2;
  }

  method FillWithHole() returns (h: Heap)
    ensures fresh(h) && h.Valid() && h.base == BASE && h.maximum == 0x1_0000
    ensures h.blocks == [BLOCK_A, BLOCK_B, BLOCK_E, BLOCK_D] && h.restart == Entry(BLOCK_E.addr)
  {
    var status, heap := HeapInit(BASE, 0x1_0000);
    h := heap;
    Fill(h);
    FreeThird(h);
    RefillHole(h);
  }

  method Fill(h: Heap)
    requires h.Valid() && h.base == BASE && h.maximum == 0x1_0000 && h.blocks == [] && h.restart == ListHead
    modifies h
    ensures h.Valid() && h.blocks == [BLOCK_A, BLOCK_B, BLOCK_C, BLOCK_D] && h.restart == ListHead
  {
    AllocateNext(h, BLOCK_A, 0);
    AllocateNext(h, BLOCK_B, 100);
    AllocateNext(h, BLOCK_C, 200);
    AllocateNext(h, BLOCK_D, 1236);
  }

  // A block that goes to the end.
  method AllocateNext(h: Heap, b: Block, ghost used: nat)
    requires h.Valid() && h.base == BASE && h.maximum == 0x1_0000 && h.restart == ListHead && b.tag == 1 && 0 < b.size
    requires TotalFootprint(h.blocks) == used && used + HEADER_SIZE + b.Footprint() <= 0x1_0000
    requires b.addr == EndOfLast(h.blocks, START) && b.End() + ENTRY_SIZE <= END
    modifies h
    ensures h.Valid() && h.blocks == old(h.blocks) + [b] && h.restart == ListHead
    ensures TotalFootprint(h.blocks) == used + b.Footprint()
  {
    ghost var blocks := h.blocks;
    BumpAnswers(blocks, b.size);
    Unpadded(b.addr, b.size, 1, 0);
    var result := AllocateFrom(h, b.size, 1, 1, false);
    if blocks != [] { PackedBlocksAreDisjoint(blocks, START, END, |blocks| - 1, |blocks| - 1); }
    GainsAt(blocks, h.blocks, START, END, b, |blocks|);
    assert blocks[..|blocks|] == blocks && [b][1..] == [];
    TotalFootprintOfConcat(blocks, [b]);
  }

  method FreeThird(h: Heap)
    requires h.Valid() && h.base == BASE && h.maximum == 0x1_0000 && h.restart == ListHead
    requires h.blocks == [BLOCK_A, BLOCK_B, BLOCK_C, BLOCK_D]
    modifies h
    ensures h.Valid() && h.blocks == [BLOCK_A, BLOCK_B, BLOCK_D] && h.restart == ListHead
  {
    assert h.blocks[2] == BLOCK_C;
    var aborted;
    ghost var freed;
    aborted, freed := h.Free(BLOCK_C.Data(), 1);
    assert freed == 2;
  }

  // A block that goes to the hole.
  method RefillHole(h: Heap)
    requires h.Valid() && h.base == BASE && h.maximum == 0x1_0000 && h.restart == ListHead
    requires h.blocks == [BLOCK_A, BLOCK_B, BLOCK_D]
    modifies h
    ensures h.Valid() && h.blocks == [BLOCK_A, BLOCK_B, BLOCK_E, BLOCK_D] && h.restart == Entry(BLOCK_E.addr)
  {
    Unpadded(0, 0, 0, 0);
    HoleAnswers();
    assert h.State() == Moment([BLOCK_A, BLOCK_B, BLOCK_D], ListHead);
    var result := AllocateFrom(h, 64, 1, 1, false);
    assert Block(result.data - ENTRY_SIZE, 64, 1) == BLOCK_E;
    GainsAt([BLOCK_A, BLOCK_B, BLOCK_D], h.blocks, START, END, BLOCK_E, 2);
  }
}
