/**
  The DMA descriptor table built by _AtaPrepareDmaTransfer (src/Ata/src/ata_operations.c): the
  physical ranges of a buffer, as its memory descriptor list gives them, are split where they cross
  a 64 KB boundary.
 */
module PrdTable {

  import opened Basics
  import opened Bits
  import opened Mdl

  const SECTOR_SIZE: nat := 512
  const BOUNDARY: nat := 0x1_0000
  const MAX_LENGTH: nat := 0xFFFF
  const MAX_ADDRESS: nat := 0xFFFF_FFFF
  const ALIGNMENT: nat := 4

  // PRD_ENTRY: a DWORD, a WORD and a bit
  datatype Entry = Entry(physicalAddress: nat, byteCount: nat, last: bool)

  // NoMdl: there is no descriptor list.  Aborted: an ASSERT failed.
  datatype Status = Success | NoMdl | AddressTooHigh | AlignmentError | SpanTooLarge | Aborted

  // _AtaValidateTranslationPair
  function ValidateTranslationPair(p: Pair): Status
  {
    if p.address > MAX_ADDRESS then AddressTooHigh
    else if !IsAddressAligned(p.address, ALIGNMENT) then AlignmentError
    else if p.numberOfBytes > MAX_LENGTH then SpanTooLarge
    else if !IsAddressAligned(p.numberOfBytes, ALIGNMENT) then AlignmentError
    else Success
  }

  predicate IsValid(p: Pair)
  {
    && p.address <= MAX_ADDRESS && p.address % ALIGNMENT == 0
    && p.numberOfBytes <= MAX_LENGTH && p.numberOfBytes % ALIGNMENT == 0
  }

  lemma ValidPair(p: Pair)
    requires Fits(p)
    ensures ValidateTranslationPair(p) == Success <==> IsValid(p)
  {
    assert Pow2(2) == ALIGNMENT;
    AlignLowerRoundsDown(p.address, ALIGNMENT);
    AlignLowerRoundsDown(p.numberOfBytes, ALIGNMENT);
  }

  // Which refusal a pair gets: an address beyond 4 GB before an unaligned one, and that before a range
  // that is too long; then an unaligned length.
  ghost predicate IsRefusalOf(p: Pair, status: Status)
  {
    && status in {AddressTooHigh, AlignmentError, SpanTooLarge}
    && (status == AddressTooHigh <==> p.address > 0xFFFF_FFFF)
    && (status == SpanTooLarge <==> p.address <= 0xFFFF_FFFF && p.address % 4 == 0 && p.numberOfBytes > 0xFFFF)
    && (status == AlignmentError <==>
          p.address <= 0xFFFF_FFFF && (p.address % 4 != 0 || (p.numberOfBytes <= 0xFFFF && p.numberOfBytes % 4 != 0)))
  }

  lemma RefusalIsExact(p: Pair)
    requires Fits(p)
    ensures ValidateTranslationPair(p) == Success <==>
      p.address <= 0xFFFF_FFFF && p.address % 4 == 0 && p.numberOfBytes <= 0xFFFF && p.numberOfBytes % 4 == 0
    ensures ValidateTranslationPair(p) != Success ==> IsRefusalOf(p, ValidateTranslationPair(p))
  {
    assert Pow2(2) == ALIGNMENT;
    AlignLowerRoundsDown(p.address, ALIGNMENT);
    AlignLowerRoundsDown(p.numberOfBytes, ALIGNMENT);
  }

  // The status for a list of pairs: that of the first one that is refused.
  ghost predicate IsVerdict(pairs: seq<Pair>, status: Status)
  {
    if AllValid(pairs) then status == Success
    else exists k :: 0 <= k < |pairs| && !IsValid(pairs[k]) && AllValid(pairs[..k]) && IsRefusalOf(pairs[k], status)
  }

  lemma {:induction false} FirstRefusalIsVerdict(pairs: seq<Pair>)
    requires forall i :: 0 <= i < |pairs| ==> Fits(pairs[i])
    ensures IsVerdict(pairs, FirstRefusal(pairs))
  {
    if pairs != [] {
      RefusalIsExact(pairs[0]);
      ValidPair(pairs[0]);
      if ValidateTranslationPair(pairs[0]) != Success {
        assert pairs[..0] == [];
      } else {
        FirstRefusalIsVerdict(pairs[1..]);
        VerdictBehind(pairs, FirstRefusal(pairs));
      }
    }
  }

  lemma VerdictBehind(pairs: seq<Pair>, status: Status)
    requires pairs != [] && IsValid(pairs[0]) && IsVerdict(pairs[1..], status)
    ensures IsVerdict(pairs, status)
  {
    var rest := pairs[1..];
    if AllValid(rest) {
      forall i | 0 <= i < |pairs| ensures IsValid(pairs[i]) { assert 0 < i ==> pairs[i] == rest[i - 1]; }
    } else {
      var k :| 0 <= k < |rest| && !IsValid(rest[k]) && AllValid(rest[..k]) && IsRefusalOf(rest[k], status);
      assert pairs[k + 1] == rest[k];
      var front := pairs[..k + 1];
      forall i | 0 <= i < |front| ensures IsValid(front[i]) { assert 0 < i ==> front[i] == rest[..k][i - 1]; }
    }
  }

  // ----- the entries of one pair -----

  // The bytes up to the next 64 KB boundary.
  function UpToBoundary(address: nat): (n: nat)
    ensures n < BOUNDARY
  {
    if address % BOUNDARY == 0 then 0 else BOUNDARY - address % BOUNDARY
  }

  // Whether a range is written as two entries; an empty range is, if it lies on a boundary.
  predicate IsSplit(address: nat, count: nat)
  {
    if count == 0 then address % BOUNDARY == 0 else address % BOUNDARY + count > BOUNDARY
  }

  // The entries for `count` bytes from `address` on; a second one beyond 4 GB starts at 0 again.
  function Entries(address: nat, count: nat): seq<Entry>
  {
    if !IsSplit(address, count) then
      [Entry(address, count, false)]
    else
      var first := UpToBoundary(address);
      [Entry(address, first, false),
       Entry(if address + first == DWORD_SIZE then 0 else address + first, count - first, false)]
  }

  // The bytes an entry transfers: to the controller a ByteCount of 0 means 64 KB.
  function Transferred(e: Entry): nat { if e.byteCount == 0 then BOUNDARY else e.byteCount }

  // The addresses the controller transfers for a list of entries, in order.
  function Bytes(entries: seq<Entry>): seq<nat>
  {
    if entries == [] then [] else Span(entries[0].physicalAddress, Transferred(entries[0])) + Bytes(entries[1..])
  }

  // What the controller asks of an entry: some bytes, none beyond a 64 KB boundary, dword units.
  predicate EntryOk(e: Entry)
  {
    && 0 < e.byteCount && e.physicalAddress % BOUNDARY + e.byteCount <= BOUNDARY && e.physicalAddress < DWORD_SIZE
    && e.physicalAddress % ALIGNMENT == 0 && e.byteCount % ALIGNMENT == 0
  }

  // So all its bytes lie in one 64 KB region below 4 GB.
  lemma EntryStaysInRegion(e: Entry, k: nat)
    requires EntryOk(e) && k < e.byteCount
    ensures (e.physicalAddress + k) / 0x1_0000 == e.physicalAddress / 0x1_0000 && e.physicalAddress + k < 0x1_0000_0000
    ensures Transferred(e) == e.byteCount
  {
    var q, r := e.physicalAddress / BOUNDARY, e.physicalAddress % BOUNDARY;
    RemainderIs(e.physicalAddress + k, BOUNDARY, q, r + k);
  }

  ghost predicate AllOk(entries: seq<Entry>) { forall i :: 0 <= i < |entries| ==> EntryOk(entries[i]) }

  lemma BoundaryIsPower()
    ensures IsPowerOf2(BOUNDARY)
  {
    Pow2Values();
    assert BOUNDARY == Pow2(16);
  }

  // The macros of the source, with the cast to WORD, decide and measure the split like that.
  method CrossesBoundary(address: nat, count: nat) returns (crosses: bool)
    requires address <= MAX_ADDRESS && count <= MAX_LENGTH
    ensures crosses == IsSplit(address, count)
  {
    BoundaryIsPower();
    crosses := !IsInSameBoundary(address, count, BOUNDARY);
    if 0 < count { SameBoundary(address, count, BOUNDARY); } else { EmptyRange(address); }
  }

  method BytesToBoundary(address: nat) returns (n: nat)
    requires address <= MAX_ADDRESS
    ensures n == UpToBoundary(address)
  {
    BoundaryIsPower();
    AlignLowerRoundsDown(address, BOUNDARY);
    n := (BOUNDARY as int - AddressOffset(address, BOUNDARY)) % BOUNDARY;
  }

  lemma EmptyRange(address: nat)
    requires address <= MAX_ADDRESS && IsPowerOf2(BOUNDARY)
    ensures IsInSameBoundary(address, 0, BOUNDARY) <==> address % BOUNDARY != 0
  {
    AlignLowerRoundsDown(address, BOUNDARY);
    if address == 0 {
      AlignLowerRoundsDown(QWORD_SIZE - 1, BOUNDARY);
      RemainderIs(-1, QWORD_SIZE, -1, QWORD_SIZE - 1);
    } else {
      AlignLowerRoundsDown(address - 1, BOUNDARY);
      RemainderIs(address - 1, QWORD_SIZE, 0, address - 1);
      SameRegion(address - 1, address, BOUNDARY);
      StepOntoBoundary(address - 1);
    }
  }

  lemma StepOntoBoundary(x: nat)
    ensures x % BOUNDARY + 1 < BOUNDARY <==> (x + 1) % BOUNDARY != 0
  {
  }

  lemma BytesOfTwo(a: Entry, b: Entry)
    ensures Bytes([a]) == Span(a.physicalAddress, Transferred(a))
    ensures Bytes([a, b]) == Span(a.physicalAddress, Transferred(a)) + Span(b.physicalAddress, Transferred(b))
  {
    assert [a, b][1..] == [b] && [b][1..] == [];
    assert Bytes([a]) == Span(a.physicalAddress, Transferred(a)) + [];
    assert Bytes([b]) == Span(b.physicalAddress, Transferred(b)) + [];
  }

  lemma EntriesAreOk(address: nat, count: nat)
    requires address <= MAX_ADDRESS && count <= MAX_LENGTH && address % ALIGNMENT == 0 && count % ALIGNMENT == 0
    ensures var es := Entries(address, count); 1 <= |es| <= 2 && (AllOk(es) <==> 0 < count)
  {
    var es := Entries(address, count);
    if count == 0 {
      assert !EntryOk(es[0]);
    } else if IsSplit(address, count) {
      NextBoundary(address);
      DifferenceIsAligned(count, UpToBoundary(address));
    }
  }

  lemma DifferenceIsAligned(a: nat, b: nat)
    requires b <= a && a % ALIGNMENT == 0 && b % ALIGNMENT == 0
    ensures (a - b) % ALIGNMENT == 0
  {
  }

  // The next boundary is a multiple of 64 KB, and 4 GB at most.
  lemma NextBoundary(address: nat)
    requires address <= MAX_ADDRESS
    ensures var b := address + UpToBoundary(address); b % BOUNDARY == 0 && b % ALIGNMENT == 0 && b <= DWORD_SIZE
    ensures address % ALIGNMENT == 0 ==> UpToBoundary(address) % ALIGNMENT == 0
  {
    var b, d, r := address + UpToBoundary(address), address / BOUNDARY, address % BOUNDARY;
    assert address == d * BOUNDARY + r && d <= 0xFFFF;
    var q := if r == 0 then d else d + 1;
    assert b == q * BOUNDARY;
    RemainderIs(b, BOUNDARY, q, 0);
    RemainderIs(b, ALIGNMENT, 0x4000 * q, 0);
    if address % ALIGNMENT == 0 { DifferenceIsAligned(b, address); }
  }

  // The entries transfer the bytes of the range exactly when it has some and ends below 4 GB; for an
  // empty range they transfer 64 KB or 128 KB.
  lemma EntriesDescribe(address: nat, count: nat)
    requires address <= MAX_ADDRESS && count <= MAX_LENGTH
    ensures count <= |Bytes(Entries(address, count))| && (count == |Bytes(Entries(address, count))| <==> 0 < count)
    ensures Bytes(Entries(address, count)) == Span(address, count) <==> 0 < count && address + count <= DWORD_SIZE
  {
    var es := Entries(address, count);
    BytesOfTwo(es[0], es[|es| - 1]);
    NextBoundary(address);
    if |es| == 1 {
      assert es == [es[0]];
      if 0 < count { Unsplit(address, count); }
    } else {
      assert es == [es[0], es[1]];
      if 0 < count {
        var first := UpToBoundary(address);
        assert Bytes(es)[first] == es[1].physicalAddress && Span(address, count)[first] == address + first;
        if address + first != DWORD_SIZE {
          assert address + count <= DWORD_SIZE by {
            BelowNext(address + first, count - first);
          }
        }
      }
    }
  }

  lemma Unsplit(address: nat, count: nat)
    requires address <= MAX_ADDRESS && 0 < count && !IsSplit(address, count)
    ensures address + count <= DWORD_SIZE
  {
  }

  lemma BelowNext(boundary: nat, count: nat)
    requires boundary < DWORD_SIZE && boundary % BOUNDARY == 0 && count <= BOUNDARY
    ensures boundary + count <= DWORD_SIZE
  {
  }

  // ----- the whole table -----

  ghost predicate AllValid(pairs: seq<Pair>)
  {
    forall i :: 0 <= i < |pairs| ==> IsValid(pairs[i])
  }

  // The entries for a request of `remaining` bytes; the last one is not marked yet.
  function TableOf(pairs: seq<Pair>, remaining: nat): seq<Entry>
    decreases |pairs|
  {
    if pairs == [] then []
    else
      var count := Min(pairs[0].numberOfBytes, remaining);
      Entries(pairs[0].address, count) + TableOf(pairs[1..], remaining - count)
  }

  // The bytes of the request: those of the pairs, in order, until there are enough.
  function Wanted(pairs: seq<Pair>, remaining: nat): seq<nat>
    decreases |pairs|
  {
    if pairs == [] then []
    else
      var count := Min(pairs[0].numberOfBytes, remaining);
      Span(pairs[0].address, count) + Wanted(pairs[1..], remaining - count)
  }

  lemma {:induction false} WantedIsPrefix(pairs: seq<Pair>, remaining: nat)
    ensures Wanted(pairs, remaining) == BytesOfPairs(pairs)[..Min(|BytesOfPairs(pairs)|, remaining)]
    decreases |pairs|
  {
    if pairs != [] {
      WantedIsPrefix(pairs[1..], remaining - Min(pairs[0].numberOfBytes, remaining));
    }
  }

  // No range that is used goes beyond 4 GB.
  predicate Below4GB(pairs: seq<Pair>, remaining: nat)
    decreases |pairs|
  {
    pairs != [] ==>
      var count := Min(pairs[0].numberOfBytes, remaining);
      && (count == 0 || pairs[0].address + count <= DWORD_SIZE)
      && Below4GB(pairs[1..], remaining - count)
  }

  // Ranges begin below 4 GB, so that only their last byte matters.
  lemma {:induction false} Below4GBIsAllBytes(pairs: seq<Pair>, remaining: nat)
    requires AllValid(pairs)
    ensures Below4GB(pairs, remaining) <==> AllBelow4GB(Wanted(pairs, remaining))
    decreases |pairs|
  {
    if pairs != [] {
      var count := Min(pairs[0].numberOfBytes, remaining);
      var head, tail := Span(pairs[0].address, count), Wanted(pairs[1..], remaining - count);
      Below4GBIsAllBytes(pairs[1..], remaining - count);
      if AllBelow4GB(head + tail) {
        if 0 < count { assert (head + tail)[count - 1] == pairs[0].address + count - 1; }
        forall k | 0 <= k < |tail| ensures tail[k] < DWORD_SIZE { assert (head + tail)[count + k] == tail[k]; }
      }
    }
  }

  predicate AllBelow4GB(addresses: seq<nat>) { forall k :: 0 <= k < |addresses| ==> addresses[k] < DWORD_SIZE }

  lemma {:induction false} BytesAppend(a: seq<Entry>, b: seq<Entry>)
    ensures Bytes(a + b) == Bytes(a) + Bytes(b)
    decreases |a|
  {
    if a == [] {
      assert a + b == b;
    } else {
      BytesAppend(a[1..], b);
      assert (a + b)[1..] == a[1..] + b;
    }
  }

  lemma SameParts(a: seq<nat>, b: seq<nat>, a': seq<nat>, b': seq<nat>)
    requires |a'| <= |a| && |b'| <= |b|
    ensures a + b == a' + b' <==> a == a' && b == b'
  {
    if a + b == a' + b' {
      assert |a + b| == |a' + b'|;
      assert (a + b)[..|a|] == a && (a' + b')[..|a|] == a';
      assert (a + b)[|a|..] == b && (a' + b')[|a|..] == b';
    }
  }

  // The table transfers exactly the bytes of the request, in order, if and only if every pair is used
  // and no range goes beyond 4 GB; it never transfers fewer.
  lemma {:induction false} TableDescribes(pairs: seq<Pair>, remaining: nat)
    requires AllValid(pairs)
    ensures |Wanted(pairs, remaining)| <= |Bytes(TableOf(pairs, remaining))|
    ensures Bytes(TableOf(pairs, remaining)) == Wanted(pairs, remaining) <==>
      AllUsed(pairs, remaining) && Below4GB(pairs, remaining)
    decreases |pairs|
  {
    if pairs != [] {
      var count := Min(pairs[0].numberOfBytes, remaining);
      var es, rest := Entries(pairs[0].address, count), TableOf(pairs[1..], remaining - count);
      EntriesDescribe(pairs[0].address, count);
      TableDescribes(pairs[1..], remaining - count);
      BytesAppend(es, rest);
      SameParts(Bytes(es), Bytes(rest), Span(pairs[0].address, count), Wanted(pairs[1..], remaining - count));
    }
  }

  lemma AllOkAppend(a: seq<Entry>, b: seq<Entry>)
    ensures AllOk(a + b) <==> AllOk(a) && AllOk(b)
  {
    if AllOk(a + b) {
      forall i | 0 <= i < |a| ensures EntryOk(a[i]) { assert (a + b)[i] == a[i]; }
      forall i | 0 <= i < |b| ensures EntryOk(b[i]) { assert (a + b)[|a| + i] == b[i]; }
    }
  }

  // At most two entries per pair; all of them acceptable to the controller if and only if every
  // pair is used.
  lemma {:induction false} TableIsOk(pairs: seq<Pair>, remaining: nat)
    requires AllValid(pairs) && remaining % ALIGNMENT == 0
    ensures |pairs| <= |TableOf(pairs, remaining)| <= 2 * |pairs|
    ensures AllOk(TableOf(pairs, remaining)) <==> AllUsed(pairs, remaining)
    decreases |pairs|
  {
    if pairs != [] {
      var count := Min(pairs[0].numberOfBytes, remaining);
      EntriesAreOk(pairs[0].address, count);
      TableIsOk(pairs[1..], remaining - count);
      AllOkAppend(Entries(pairs[0].address, count), TableOf(pairs[1..], remaining - count));
    }
  }

  // The status of the first pair that is refused.
  function FirstRefusal(pairs: seq<Pair>): Status
  {
    if pairs == [] then Success
    else if ValidateTranslationPair(pairs[0]) != Success then ValidateTranslationPair(pairs[0])
    else FirstRefusal(pairs[1..])
  }

  // What is left of the request after the pairs.
  function Left(pairs: seq<Pair>, remaining: nat): nat
    decreases |pairs|
  {
    if pairs == [] then remaining else Left(pairs[1..], remaining - Min(pairs[0].numberOfBytes, remaining))
  }

  lemma {:induction false} LeftIsRest(pairs: seq<Pair>, remaining: nat)
    ensures Left(pairs, remaining) == remaining - Min(Total(pairs), remaining)
    decreases |pairs|
  {
    if pairs != [] { LeftIsRest(pairs[1..], remaining - Min(pairs[0].numberOfBytes, remaining)); }
  }

  // No cast to WORD or DWORD loses anything, except for a second entry at 4 GB.
  lemma CastsAreExact(address: nat, count: nat)
    requires address <= MAX_ADDRESS && count <= MAX_LENGTH
    ensures address % DWORD_SIZE == address && count % BOUNDARY == count && (address + 0) % DWORD_SIZE == address
    ensures var first := UpToBoundary(address);
      && (address + first) % DWORD_SIZE == (if address + first == DWORD_SIZE then 0 else address + first)
      && (IsSplit(address, count) ==> first <= count && (count - first) % BOUNDARY == count - first)
  {
    var first := UpToBoundary(address);
    NextBoundary(address);
    RemainderIs(address, DWORD_SIZE, 0, address);
    RemainderIs(count, BOUNDARY, 0, count);
    if address + first == DWORD_SIZE {
      RemainderIs(address + first, DWORD_SIZE, 1, 0);
    } else {
      RemainderIs(address + first, DWORD_SIZE, 0, address + first);
    }
    if IsSplit(address, count) { RemainderIs(count - first, BOUNDARY, 0, count - first); }
  }

  // The body of the loop for a valid pair.
  method WritePair(table: array<Entry>, used: nat, pair: Pair, bytesRemaining: nat)
    returns (used': nat, bytesRemaining': nat)
    requires used + 2 <= table.Length && pair.address <= MAX_ADDRESS && pair.numberOfBytes <= MAX_LENGTH
    modifies table
    ensures used < used' <= used + 2 && bytesRemaining' == bytesRemaining - Min(pair.numberOfBytes, bytesRemaining)
    ensures table[..used'] == old(table[..used]) + Entries(pair.address, Min(pair.numberOfBytes, bytesRemaining))
  {
    CastsAreExact(pair.address, Min(pair.numberOfBytes, bytesRemaining));
    var address := pair.address % DWORD_SIZE;
    var byteCountForPrd := Min(pair.numberOfBytes, bytesRemaining) % BOUNDARY;
    used' := used;
    var byteCountForAlignment := 0;
    var crosses := CrossesBoundary(pair.address, byteCountForPrd);
    if crosses {
      byteCountForAlignment := BytesToBoundary(pair.address);
      table[used'] := Entry(address, byteCountForAlignment, false);
      used' := used' + 1;
    }
    table[used'] := Entry((address + byteCountForAlignment) % DWORD_SIZE,
                          (byteCountForPrd as int - byteCountForAlignment) % BOUNDARY, false);
    bytesRemaining' := bytesRemaining - byteCountForPrd;
    used' := used' + 1;
  }

  // The entry the source marks as the last.
  function MarkLast(t: seq<Entry>): seq<Entry>
    requires t != []
  {
    t[|t| - 1 := t[|t| - 1].(last := true)]
  }

  // i pairs have been accepted and written.
  ghost predicate Progress(pairs: seq<Pair>, request: nat, i: nat, done: seq<Entry>, remaining: nat)
  {
    && i <= |pairs|
    && FirstRefusal(pairs[i..]) == FirstRefusal(pairs) && AllValid(pairs[..i])
    && done + TableOf(pairs[i..], remaining) == TableOf(pairs, request)
    && Left(pairs[i..], remaining) == Left(pairs, request)
  }

  lemma Regroup(a: seq<Entry>, b: seq<Entry>, c: seq<Entry>)
    ensures a + (b + c) == (a + b) + c
  {
  }

  // What the next pair contributes.
  lemma NextPair(pairs: seq<Pair>, i: nat, remaining: nat)
    requires i < |pairs|
    ensures FirstRefusal(pairs[i..]) ==
      if ValidateTranslationPair(pairs[i]) != Success then ValidateTranslationPair(pairs[i])
      else FirstRefusal(pairs[i + 1..])
    ensures var count := Min(pairs[i].numberOfBytes, remaining);
      && TableOf(pairs[i..], remaining) == Entries(pairs[i].address, count) + TableOf(pairs[i + 1..], remaining - count)
      && Left(pairs[i..], remaining) == Left(pairs[i + 1..], remaining - count)
  {
    assert pairs[i..][0] == pairs[i] && pairs[i..][1..] == pairs[i + 1..];
  }

  lemma ProgressStep(pairs: seq<Pair>, request: nat, i: nat, done: seq<Entry>, remaining: nat)
    requires i < |pairs| && Progress(pairs, request, i, done, remaining) && Fits(pairs[i])
    ensures if ValidateTranslationPair(pairs[i]) != Success
      then FirstRefusal(pairs) == ValidateTranslationPair(pairs[i])
            else IsValid(pairs[i]) && var count := Min(pairs[i].numberOfBytes, remaining);
                 Progress(pairs, request, i + 1, done + Entries(pairs[i].address, count), remaining - count)
  {
    assert pairs[..i + 1] == pairs[..i] + [pairs[i]];
    ValidPair(pairs[i]);
    NextPair(pairs, i, remaining);
    var count := Min(pairs[i].numberOfBytes, remaining);
    Regroup(done, Entries(pairs[i].address, count), TableOf(pairs[i + 1..], remaining - count));
  }

  lemma ProgressEnds(pairs: seq<Pair>, request: nat, done: seq<Entry>, remaining: nat)
    ensures Progress(pairs, request, 0, [], request)
    ensures Progress(pairs, request, |pairs|, done, remaining) ==>
      && AllValid(pairs) && FirstRefusal(pairs) == Success
      && done == TableOf(pairs, request) && remaining == request - Min(Total(pairs), request)
  {
    assert pairs[0..] == pairs && pairs[..|pairs|] == pairs && pairs[|pairs|..] == [];
    LeftIsRest(pairs, request);
  }

  // One round of the loop over the pairs
  method FillPair(pairs: seq<Pair>, ghost request: nat, i: nat, table: array<Entry>, used: nat, bytesRemaining: nat)
    returns (status: Status, used': nat, bytesRemaining': nat)
    requires i < |pairs| && Fits(pairs[i]) && used <= 2 * i && table.Length == 2 * |pairs|
    requires Progress(pairs, request, i, table[..used], bytesRemaining)
    modifies table
    ensures status != Success ==> status == FirstRefusal(pairs)
    ensures status == Success ==>
      used' <= 2 * (i + 1) && Progress(pairs, request, i + 1, table[..used'], bytesRemaining')
  {
    ProgressStep(pairs, request, i, table[..used], bytesRemaining);
    used', bytesRemaining' := used, bytesRemaining;
    status := ValidateTranslationPair(pairs[i]);
    if status == Success {
      used', bytesRemaining' := WritePair(table, used, pairs[i], bytesRemaining);
    }
  }

  method FillTable(pairs: seq<Pair>, request: nat, table: array<Entry>)
    returns (status: Status, used: nat, bytesRemaining: nat)
    requires (forall i :: 0 <= i < |pairs| ==> Fits(pairs[i])) && table.Length == 2 * |pairs|
    modifies table
    ensures status == FirstRefusal(pairs)
    ensures status == Success ==>
      used <= table.Length && Progress(pairs, request, |pairs|, table[..used], bytesRemaining)
  {
    bytesRemaining, used, status := request, 0, Success;
    var i := 0;
    ProgressEnds(pairs, request, [], 0);
    while i < |pairs|
      invariant 0 <= i <= |pairs| && used <= 2 * i && Progress(pairs, request, i, table[..used], bytesRemaining)
      invariant status == Success
    {
      status, used, bytesRemaining := FillPair(pairs, request, i, table, used, bytesRemaining);
      if status != Success {
        return;
      }
      i := i + 1;
    }
    ProgressEnds(pairs, request, table[..used], bytesRemaining);
  }

  // _AtaPrepareDmaTransfer, as far as the table goes
  method PrepareTable(pairs: seq<Pair>, sectorCount: nat) returns (status: Status, table: array<Entry>, used: nat)
    requires pairs != [] && (forall i :: 0 <= i < |pairs| ==> Fits(pairs[i])) && 0 < sectorCount < BOUNDARY
    ensures status == if FirstRefusal(pairs) != Success then FirstRefusal(pairs)
                      else if Total(pairs) < sectorCount * SECTOR_SIZE then Aborted else Success
    ensures status != Aborted ==> IsVerdict(pairs, status)
    ensures status == Success ==>
      && AllValid(pairs) && 0 < used <= table.Length && TableOf(pairs, sectorCount * SECTOR_SIZE) != []
      && table[..used] == MarkLast(TableOf(pairs, sectorCount * SECTOR_SIZE))
  {
    var bytesRemaining;
    var request := sectorCount * SECTOR_SIZE;
    table := new Entry[2 * |pairs|](_ => Entry(0, 0, false));
    FirstRefusalIsVerdict(pairs);
    status, used, bytesRemaining := FillTable(pairs, request, table);
    if status != Success {
      return;
    }
    ProgressEnds(pairs, request, table[..used], bytesRemaining);
    if bytesRemaining != 0 {
      return Aborted, table, used;
    }
    TableIsNotEmpty(pairs, request);
    MarkLastEntry(table, used);
  }

  lemma TableIsNotEmpty(pairs: seq<Pair>, remaining: nat)
    requires pairs != []
    ensures TableOf(pairs, remaining) != []
  {
  }

  method MarkLastEntry(table: array<Entry>, used: nat)
    requires 0 < used <= table.Length
    modifies table
    ensures table[..used] == MarkLast(old(table[..used]))
  {
    table[used - 1] := table[used - 1].(last := true);
  }

  // The table for every request the driver accepts: only the last entry is marked; the controller
  // accepts the entries if and only if every pair is used, and transfers exactly the bytes of the
  // request, once each and in order, if and only if also no range goes beyond 4 GB.
  lemma TableIsRight(pairs: seq<Pair>, request: nat)
    requires pairs != [] && AllValid(pairs) && request % ALIGNMENT == 0 && request <= Total(pairs)
    ensures |BytesOfPairs(pairs)| == Total(pairs)
    ensures var t := TableOf(pairs, request);
      && t != [] && |t| <= 2 * |pairs|
      && (AllOk(MarkLast(t)) <==> AllUsed(pairs, request))
      && (Bytes(MarkLast(t)) == BytesOfPairs(pairs)[..request] <==> AllUsed(pairs, request) && Below4GB(pairs, request))
      && forall i :: 0 <= i < |t| ==> (MarkLast(t)[i].last <==> i == |t| - 1)
  {
    var t := TableOf(pairs, request);
    TableIsOk(pairs, request);
    TableDescribes(pairs, request);
    WantedIsPrefix(pairs, request);
    TotalIsLength(pairs);
    BytesIgnoreLast(t, MarkLast(t));
    NoneMarked(pairs, request);
    OkIgnoresLast(t);
  }

  lemma OkIgnoresLast(t: seq<Entry>)
    requires t != []
    ensures AllOk(MarkLast(t)) <==> AllOk(t)
  {
    forall i | 0 <= i < |t| ensures EntryOk(MarkLast(t)[i]) <==> EntryOk(t[i]) {}
    if AllOk(MarkLast(t)) {
      forall i | 0 <= i < |t| ensures EntryOk(t[i]) { assert EntryOk(MarkLast(t)[i]); }
    }
  }

  lemma {:induction false} BytesIgnoreLast(t: seq<Entry>, u: seq<Entry>)
    requires |t| == |u|
    requires forall i :: 0 <= i < |t| ==>
      t[i].physicalAddress == u[i].physicalAddress && t[i].byteCount == u[i].byteCount
    ensures Bytes(t) == Bytes(u)
  {
    if t != [] { BytesIgnoreLast(t[1..], u[1..]); }
  }

  lemma {:induction false} NoneMarked(pairs: seq<Pair>, remaining: nat)
    ensures forall i :: 0 <= i < |TableOf(pairs, remaining)| ==> !TableOf(pairs, remaining)[i].last
    decreases |pairs|
  {
    if pairs != [] { NoneMarked(pairs[1..], remaining - Min(pairs[0].numberOfBytes, remaining)); }
  }

  // ----- from the buffer to the table -----

  // The controller accepts the table, whose last entry is the only one marked, and transfers exactly
  // these bytes if and only if all of them lie below 4 GB.
  ghost predicate Serves(table: seq<Entry>, bytes: seq<nat>)
  {
    && AllOk(table) && (Bytes(table) == bytes <==> AllBelow4GB(bytes))
    && forall i :: 0 <= i < |table| ==> (table[i].last <==> i == |table| - 1)
  }

  // The table serves every buffer whose pairs are accepted.
  lemma BufferIsTransferred(frame: Pages, offset: nat, length: nat)
    requires offset < PAGE_SIZE && 0 < length && length % ALIGNMENT == 0 && offset + length <= DWORD_SIZE - PAGE_SIZE
    requires AllValid(PairsOf(frame, offset, length))
    ensures var pairs := PairsOf(frame, offset, length);
      && length <= Total(pairs) && TableOf(pairs, length) != []
      && Serves(MarkLast(TableOf(pairs, length)), BufferBytes(frame, offset, length))
  {
    var pairs := PairsOf(frame, offset, length);
    BufferIsCovered(frame, offset, length);
    TableIsRight(pairs, length);
    WantedIsPrefix(pairs, length);
    Below4GBIsAllBytes(pairs, length);
  }

  // _AtaPrepareDmaTransfer, with its descriptor list
  method PrepareDmaTransfer(buffer: nat, sectorCount: nat, frame: Pages)
    returns (status: Status, table: array<Entry>, used: nat)
    requires 0 < buffer < QWORD_SIZE && 0 < sectorCount < WORD_SIZE && AreFrames(frame)
    ensures var offset, length := buffer % PAGE_SIZE, sectorCount * SECTOR_SIZE;
      status == if frame(0) + offset == 0 then NoMdl
                else if !AllMapped(frame, PageCount(offset, length)) then Aborted
                else FirstRefusal(PairsOf(frame, offset, length))
    ensures status !in {NoMdl, Aborted} ==>
      IsVerdict(PairsOf(frame, buffer % PAGE_SIZE, sectorCount * SECTOR_SIZE), status)
    ensures status == Success ==>
      && used <= table.Length
      && Serves(table[..used], BufferBytes(frame, buffer % PAGE_SIZE, sectorCount * SECTOR_SIZE))
  {
    var mdl := MdlAllocate(buffer, sectorCount * SECTOR_SIZE, frame);
    table, used := new Entry[0], 0;
    match mdl
    case NotMapped => status := NoMdl;
    case Halted => status := Aborted;
    case Allocated(pairs) =>
      RequestIsSmall(sectorCount);
      PairsAreServed(frame, buffer % PAGE_SIZE, sectorCount * SECTOR_SIZE, pairs);
      status, table, used := PrepareTable(pairs, sectorCount);
  }

  lemma RequestIsSmall(sectorCount: nat)
    requires 0 < sectorCount < WORD_SIZE
    ensures 0 < sectorCount * SECTOR_SIZE <= DWORD_SIZE - 2 * PAGE_SIZE && sectorCount * SECTOR_SIZE % ALIGNMENT == 0
  {
    RemainderIs(sectorCount * SECTOR_SIZE, ALIGNMENT, sectorCount * 128, 0);
  }

  lemma PairsAreServed(frame: Pages, offset: nat, length: nat, pairs: seq<Pair>)
    requires AreFrames(frame) && offset < PAGE_SIZE && 0 < length && length % ALIGNMENT == 0
    requires offset + length <= DWORD_SIZE - PAGE_SIZE && pairs == PairsOf(frame, offset, length)
    ensures pairs != [] && length <= Total(pairs) && forall i :: 0 <= i < |pairs| ==> Fits(pairs[i])
    ensures AllValid(pairs) ==>
      TableOf(pairs, length) != [] && Serves(MarkLast(TableOf(pairs, length)), BufferBytes(frame, offset, length))
  {
    BufferIsCovered(frame, offset, length);
    PairsFit(frame, offset, length);
    if AllValid(pairs) { BufferIsTransferred(frame, offset, length); }
  }

  // A buffer that is contiguous in physical memory is refused as soon as its pages hold 64 KB, although
  // the loop could split it.
  lemma ContiguousBuffer(frame: Pages, offset: nat, length: nat)
    requires AreFrames(frame) && offset < PAGE_SIZE && offset % ALIGNMENT == 0 && length < DWORD_SIZE
    requires frame(0) + offset <= MAX_ADDRESS
    requires forall k :: 0 <= k < PageCount(offset, length) ==> frame(k) == frame(0) + k * PAGE_SIZE
    ensures FirstRefusal(PairsOf(frame, offset, length)) ==
      if PageCount(offset, length) * PAGE_SIZE - offset > MAX_LENGTH then SpanTooLarge else Success
  {
    PageCountIs(offset, length);
    ContiguousPages(frame, offset, PageCount(offset, length));
  }

  lemma ContiguousPages(frame: Pages, offset: nat, n: nat)
    requires AreFrames(frame) && offset < PAGE_SIZE && offset % ALIGNMENT == 0 && 0 < n && n * PAGE_SIZE < DWORD_SIZE
    requires frame(0) + offset <= MAX_ADDRESS
    requires forall k :: 0 <= k < n ==> frame(k) == frame(0) + k * PAGE_SIZE
    ensures FirstRefusal(Joined(frame, Pair(frame(0) + offset, PAGE_SIZE - offset), 1, n)) ==
      if n * PAGE_SIZE - offset > MAX_LENGTH then SpanTooLarge else Success
  {
    var first, whole := Pair(frame(0) + offset, PAGE_SIZE - offset), Pair(frame(0) + offset, n * PAGE_SIZE - offset);
    assert first.address + first.numberOfBytes == frame(0) + PAGE_SIZE;
    ContiguousIsOnePair(frame, first, 1, n);
    assert Joined(frame, first, 1, n) == [whole];
    WholePagesAreAligned(frame(0), offset, n);
    OneAlignedPair(whole);
  }

  lemma OneAlignedPair(p: Pair)
    requires Fits(p) && p.address <= MAX_ADDRESS && p.address % ALIGNMENT == 0 && p.numberOfBytes % ALIGNMENT == 0
    ensures FirstRefusal([p]) == if p.numberOfBytes > MAX_LENGTH then SpanTooLarge else Success
  {
    assert [p][1..] == [];
    assert Pow2(2) == ALIGNMENT;
    AlignLowerRoundsDown(p.address, ALIGNMENT);
    AlignLowerRoundsDown(p.numberOfBytes, ALIGNMENT);
  }

  lemma WholePagesAreAligned(base: nat, offset: nat, n: nat)
    requires base % PAGE_SIZE == 0 && offset < PAGE_SIZE && offset % ALIGNMENT == 0 && 0 < n
    ensures (base + offset) % ALIGNMENT == 0 && (n * PAGE_SIZE - offset) % ALIGNMENT == 0
  {
    var q, r := base / PAGE_SIZE, offset / ALIGNMENT;
    RemainderIs(base + offset, ALIGNMENT, 0x400 * q + r, 0);
    RemainderIs(n * PAGE_SIZE - offset, ALIGNMENT, 0x400 * n - r, 0);
  }

  // A valid pair across 4 GB, from two pages on either side of it: the table does not stand for its
  // bytes.
  lemma WrapsAt4GB(frame: Pages)
    requires frame(0) == 0xFFFF_F000 && frame(1) == 0x1_0000_0000
    ensures var pairs := PairsOf(frame, 0xFFC, SECTOR_SIZE);
      && pairs == [Pair(0xFFFF_FFFC, 4100)] && AllValid(pairs)
      && Bytes(MarkLast(TableOf(pairs, SECTOR_SIZE))) != BufferBytes(frame, 0xFFC, SECTOR_SIZE)
  {
    PageCountIs(0xFFC, SECTOR_SIZE);
    ContiguousIsOnePair(frame, Pair(0xFFFF_FFFC, 4), 1, 2);
    BufferIsTransferred(frame, 0xFFC, SECTOR_SIZE);
    assert BufferBytes(frame, 0xFFC, SECTOR_SIZE)[4] == Physical(frame, 0x1000) == 0x1_0000_0000;
  }
}
