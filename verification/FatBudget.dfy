/**
  How far a chain can grow.  Each extension takes the lowest free cluster at or after the hint and
  makes it the new hint, so the clusters within reach are the free ones between the hint and the
  scan limit, and no more than a known free count says.
 */
module FatBudget {

  import opened Basics
  import opened FatLayout
  import opened FatChain
  import opened FatVolume
  import opened FatDirectory

  // Free clusters the scan can still come to.
  function FreeAhead(g: Geometry, disk: seq<Sector>): nat
    requires FitsDisk(g, disk)
  {
    ScanLimitBound(g);
    if ScanLimit(g) < 0 then 0 else CountFree(g, disk, NextFree(disk), ScanLimit(g))
  }

  // How many clusters can be added to chains.
  function Budget(g: Geometry, disk: seq<Sector>): nat
    requires FitsDisk(g, disk)
  {
    if FreeCount(disk) == FAT32_UNKNOWN || FreeAhead(g, disk) <= FreeCount(disk) then FreeAhead(g, disk)
    else FreeCount(disk)
  }

  // Whether the first extension beyond the budget fails an ASSERT: a known free count promises more
  // than the scan finds, and the scan itself does not fail.
  predicate EndsInAssert(g: Geometry, disk: seq<Sector>)
    requires FitsDisk(g, disk)
  {
    && FreeCount(disk) != FAT32_UNKNOWN && FreeAhead(g, disk) < FreeCount(disk)
    && (0 < FreeAhead(g, disk) || ScanSucceeds(g, NextFree(disk)))
  }

  // FSI_Free_Count is the number of free clusters.
  predicate CountIsExact(g: Geometry, disk: seq<Sector>)
    requires FitsDisk(g, disk)
  {
    FreeCount(disk) == CountFree(g, disk, 2, g.countOfClusters + 2)
  }

  // What a chain and the budget add up to never changes, nor does what happens beyond it; an exact
  // free count stays exact.
  predicate Balanced(g: Geometry, before: seq<Sector>, after: seq<Sector>, chain: seq<nat>, longer: seq<nat>)
    requires FitsDisk(g, before)
    requires FitsDisk(g, after)
  {
    && |longer| + Budget(g, after) == |chain| + Budget(g, before)
    && EndsInAssert(g, after) == EndsInAssert(g, before)
    && (CountIsExact(g, before) ==> CountIsExact(g, after))
  }

  lemma CountIsSmall(g: Geometry, disk: seq<Sector>, from: nat, to: nat)
    requires FitsDisk(g, disk) && to <= g.countOfClusters + 2
    ensures CountFree(g, disk, from, to) <= if from < to then to - from else 0
    decreases if from < to then to - from else 0
  {
    if from < to { CountIsSmall(g, disk, from + 1, to); }
  }

  // The free clusters behind r are the same before and after r is taken.
  lemma AheadAfterLink(g: Geometry, before: seq<Sector>, last: nat, r: nat, freeCount: Dword)
    requires FitsDisk(g, before)
    requires g.IsCluster(last) && g.IsCluster(r) && !IsFree(g, before, last) && r < ScanLimit(g)
    requires IsLowestFree(g, before, NextFree(before), ScanLimit(g), r)
    ensures var d := Linked(g, before, last, r, freeCount);
      FreeAhead(g, d) + 1 == FreeAhead(g, before) && NextFree(d) == r && FreeCount(d) == freeCount
  {
    var d := Linked(g, before, last, r, freeCount);
    EntriesAfterLinked(g, before, last, r, freeCount);
    FreeAfterLinks(g, before, d, last, r);
    CountFreeFrom(g, before, NextFree(before), ScanLimit(g), r);
    AheadOfTaken(g, before, d, r);
  }

  lemma AheadOfTaken(g: Geometry, before: seq<Sector>, d: seq<Sector>, r: nat)
    requires FitsDisk(g, before) && FitsDisk(g, d) && NextFree(d) == r < ScanLimit(g) && g.IsCluster(r)
    requires !IsFree(g, d, r)
    requires forall c: nat :: c < g.countOfClusters + 2 && c != r ==> (IsFree(g, before, c) <==> IsFree(g, d, c))
    ensures ScanLimit(g) <= g.countOfClusters + 2 && FreeAhead(g, d) == CountFree(g, before, r + 1, ScanLimit(g))
  {
    ScanLimitBound(g);
    CountFreeFrame(g, before, d, r + 1, ScanLimit(g));
  }

  // An unknown free count becomes the number of free clusters within reach.
  lemma RecountIsAhead(g: Geometry, before: seq<Sector>, last: nat, r: nat, freeCount: Dword)
    requires FitsDisk(g, before)
    requires g.IsCluster(last) && g.IsCluster(r) && !IsFree(g, before, last) && IsFree(g, before, r) && r < ScanLimit(g)
    requires FreeCount(before) == FAT32_UNKNOWN
    ensures FreeCountAfter(g, before, last, r) == FreeAhead(g, Linked(g, before, last, r, freeCount))
  {
    var linked := WithValue(g, WithValue(g, before, r, FAT32_EOC_MARK), last, r);
    var d := Linked(g, before, last, r, freeCount);
    FatSectorBounds(g, r);
    EntriesAfterLinked(g, before, last, r, freeCount);
    FreeAfterLinks(g, before, d, last, r);
    FsInfoIsOutsideFat(g, linked, freeCount, r);
    CountFreeFrame(g, linked, d, r + 1, ScanLimit(g));
  }

  // A successful extension takes one cluster out of the budget.
  lemma BalancedAfterLink(g: Geometry, before: seq<Sector>, after: seq<Sector>, last: nat, r: nat, chain: seq<nat>)
    requires FitsDisk(g, before)
    requires g.IsCluster(last) && !IsFree(g, before, last) && r != 0 && Extends(g, before, after, last, false, r)
    ensures FitsDisk(g, after)
    ensures 0 < Budget(g, before) && Balanced(g, before, after, chain, chain + [r])
  {
    var freeCount := FreeCountAfter(g, before, last, r);
    FatSectorBounds(g, r);
    AheadAfterLink(g, before, last, r, freeCount);
    OneLessFree(g, before, last, r, freeCount);
    CountIsSmall(g, before, 2, g.countOfClusters + 2);
    if FreeCount(before) == FAT32_UNKNOWN { RecountIsAhead(g, before, last, r, freeCount); }
  }

  // An extension that finds nothing had no budget.
  lemma BalancedAfterNothing(g: Geometry, before: seq<Sector>, after: seq<Sector>, last: nat, aborted: bool,
                             chain: seq<nat>)
    requires FitsDisk(g, before)
    requires g.IsCluster(last) && !IsFree(g, before, last) && Extends(g, before, after, last, aborted, 0)
    ensures FitsDisk(g, after)
    ensures 0 == Budget(g, before) && (aborted <==> EndsInAssert(g, before)) && Balanced(g, before, after, chain, chain)
  {
    FatSectorBounds(g, last);
    if FreeCount(before) != 0 { NothingAhead(g, before); }
    if after != before { FullIsBalanced(g, before); }
  }

  lemma NothingAhead(g: Geometry, disk: seq<Sector>)
    requires FitsDisk(g, disk)
    requires IsLowestFree(g, disk, NextFree(disk), ScanLimit(g), 0)
    ensures FreeAhead(g, disk) == 0
  {
    if 0 <= ScanLimit(g) { CountFreeFrom(g, disk, NextFree(disk), ScanLimit(g), 0); }
  }

  // A disk recorded as full has no budget; nothing else about it changes.
  lemma FullIsBalanced(g: Geometry, before: seq<Sector>)
    requires FitsDisk(g, before)
    ensures var after := WithFsInfo(before, 0, FAT32_UNKNOWN);
      && FitsDisk(g, after) && Budget(g, after) == 0 && !EndsInAssert(g, after)
      && (FreeCount(before) in {0, FAT32_UNKNOWN} && CountIsExact(g, before) ==> CountIsExact(g, after))
  {
    var after := WithFsInfo(before, 0, FAT32_UNKNOWN);
    FsInfoIsOutsideFat(g, before, 0, FAT32_UNKNOWN);
    CountFreeFrame(g, before, after, 2, g.countOfClusters + 2);
    CountIsSmall(g, before, 2, g.countOfClusters + 2);
  }

  // ----- growing within the budget -----

  // The chain has grown, and the budget has paid for it.
  ghost predicate Grew(g: Geometry, before: seq<Sector>, after: seq<Sector>, chain: seq<nat>, longer: seq<nat>)
    requires FitsDisk(g, before) && FitsDisk(g, after)
  {
    Grown(g, before, after, chain, longer) && Balanced(g, before, after, chain, longer)
  }

  lemma GrewTwice(g: Geometry, a: seq<Sector>, b: seq<Sector>, c: seq<Sector>, x: seq<nat>, y: seq<nat>, z: seq<nat>)
    requires FitsDisk(g, a) && FitsDisk(g, b) && FitsDisk(g, c)
    requires IsChain(g, a, x) && Grew(g, a, b, x, y) && Grew(g, b, c, y, z)
    ensures Grew(g, a, c, x, z)
  {
    GrownTwice(g, a, b, c, x, y, z);
  }

  lemma GrewByNothing(g: Geometry, disk: seq<Sector>, chain: seq<nat>)
    requires FitsDisk(g, disk) && IsChain(g, disk, chain)
    ensures Grew(g, disk, disk, chain, chain)
  {
    GrownByNothing(g, disk, chain);
  }

  // Writing above the FAT keeps the FAT, FSInfo and the budget.
  lemma GrewByData(g: Geometry, before: seq<Sector>, after: seq<Sector>, chain: seq<nat>)
    requires FitsDisk(g, before) && IsChain(g, before, chain) && |after| == |before|
    requires forall s :: 0 <= s < g.firstDataSector && s < |before| ==> after[s] == before[s]
    ensures FitsDisk(g, after) && Grew(g, before, after, chain, chain)
  {
    DataWriteKeepsFat(g, before, after);
    assert forall i :: 0 <= i < |chain| ==> Value(g, after, chain[i]) == Value(g, before, chain[i]);
    CountFreeFrame(g, before, after, 2, g.countOfClusters + 2);
    ScanLimitBound(g);
    if 0 <= ScanLimit(g) { CountFreeFrame(g, before, after, NextFree(before), ScanLimit(g)); }
  }

  // The status of an extension beyond the budget.
  function RefusalStatus(g: Geometry, disk: seq<Sector>): Status
    requires FitsDisk(g, disk)
  {
    if EndsInAssert(g, disk) then Aborted else DeviceClusterInvalid
  }

  // An extension of a chain by one cluster, or its refusal.
  lemma GrewByExtension(g: Geometry, before: seq<Sector>, after: seq<Sector>, chain: seq<nat>, aborted: bool,
                        reserved: nat)
    requires FitsDisk(g, before) && FitsDisk(g, after) && IsChain(g, before, chain)
    requires Extends(g, before, after, chain[|chain| - 1], aborted, reserved)
    ensures reserved != 0 ==> g.IsCluster(reserved) && !aborted && Grew(g, before, after, chain, chain + [reserved])
    ensures reserved == 0 ==>
      Grew(g, before, after, chain, chain) && Budget(g, after) == 0 && (aborted <==> EndsInAssert(g, after))
  {
    var last := chain[|chain| - 1];
    ChainIsInUse(g, before, chain, |chain| - 1);
    if reserved != 0 {
      LinkedIsGrown(g, before, chain, reserved, FreeCountAfter(g, before, last, reserved));
      BalancedAfterLink(g, before, after, last, reserved, chain);
    } else {
      FsInfoIsOutsideFat(g, before, 0, FAT32_UNKNOWN);
      BalancedAfterNothing(g, before, after, last, aborted, chain);
      assert forall i :: 0 <= i < |chain| ==> Value(g, after, chain[i]) == Value(g, before, chain[i]);
    }
  }

  // ----- a volume the scan does not see the end of -----

  // The smallest number of clusters FatInitVolume takes for FAT32, 32 reserved sectors, two FATs of
  // 512 sectors and one sector per cluster.  All clusters below 65408 are in use, the 119 others are
  // free; FSInfo holds the hint and the right free count.
  const LOPSIDED: Geometry := Geometry(65525, 32, 1056, 1)

  function Lopsided(hint: Dword): (disk: seq<Sector>)
    ensures |disk| == 1056 + 65525
  {
    var blank: Sector := seq(128, i => 0);
    var full: Sector := seq(128, i => FAT32_EOC_MARK);
    var fsInfo: Sector := blank[FSI_FREE_COUNT := 119][FSI_NXT_FREE := hint];
    seq(1056 + 65525, s => if s == FSINFO_SECTOR then fsInfo else if 32 <= s < 543 then full else blank)
  }

  lemma LopsidedEntries(hint: Dword, c: nat)
    requires c < 65527
    ensures FitsDisk(LOPSIDED, Lopsided(hint)) && (IsFree(LOPSIDED, Lopsided(hint), c) <==> 65408 <= c)
    ensures ScanLimit(LOPSIDED) == 61312 && FreeCount(Lopsided(hint)) == 119 && NextFree(Lopsided(hint)) == hint
  {
    assert FatSector(LOPSIDED, c) == 32 + c / 128;
  }

  lemma {:induction false} CountOfRange(g: Geometry, disk: seq<Sector>, from: nat, mid: nat, limit: nat)
    requires FitsDisk(g, disk) && from <= mid <= limit <= g.countOfClusters + 2
    requires forall c: nat :: from <= c < limit ==> (IsFree(g, disk, c) <==> mid <= c)
    ensures CountFree(g, disk, from, limit) == limit - mid
    decreases limit - from
  {
    if from < limit { CountOfRange(g, disk, from + 1, if from < mid then mid else from + 1, limit); }
  }

  // With a hint below the scan limit the scan succeeds, finds nothing, and the ASSERT on the free
  // count fires, although the count is right: 119 clusters are free.
  lemma AssertFires(after: seq<Sector>, aborted: bool, reserved: nat)
    ensures var g, disk := LOPSIDED, Lopsided(2);
      && g.countOfClusters >= 65525 && FitsDisk(g, disk)
      && !IsFree(g, disk, 0) && !IsFree(g, disk, 1) && IsChain(g, disk, [2])
      && IsFree(g, disk, 65500) && IsLowestFree(g, disk, NextFree(disk), ScanLimit(g), 0)
      && CountIsExact(g, disk) && Budget(g, disk) == 0 && RefusalStatus(g, disk) == Aborted
      && (FitsDisk(g, after) && Extends(g, disk, after, 2, aborted, reserved) ==> aborted && reserved == 0)
  {
    LopsidedIs(2);
    NoExtension(2, after, aborted, reserved);
  }

  // With a hint at or above it, the scan itself fails, and the chain is refused without an ASSERT.
  lemma ScanFails(after: seq<Sector>, aborted: bool, reserved: nat)
    ensures var g, disk := LOPSIDED, Lopsided(65000);
      && g.countOfClusters >= 65525 && FitsDisk(g, disk)
      && !IsFree(g, disk, 0) && !IsFree(g, disk, 1) && IsChain(g, disk, [2])
      && IsFree(g, disk, 65500)
      && CountIsExact(g, disk) && Budget(g, disk) == 0 && RefusalStatus(g, disk) == DeviceClusterInvalid
      && (FitsDisk(g, after) && Extends(g, disk, after, 2, aborted, reserved) ==> !aborted && reserved == 0)
  {
    LopsidedIs(65000);
    NoExtension(65000, after, aborted, reserved);
  }

  lemma NoExtension(hint: Dword, after: seq<Sector>, aborted: bool, reserved: nat)
    requires hint < 65527
    ensures var g, disk := LOPSIDED, Lopsided(hint);
      && FitsDisk(g, disk)
      && (FitsDisk(g, after) && Extends(g, disk, after, 2, aborted, reserved) ==>
            reserved == 0 && (aborted <==> EndsInAssert(g, disk)))
  {
    var g, disk := LOPSIDED, Lopsided(hint);
    LopsidedIs(hint);
    if FitsDisk(g, after) && Extends(g, disk, after, 2, aborted, reserved) {
      GrewByExtension(g, disk, after, [2], aborted, reserved);
    }
  }

  lemma LopsidedIs(hint: Dword)
    requires hint < 65527
    ensures var g, disk := LOPSIDED, Lopsided(hint);
      && FitsDisk(g, disk) && ScanLimit(g) == 61312 && IsChain(g, disk, [2])
      && (forall c: nat :: c < 65527 ==> (IsFree(g, disk, c) <==> 65408 <= c))
      && NextFree(disk) == hint && FreeCount(disk) == 119 && CountIsExact(g, disk) && FreeAhead(g, disk) == 0
  {
    var g, disk := LOPSIDED, Lopsided(hint);
    LopsidedEntries(hint, 2);
    forall c: nat | c < 65527 ensures IsFree(g, disk, c) <==> 65408 <= c { LopsidedEntries(hint, c); }
    CountOfRange(g, disk, 2, 65408, 65527);
    if hint < 61312 { CountOfRange(g, disk, hint, 61312, 61312); }
  }
}
