/**
  Cluster chains, the file they hold, and what extending a chain does to the FAT.
 */
module FatChain {

  import opened Basics
  import opened FatLayout

  // The clusters linked from chain[0] to an end mark (an end-of-chain value or the bad-cluster
  // value, which the driver reads as the end).
  ghost predicate IsChain(g: Geometry, disk: seq<Sector>, chain: seq<nat>)
    requires FitsDisk(g, disk)
  {
    && chain != []
    && (forall i :: 0 <= i < |chain| ==> g.IsCluster(chain[i]))
    && (forall i :: 0 <= i < |chain| - 1 ==> Value(g, disk, chain[i]) == chain[i + 1])
    && EndsChain(Value(g, disk, chain[|chain| - 1]))
  }

  predicate Disjoint(a: seq<nat>, b: seq<nat>) { forall i, j :: 0 <= i < |a| && 0 <= j < |b| ==> a[i] != b[j] }

  // A chain never comes back to a cluster.
  lemma {:induction false} ChainIsAcyclic(g: Geometry, disk: seq<Sector>, chain: seq<nat>, i: nat, j: nat)
    requires FitsDisk(g, disk) && IsChain(g, disk, chain) && i < j < |chain|
    ensures chain[i] != chain[j]
    decreases |chain| - j
  {
    assert Value(g, disk, chain[i]) == chain[i + 1];
    if j < |chain| - 1 {
      assert Value(g, disk, chain[j]) == chain[j + 1];
      ChainIsAcyclic(g, disk, chain, i + 1, j + 1);
    }
  }

  // Chains consist of clusters in use.
  lemma ChainIsInUse(g: Geometry, disk: seq<Sector>, chain: seq<nat>, i: nat)
    requires FitsDisk(g, disk) && IsChain(g, disk, chain) && i < |chain|
    ensures !IsFree(g, disk, chain[i])
  {
    if i < |chain| - 1 { assert Value(g, disk, chain[i]) == chain[i + 1]; }
  }

  // ----- the FAT after an extension -----

  // r is the first free cluster at or after `from` and below `limit`, or 0 if there is none.
  ghost predicate IsLowestFree(g: Geometry, disk: seq<Sector>, from: nat, limit: int, r: nat)
    requires FitsDisk(g, disk) && limit <= g.countOfClusters + 2
  {
    && (r != 0 ==> from <= r < limit && IsFree(g, disk, r))
    && (forall c: nat :: from <= c < limit && (r == 0 || c < r) ==> !IsFree(g, disk, c))
  }

  // What _FirstFreeCluster looks at: it stops when the absolute sector number reaches the number
  // of whole FAT sectors, so the reserved sectors are missing from its range.
  function ScanLimit(g: Geometry): int
  {
    (((g.countOfClusters + 2) * ENTRY_BYTES) / BYTES_PER_SECTOR - g.reservedSectors) * ENTRIES_PER_SECTOR
  }

  lemma ScanLimitBound(g: Geometry)
    ensures ScanLimit(g) <= g.countOfClusters + 2
  {
  }

  // _FirstFreeCluster reports success if it has read a sector of the FAT, or if the hint is behind
  // the last cluster; otherwise its status is still the initial failure.
  predicate ScanSucceeds(g: Geometry, hint: nat) { hint < ScanLimit(g) || g.countOfClusters + 2 <= hint }

  // newFat continues oldFat with `chain` grown to `longer`: only the old end of the chain and the new
  // clusters have other entries, the new clusters were free, and all reserved bits are kept.
  ghost predicate Grown(g: Geometry, oldFat: seq<Sector>, newFat: seq<Sector>, chain: seq<nat>, longer: seq<nat>)
    requires FitsDisk(g, oldFat) && FitsDisk(g, newFat)
  {
    && chain != [] && chain <= longer && IsChain(g, newFat, longer)
    && (forall c: nat :: c < g.countOfClusters + 2 && c !in longer[|chain| - 1..] ==>
        Entry(g, newFat, c) == Entry(g, oldFat, c))
    && (forall c: nat :: c < g.countOfClusters + 2 ==>
        Entry(g, newFat, c) / 0x1000_0000 == Entry(g, oldFat, c) / 0x1000_0000)
    && (forall i :: |chain| <= i < |longer| ==> g.IsCluster(longer[i]) && IsFree(g, oldFat, longer[i]))
  }

  // Only the FAT and the FSInfo sector differ.
  ghost predicate SameData(g: Geometry, before: seq<Sector>, after: seq<Sector>)
  {
    |before| == |after| && forall s :: g.firstDataSector <= s < |before| ==> after[s] == before[s]
  }

  // The disk after free cluster r was marked, linked behind `last` and recorded in FSInfo.
  function Linked(g: Geometry, disk: seq<Sector>, last: nat, r: nat, freeCount: Dword): (d: seq<Sector>)
    requires FitsDisk(g, disk) && g.IsCluster(last) && g.IsCluster(r)
    ensures FitsDisk(g, d)
  {
    FatSectorBounds(g, r);
    WithFsInfo(WithValue(g, WithValue(g, disk, r, FAT32_EOC_MARK), last, r), freeCount, r)
  }

  // The two entries of last and r are the only ones that differ.
  ghost predicate LinksOnly(g: Geometry, disk: seq<Sector>, d: seq<Sector>, last: nat, r: nat)
    requires FitsDisk(g, disk) && FitsDisk(g, d) && r <= FAT32_CLUSTER_MASK
  {
    forall c: nat :: c < g.countOfClusters + 2 ==>
      Entry(g, d, c) == if c == r then WithClusterValue(Entry(g, disk, c), FAT32_EOC_MARK)
                        else if c == last then WithClusterValue(Entry(g, disk, c), r)
                        else Entry(g, disk, c)
  }

  // Exactly two entries change, even when they share a sector.
  lemma EntriesAfterLinked(g: Geometry, disk: seq<Sector>, last: nat, r: nat, freeCount: Dword)
    requires FitsDisk(g, disk) && g.IsCluster(last) && g.IsCluster(r) && last != r
    ensures var d := Linked(g, disk, last, r, freeCount);
            && LinksOnly(g, disk, d, last, r)
            && SameData(g, disk, d)
            && FreeCount(d) == freeCount && NextFree(d) == r
  {
    var linked := WithValue(g, WithValue(g, disk, r, FAT32_EOC_MARK), last, r);
    FatSectorBounds(g, r);
    EntriesAfterTwo(g, disk, last, r);
    FsInfoIsOutsideFat(g, linked, freeCount, r);
  }

  lemma EntriesAfterTwo(g: Geometry, disk: seq<Sector>, last: nat, r: nat)
    requires FitsDisk(g, disk) && g.IsCluster(last) && g.IsCluster(r) && last != r
    ensures var d := WithValue(g, WithValue(g, disk, r, FAT32_EOC_MARK), last, r);
            LinksOnly(g, disk, d, last, r) && SameData(g, disk, d)
  {
    EntryAfterWithValue(g, disk, r, FAT32_EOC_MARK);
    EntryAfterWithValue(g, WithValue(g, disk, r, FAT32_EOC_MARK), last, r);
    FatSectorBounds(g, r);
    FatSectorBounds(g, last);
  }

  lemma FsInfoIsOutsideFat(g: Geometry, disk: seq<Sector>, freeCount: Dword, nextFree: Dword)
    requires FitsDisk(g, disk) && |disk| > FSINFO_SECTOR
    ensures var d := WithFsInfo(disk, freeCount, nextFree);
            && (forall c: nat :: c < g.countOfClusters + 2 ==> Entry(g, d, c) == Entry(g, disk, c))
            && SameData(g, disk, d)
            && FreeCount(d) == freeCount && NextFree(d) == nextFree
  {
    forall c: nat | c < g.countOfClusters + 2
      ensures Entry(g, WithFsInfo(disk, freeCount, nextFree), c) == Entry(g, disk, c)
    {
      FatSectorBounds(g, c);
    }
  }

  lemma ReservedBitsKept(e: Dword, v: nat)
    requires v <= FAT32_CLUSTER_MASK
    ensures ClusterValue(WithClusterValue(e, v)) == v && WithClusterValue(e, v) / 0x1000_0000 == e / 0x1000_0000
  {
  }

  // Linking a free cluster behind the last one gives a chain longer by exactly that cluster.
  lemma LinkedIsGrown(g: Geometry, disk: seq<Sector>, chain: seq<nat>, r: nat, freeCount: Dword)
    requires FitsDisk(g, disk) && IsChain(g, disk, chain) && g.IsCluster(r) && IsFree(g, disk, r)
    ensures Grown(g, disk, Linked(g, disk, chain[|chain| - 1], r, freeCount), chain, chain + [r])
  {
    var last, longer := chain[|chain| - 1], chain + [r];
    var d := Linked(g, disk, last, r, freeCount);
    forall i | 0 <= i < |chain| ensures chain[i] != r { ChainIsInUse(g, disk, chain, i); }
    forall i | 0 <= i < |chain| - 1 ensures chain[i] != last { ChainIsAcyclic(g, disk, chain, i, |chain| - 1); }
    EntriesAfterLinked(g, disk, last, r, freeCount);
    assert longer[|chain| - 1] == last && longer[|chain|] == r;
    assert longer[|chain| - 1..] == [last, r];
    forall c: nat | c < g.countOfClusters + 2
      ensures c !in longer[|chain| - 1..] ==> Entry(g, d, c) == Entry(g, disk, c)
      ensures Entry(g, d, c) / 0x1000_0000 == Entry(g, disk, c) / 0x1000_0000
    {
      ReservedBitsKept(Entry(g, disk, c), r);
      ReservedBitsKept(Entry(g, disk, c), FAT32_EOC_MARK);
    }
    forall i | 0 <= i < |chain| ensures Value(g, d, longer[i]) == longer[i + 1] {
      if i < |chain| - 1 {
        assert Value(g, disk, chain[i]) == chain[i + 1];
      } else {
        ReservedBitsKept(Entry(g, disk, last), r);
      }
    }
    ReservedBitsKept(Entry(g, disk, r), FAT32_EOC_MARK);
  }

  // Every other chain is still a chain and shares no cluster with the grown one.
  lemma OtherChainsSurvive(g: Geometry, oldFat: seq<Sector>, newFat: seq<Sector>, chain: seq<nat>, longer: seq<nat>,
                           other: seq<nat>)
    requires FitsDisk(g, oldFat) && FitsDisk(g, newFat) && Grown(g, oldFat, newFat, chain, longer)
    requires IsChain(g, oldFat, other) && Disjoint(other, chain)
    ensures IsChain(g, newFat, other) && Disjoint(other, longer)
  {
    forall i, j | 0 <= i < |other| && 0 <= j < |longer| ensures other[i] != longer[j] {
      ChainIsInUse(g, oldFat, other, i);
      if j < |chain| { assert longer[j] == chain[j]; }
    }
    forall i | 0 <= i < |other| ensures Entry(g, newFat, other[i]) == Entry(g, oldFat, other[i]) {
      assert other[i] !in longer[|chain| - 1..];
    }
    assert forall i :: 0 <= i < |other| ==> Value(g, newFat, other[i]) == Value(g, oldFat, other[i]);
  }

  // Growing in steps is growing.
  lemma GrownTwice(g: Geometry, a: seq<Sector>, b: seq<Sector>, c: seq<Sector>, x: seq<nat>, y: seq<nat>, z: seq<nat>)
    requires FitsDisk(g, a) && FitsDisk(g, b) && FitsDisk(g, c)
    requires IsChain(g, a, x) && Grown(g, a, b, x, y) && Grown(g, b, c, y, z)
    ensures Grown(g, a, c, x, z)
  {
    forall n: nat | n < g.countOfClusters + 2 && n !in z[|x| - 1..]
      ensures Entry(g, c, n) == Entry(g, a, n)
    {
      var tail, k := z[|x| - 1..], |y| - |x|;
      assert tail[k..] == z[|y| - 1..];
      assert tail[..k + 1] == y[|x| - 1..];
    }
    forall i | |x| <= i < |z| ensures g.IsCluster(z[i]) && IsFree(g, a, z[i]) {
      if i < |y| {
        assert z[i] == y[i];
      } else {
        forall j | 0 <= j < |y| ensures z[i] != y[j] { assert z[j] == y[j]; ChainIsAcyclic(g, c, z, j, i); }
        assert z[i] !in y[|x| - 1..];
        assert IsFree(g, b, z[i]);
      }
    }
  }

  lemma {:induction false} GrownByNothing(g: Geometry, disk: seq<Sector>, chain: seq<nat>)
    requires FitsDisk(g, disk) && IsChain(g, disk, chain)
    ensures Grown(g, disk, disk, chain, chain)
  {
  }

  // ----- the free-cluster count -----

  lemma {:induction false} CountFreeFrame(g: Geometry, a: seq<Sector>, b: seq<Sector>, from: nat, to: nat)
    requires FitsDisk(g, a) && FitsDisk(g, b) && to <= g.countOfClusters + 2
    requires forall c: nat :: from <= c < to ==> (IsFree(g, a, c) <==> IsFree(g, b, c))
    ensures CountFree(g, a, from, to) == CountFree(g, b, from, to)
    decreases if from < to then to - from else 0
  {
    if from < to { CountFreeFrame(g, a, b, from + 1, to); }
  }

  lemma {:induction false} CountFreeWithout(g: Geometry, a: seq<Sector>, b: seq<Sector>, from: nat, to: nat, r: nat)
    requires FitsDisk(g, a) && FitsDisk(g, b) && from <= r < to <= g.countOfClusters + 2
    requires IsFree(g, a, r) && !IsFree(g, b, r)
    requires forall c: nat :: from <= c < to && c != r ==> (IsFree(g, a, c) <==> IsFree(g, b, c))
    ensures CountFree(g, b, from, to) == CountFree(g, a, from, to) - 1
    decreases if from < to then to - from else 0
  {
    if from == r { CountFreeFrame(g, a, b, from + 1, to); } else { CountFreeWithout(g, a, b, from + 1, to, r); }
  }

  // A free count that was right stays right: extending a chain uses up exactly one free cluster.
  lemma FreeCountStaysExact(g: Geometry, disk: seq<Sector>, chain: seq<nat>, r: nat)
    requires FitsDisk(g, disk) && IsChain(g, disk, chain) && g.IsCluster(r) && IsFree(g, disk, r)
    requires FreeCount(disk) == CountFree(g, disk, 2, g.countOfClusters + 2)
    ensures FreeCount(disk) > 0
    ensures var d := Linked(g, disk, chain[|chain| - 1], r, FreeCount(disk) - 1);
            FreeCount(d) == CountFree(g, d, 2, g.countOfClusters + 2)
  {
    FreeIsCounted(g, disk, 2, g.countOfClusters + 2, r);
    ChainIsInUse(g, disk, chain, |chain| - 1);
    OneLessFree(g, disk, chain[|chain| - 1], r, FreeCount(disk) - 1);
  }

  lemma OneLessFree(g: Geometry, disk: seq<Sector>, last: nat, r: nat, freeCount: Dword)
    requires FitsDisk(g, disk) && g.IsCluster(last) && g.IsCluster(r) && IsFree(g, disk, r) && !IsFree(g, disk, last)
    ensures var d := Linked(g, disk, last, r, freeCount);
            && FreeCount(d) == freeCount
            && CountFree(g, d, 2, g.countOfClusters + 2) == CountFree(g, disk, 2, g.countOfClusters + 2) - 1
  {
    var d := Linked(g, disk, last, r, freeCount);
    EntriesAfterLinked(g, disk, last, r, freeCount);
    FreeAfterLinks(g, disk, d, last, r);
    CountFreeWithout(g, disk, d, 2, g.countOfClusters + 2, r);
  }

  lemma FreeAfterLinks(g: Geometry, disk: seq<Sector>, d: seq<Sector>, last: nat, r: nat)
    requires FitsDisk(g, disk) && FitsDisk(g, d) && g.IsCluster(last) && g.IsCluster(r)
    requires LinksOnly(g, disk, d, last, r)
    requires IsFree(g, disk, r) && !IsFree(g, disk, last)
    ensures !IsFree(g, d, r)
    ensures forall c: nat :: c < g.countOfClusters + 2 && c != r ==> (IsFree(g, disk, c) <==> IsFree(g, d, c))
  {
    ReservedBitsKept(Entry(g, disk, r), FAT32_EOC_MARK);
    ReservedBitsKept(Entry(g, disk, last), r);
  }

  lemma {:induction false} FreeIsCounted(g: Geometry, disk: seq<Sector>, from: nat, to: nat, r: nat)
    requires FitsDisk(g, disk) && from <= r < to <= g.countOfClusters + 2 && IsFree(g, disk, r)
    ensures CountFree(g, disk, from, to) > 0
    decreases if from < to then to - from else 0
  {
    if from < r { FreeIsCounted(g, disk, from + 1, to, r); }
  }
}
