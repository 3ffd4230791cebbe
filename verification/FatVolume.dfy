/**
  The cluster-chain operations of src/FAT32/src/fat_utils.c on a volume whose device never fails.
  A method that reads or writes a sector of the device reads or replaces it in `disk`.
 */
module FatVolume {

  import opened Basics
  import opened FatLayout
  import opened FatChain
  import Bits

  datatype Status = Success | DeviceClusterInvalid | ElementNotFound | Aborted  // Aborted: an ASSERT fired

  class Volume {
    const g: Geometry
    var disk: seq<Sector>

    // The first two FAT entries are reserved and never free.
    ghost predicate Valid()
      reads this
    {
      FitsDisk(g, disk) && |disk| > FSINFO_SECTOR && !IsFree(g, disk, 0) && !IsFree(g, disk, 1)
    }

    constructor (geometry: Geometry, sectors: seq<Sector>)
      requires FitsDisk(geometry, sectors) && |sectors| > FSINFO_SECTOR
      requires !IsFree(geometry, sectors, 0) && !IsFree(geometry, sectors, 1)
      ensures g == geometry && disk == sectors && Valid()
    {
      g, disk := geometry, sectors;
    }
  }

  // The value a chain continues with: a zero or bad-cluster entry ends it.
  function Successor(value: nat): nat
  {
    if value == 0 || value == FAT32_BAD_CLUSTER then FAT32_EOC_MARK else value
  }

  // A zero met inside a chain is replaced by an end mark on disk.
  function Repaired(g: Geometry, disk: seq<Sector>, c: nat): seq<Sector>
    requires FitsDisk(g, disk) && g.IsCluster(c)
  {
    if IsFree(g, disk, c) then WithValue(g, disk, c, FAT32_EOC_MARK) else disk
  }

  // Whatever a link says, following it gives a cluster only if the link names it; a zero is repaired,
  // so that the chain ends there for good, and no other entry and no sector outside the FAT changes.
  lemma LinkIsFollowed(g: Geometry, disk: seq<Sector>, c: nat)
    requires FitsDisk(g, disk) && g.IsCluster(c)
    ensures var v, d := Value(g, disk, c), Repaired(g, disk, c);
      && FitsDisk(g, d) && Value(g, d, c) == (if v == 0 then 0x0FFF_FFFF else v)
      && (g.IsCluster(Successor(v)) <==> g.IsCluster(v)) && (g.IsCluster(v) ==> Successor(v) == v && d == disk)
      && (IsChain(g, d, [c]) <==> v == 0 || v >= 0x0FFF_FFF7)
      && (IsChain(g, d, [c]) ==> 0x0FFF_FFF8 <= Successor(v))
      && (forall x: nat :: x < g.countOfClusters + 2 && x != c ==> Entry(g, d, x) == Entry(g, disk, x))
      && Entry(g, d, c) / 0x1000_0000 == Entry(g, disk, c) / 0x1000_0000
  {
    FatSectorBounds(g, c);
    EntryAfterWithValue(g, disk, c, FAT32_EOC_MARK);
    ValueAfterWithValue(g, disk, c, FAT32_EOC_MARK);
    ReservedBitsKept(Entry(g, disk, c), FAT32_EOC_MARK);
  }

  method NextClusterInChain(v: Volume, currentCluster: nat) returns (nextCluster: nat)
    requires v.Valid() && v.g.IsCluster(currentCluster)
    modifies v
    ensures v.Valid() && nextCluster == Successor(old(Value(v.g, v.disk, currentCluster)))
    ensures v.disk == Repaired(v.g, old(v.disk), currentCluster)
  {
    var sectorNumber := v.g.reservedSectors + currentCluster * ENTRY_BYTES / BYTES_PER_SECTOR;
    var indexInSector := currentCluster % (BYTES_PER_SECTOR / ENTRY_BYTES);
    FatSectorBounds(v.g, currentCluster);
    var entries := v.disk[sectorNumber];
    nextCluster := MaskedValue(entries[indexInSector]);
    if nextCluster == 0 {
      nextCluster := FAT32_EOC_MARK;
      WriteEntry(v, sectorNumber, indexInSector, currentCluster, FAT32_EOC_MARK);
    } else if nextCluster == FAT32_BAD_CLUSTER {
      nextCluster := FAT32_EOC_MARK;
    }
  }

  // _FirstFreeCluster.  Sound for every hint, and it finds a free cluster exactly when there is
  // one at or after the hint and below ScanLimit; the ASSERT on the cluster number never fires.
  method FirstFreeCluster(v: Volume, firstCheckedCluster: nat, markReserved: bool)
    returns (succeeded: bool, freeCluster: nat)
    requires v.Valid()
    modifies v
    ensures v.Valid() && (freeCluster != 0 ==> v.g.IsCluster(freeCluster))
    ensures ScanLimit(v.g) <= v.g.countOfClusters + 2
    ensures succeeded == ScanSucceeds(v.g, firstCheckedCluster)
    ensures IsLowestFree(v.g, old(v.disk), firstCheckedCluster, ScanLimit(v.g), freeCluster)
    ensures v.disk == if markReserved && freeCluster != 0 then WithValue(v.g, old(v.disk), freeCluster, FAT32_EOC_MARK)
                      else old(v.disk)
  {
    var firstFatSector := v.g.reservedSectors;
    var entriesPerFat := v.g.countOfClusters + 2;
    var sectorsPerFat := entriesPerFat * ENTRY_BYTES / BYTES_PER_SECTOR;
    succeeded, freeCluster := false, 0;
    if entriesPerFat <= firstCheckedCluster { return true, 0; }
    var currentSector := firstFatSector + firstCheckedCluster * ENTRY_BYTES / BYTES_PER_SECTOR;
    var indexInSector := firstCheckedCluster % (BYTES_PER_SECTOR / ENTRY_BYTES);
    ghost var c := firstCheckedCluster;  // the cluster whose entry is at (currentSector, indexInSector)
    ScanLimitIs(v.g, firstCheckedCluster);
    while currentSector < sectorsPerFat
      invariant currentSector == firstFatSector + c / ENTRIES_PER_SECTOR && indexInSector == c % ENTRIES_PER_SECTOR
      invariant v.disk == old(v.disk) && firstCheckedCluster <= c && NoneFree(v.g, v.disk, firstCheckedCluster, c)
      invariant if c == firstCheckedCluster then !succeeded
        else succeeded && firstCheckedCluster < ScanLimit(v.g) <= entriesPerFat
    {
      succeeded := true;
      EntryPosition(v.g, currentSector, indexInSector);
      FatSectorBounds(v.g, c);
      indexInSector := FirstZeroEntry(v.disk[currentSector], indexInSector);
      NoneFreeInSector(v.g, v.disk, currentSector, firstCheckedCluster, c, indexInSector);
      if indexInSector < BYTES_PER_SECTOR / ENTRY_BYTES {
        freeCluster := ClusterFound(v, currentSector, indexInSector, markReserved);
        return;
      }
      indexInSector, currentSector := 0, currentSector + 1;
      c := (currentSector - firstFatSector) * ENTRIES_PER_SECTOR;
      Bits.RemainderIs(c, ENTRIES_PER_SECTOR, currentSector - firstFatSector, 0);
    }
    ScanLimitIs(v.g, c);
  }

  // The part of _FirstFreeCluster behind a free entry
  method ClusterFound(v: Volume, currentSector: nat, indexInSector: nat, markReserved: bool) returns (freeCluster: nat)
    requires v.Valid() && indexInSector < ENTRIES_PER_SECTOR && currentSector < |v.disk|
    requires v.g.reservedSectors <= currentSector < (v.g.countOfClusters + 2) * ENTRY_BYTES / BYTES_PER_SECTOR
    requires ClusterValue(v.disk[currentSector][indexInSector]) == 0
    modifies v
    ensures v.Valid() && freeCluster == (currentSector - v.g.reservedSectors) * ENTRIES_PER_SECTOR + indexInSector
    ensures v.g.IsCluster(freeCluster) && freeCluster < ScanLimit(v.g) && IsFree(v.g, old(v.disk), freeCluster)
    ensures v.disk == if markReserved then WithValue(v.g, old(v.disk), freeCluster, FAT32_EOC_MARK) else old(v.disk)
  {
    EntryPosition(v.g, currentSector, indexInSector);
    freeCluster := (currentSector - v.g.reservedSectors) * (BYTES_PER_SECTOR / ENTRY_BYTES) + indexInSector;
    if markReserved { WriteEntry(v, currentSector, indexInSector, freeCluster, FAT32_EOC_MARK); }
    assert 2 <= freeCluster < v.g.countOfClusters + 2 && freeCluster != FAT32_UNKNOWN;
  }

  // The loop reads a sector exactly for hints below the scan limit.
  lemma ScanLimitIs(g: Geometry, hint: nat)
    ensures ScanLimit(g) <= g.countOfClusters + 2
    ensures g.reservedSectors + hint / ENTRIES_PER_SECTOR < (g.countOfClusters + 2) * ENTRY_BYTES / BYTES_PER_SECTOR
       <==> hint < ScanLimit(g)
  {
  }

  // The scan of one sector of the FAT.
  method FirstZeroEntry(entries: Sector, start: nat) returns (i: nat)
    requires start < ENTRIES_PER_SECTOR
    ensures start <= i <= ENTRIES_PER_SECTOR
    ensures i < ENTRIES_PER_SECTOR ==> ClusterValue(entries[i]) == 0
    ensures forall k :: start <= k < i ==> ClusterValue(entries[k]) != 0
  {
    i := start;
    while i < BYTES_PER_SECTOR / ENTRY_BYTES
      invariant start <= i <= ENTRIES_PER_SECTOR
      invariant forall k :: start <= k < i ==> ClusterValue(entries[k]) != 0
    {
      var value := MaskedValue(entries[i]);
      if value == 0 { break; }
      i := i + 1;
    }
  }

  // Read, modify and write back one sector of the FAT.
  method WriteEntry(v: Volume, sector: nat, index: nat, ghost c: nat, value: nat)
    requires v.Valid() && v.g.IsCluster(c) && sector == FatSector(v.g, c) && index == c % ENTRIES_PER_SECTOR
    requires 0 < value <= FAT32_CLUSTER_MASK
    modifies v
    ensures v.Valid() && v.disk == WithValue(v.g, old(v.disk), c, value)
  {
    FatSectorBounds(v.g, c);
    EntryAfterWithValue(v.g, v.disk, c, value);
    var entries := v.disk[sector];
    var entry := CombinedEntry(entries[index], value);
    entries := entries[index := entry];
    v.disk := v.disk[sector := entries];
  }

  lemma NoneFreeInSector(g: Geometry, disk: seq<Sector>, sector: nat, from: nat, c: nat, index: nat)
    requires FitsDisk(g, disk) && from <= c && NoneFree(g, disk, from, c)
    requires g.reservedSectors <= sector < (g.countOfClusters + 2) * ENTRY_BYTES / BYTES_PER_SECTOR
    requires sector < |disk| && sector == FatSector(g, c) && index <= ENTRIES_PER_SECTOR
    requires forall k :: c % ENTRIES_PER_SECTOR <= k < index ==> ClusterValue(disk[sector][k]) != 0
    ensures NoneFree(g, disk, from, (sector - g.reservedSectors) * ENTRIES_PER_SECTOR + index)
  {
    forall x: nat | c <= x < (sector - g.reservedSectors) * ENTRIES_PER_SECTOR + index && x < g.countOfClusters + 2
      ensures !IsFree(g, disk, x)
    {
      assert x / ENTRIES_PER_SECTOR == c / ENTRIES_PER_SECTOR;
      assert c % ENTRIES_PER_SECTOR <= x % ENTRIES_PER_SECTOR < index;
    }
  }

  ghost predicate NoneFree(g: Geometry, disk: seq<Sector>, from: nat, to: nat)
    requires FitsDisk(g, disk)
  {
    forall c: nat {:trigger IsFree(g, disk, c)} :: from <= c < to && c < g.countOfClusters + 2 ==> !IsFree(g, disk, c)
  }

  // Sector and index address exactly the cluster's own FAT entry.
  lemma EntryPosition(g: Geometry, sector: nat, index: nat)
    requires g.reservedSectors <= sector < (g.countOfClusters + 2) * ENTRY_BYTES / BYTES_PER_SECTOR
    requires index < ENTRIES_PER_SECTOR
    ensures var c := (sector - g.reservedSectors) * ENTRIES_PER_SECTOR + index;
            c < g.countOfClusters + 2 && FatSector(g, c) == sector && c % ENTRIES_PER_SECTOR == index
  {
    Bits.RemainderIs((sector - g.reservedSectors) * ENTRIES_PER_SECTOR + index, ENTRIES_PER_SECTOR,
                     sector - g.reservedSectors, index);
  }

  // The unknown free count is recomputed as the number of free clusters behind the reserved one.
  method CountFreeAfter(v: Volume, reserved: nat) returns (count: nat)
    requires v.Valid() && reserved < ScanLimit(v.g) <= v.g.countOfClusters + 2
    modifies v
    ensures v.disk == old(v.disk) && count == CountFree(v.g, v.disk, reserved + 1, ScanLimit(v.g)) < ScanLimit(v.g)
  {
    count := 0;
    var freeCluster := reserved;
    while true
      invariant v.disk == old(v.disk) && v.Valid()
      invariant reserved <= freeCluster < ScanLimit(v.g) && count <= freeCluster - reserved
      invariant count + CountFree(v.g, v.disk, freeCluster + 1, ScanLimit(v.g))
        == CountFree(v.g, v.disk, reserved + 1, ScanLimit(v.g))
      decreases ScanLimit(v.g) - freeCluster
    {
      var succeeded, next := FirstFreeCluster(v, freeCluster + 1, false);
      CountFreeFrom(v.g, v.disk, freeCluster + 1, ScanLimit(v.g), next);
      // a failed scan leaves the function here, with the count so far in FSInfo
      if !succeeded || next == 0 { break; }
      freeCluster := next;
      count := count + 1;
    }
  }

  // Counting from a position is one more than counting behind the lowest free cluster there.
  lemma {:induction false} CountFreeFrom(g: Geometry, disk: seq<Sector>, from: nat, limit: nat, r: nat)
    requires FitsDisk(g, disk) && limit <= g.countOfClusters + 2 && IsLowestFree(g, disk, from, limit, r)
    ensures CountFree(g, disk, from, limit) == if r == 0 then 0 else 1 + CountFree(g, disk, r + 1, limit)
    decreases if from < limit then limit - from else 0
  {
    if from < limit && (r == 0 || from != r) { CountFreeFrom(g, disk, from + 1, limit, r); }
  }

  // FSI_Free_Count after cluster r was taken.
  function FreeCountAfter(g: Geometry, disk: seq<Sector>, last: nat, r: nat): nat
    requires FitsDisk(g, disk) && |disk| > FSINFO_SECTOR && g.IsCluster(last) && g.IsCluster(r)
    requires r < ScanLimit(g) <= g.countOfClusters + 2 && FreeCount(disk) != 0
  {
    if FreeCount(disk) != FAT32_UNKNOWN then FreeCount(disk) - 1
    else CountFree(g, WithValue(g, WithValue(g, disk, r, FAT32_EOC_MARK), last, r), r + 1, ScanLimit(g))
  }

  // What _AddNewClusterToChain does.  Without a cluster it still reports success, with cluster 0,
  // because the status is overwritten when FSInfo is written back.  FSInfo then says that the disk
  // is full, unless the scan itself failed.  A successful scan that finds nothing in spite of a known
  // positive free count fails an ASSERT.
  ghost predicate Extends(g: Geometry, before: seq<Sector>, after: seq<Sector>, last: nat, aborted: bool, reserved: nat)
    requires FitsDisk(g, before) && |before| > FSINFO_SECTOR && g.IsCluster(last)
    requires ScanLimit(g) <= g.countOfClusters + 2
  {
    && (if FreeCount(before) == 0 then !aborted && reserved == 0
        else && IsLowestFree(g, before, NextFree(before), ScanLimit(g), reserved)
             && (aborted <==> reserved == 0 && FreeCount(before) != FAT32_UNKNOWN && ScanSucceeds(g, NextFree(before))))
    && (reserved == 0 ==>
        after == if !aborted && (FreeCount(before) == 0 || ScanSucceeds(g, NextFree(before)))
                 then WithFsInfo(before, 0, FAT32_UNKNOWN) else before)
    && (reserved != 0 ==>
        && g.IsCluster(reserved) && reserved != last && FreeCountAfter(g, before, last, reserved) < 0x1_0000_0000
        && after == Linked(g, before, last, reserved, FreeCountAfter(g, before, last, reserved)))
  }

  // What a refused extension leaves in FSInfo: a full disk if the free count was 0 or the scan looked
  // in vain at an unknown count, and in every other case what was there; nothing else changes.
  lemma RefusalInFsInfo(g: Geometry, before: seq<Sector>, after: seq<Sector>, last: nat, aborted: bool)
    requires FitsDisk(g, before) && |before| > FSINFO_SECTOR && g.IsCluster(last)
    requires ScanLimit(g) <= g.countOfClusters + 2 && Extends(g, before, after, last, aborted, 0)
    ensures |after| == |before| && forall s :: 0 <= s < |before| && s != 1 ==> after[s] == before[s]
    ensures (FreeCount(before) == 0 || (FreeCount(before) == 0xFFFF_FFFF && ScanSucceeds(g, NextFree(before)))) ==>
      FreeCount(after) == 0 && NextFree(after) == 0xFFFF_FFFF
    ensures !(FreeCount(before) == 0 || (FreeCount(before) == 0xFFFF_FFFF && ScanSucceeds(g, NextFree(before)))) ==>
      after == before
  {
    FsInfoFields(before, 0, FAT32_UNKNOWN);
  }

  // _AddNewClusterToChain
  method AddNewClusterToChain(v: Volume, last: nat) returns (aborted: bool, reserved: nat)
    requires v.Valid() && v.g.IsCluster(last) && !IsFree(v.g, v.disk, last)
    modifies v
    ensures v.Valid() && ScanLimit(v.g) <= v.g.countOfClusters + 2
    ensures Extends(v.g, old(v.disk), v.disk, last, aborted, reserved)
  {
    aborted, reserved := false, 0;
    var freeCount, nextFree: Dword := v.disk[FSINFO_SECTOR][FSI_FREE_COUNT], v.disk[FSINFO_SECTOR][FSI_NXT_FREE];
    if freeCount == 0 {
      WriteFsInfo(v, freeCount, FAT32_UNKNOWN);
      return;
    }
    var succeeded;
    succeeded, reserved := FirstFreeCluster(v, nextFree, true);
    if !succeeded {
      WriteFsInfo(v, freeCount, nextFree);
      SameFsInfo(old(v.disk));
      return;
    }
    if reserved == 0 {
      if freeCount != FAT32_UNKNOWN {
        aborted := true;
        return;
      }
      WriteFsInfo(v, 0, FAT32_UNKNOWN);
      return;
    }
    LinkReserved(v, last, reserved, freeCount, old(v.disk));
  }

  // The rest of _AddNewClusterToChain, once a cluster is reserved on a disk that was `before`.
  method LinkReserved(v: Volume, last: nat, reserved: nat, oldFreeCount: Dword, ghost before: seq<Sector>)
    requires v.Valid() && v.g.IsCluster(last) && v.g.IsCluster(reserved)
    requires reserved < ScanLimit(v.g) <= v.g.countOfClusters + 2
    requires FitsDisk(v.g, before) && |before| > FSINFO_SECTOR && !IsFree(v.g, before, last)
    requires IsFree(v.g, before, reserved)
    requires v.disk == WithValue(v.g, before, reserved, FAT32_EOC_MARK)
    requires FreeCount(before) == oldFreeCount != 0
    modifies v
    ensures v.Valid() && FreeCountAfter(v.g, before, last, reserved) < 0x1_0000_0000
    ensures v.disk == Linked(v.g, before, last, reserved, FreeCountAfter(v.g, before, last, reserved))
  {
    FatSectorBounds(v.g, reserved);
    WriteEntry(v, v.g.reservedSectors + last * ENTRY_BYTES / BYTES_PER_SECTOR, last % (BYTES_PER_SECTOR / ENTRY_BYTES),
               last, reserved);
    var freeCount: Dword := oldFreeCount;
    if freeCount == FAT32_UNKNOWN {
      freeCount := CountFreeAfter(v, reserved);
    } else {
      freeCount := freeCount - 1;
    }
    WriteFsInfo(v, freeCount, reserved);
  }

  lemma SameFsInfo(disk: seq<Sector>)
    requires |disk| > FSINFO_SECTOR
    ensures WithFsInfo(disk, FreeCount(disk), NextFree(disk)) == disk
  {
    var s := disk[FSINFO_SECTOR];
    assert s[FSI_FREE_COUNT := s[FSI_FREE_COUNT]][FSI_NXT_FREE := s[FSI_NXT_FREE]] == s;
  }

  method WriteFsInfo(v: Volume, freeCount: Dword, nextFree: Dword)
    requires v.Valid()
    modifies v
    ensures v.Valid() && v.disk == WithFsInfo(old(v.disk), freeCount, nextFree)
  {
    FsInfoIsOutsideFat(v.g, v.disk, freeCount, nextFree);
    v.disk := v.disk[FSINFO_SECTOR := v.disk[FSINFO_SECTOR][FSI_FREE_COUNT := freeCount][FSI_NXT_FREE := nextFree]];
  }

  // ----- NextSectorInClusterChain -----

  // What the call does from a sector of cluster c; `reserved` is the cluster it added, if any.
  ghost predicate Follows(g: Geometry, before: seq<Sector>, after: seq<Sector>, c: nat, extendChain: bool,
                          status: Status, nextSector: nat, reserved: nat)
    requires FitsDisk(g, before) && |before| > FSINFO_SECTOR && g.IsCluster(c) && ScanLimit(g) <= g.countOfClusters + 2
  {
    var next, repaired := Successor(Value(g, before, c)), Repaired(g, before, c);
    if !IsEoc(next) then
      && after == repaired && status != Aborted && (status == Success <==> g.IsCluster(next))
      && (status == Success ==> nextSector == g.SectorOf(next, 0))
    else if !extendChain then
      after == repaired && status == Success && nextSector == 0
    else
      && Extends(g, repaired, after, c, status == Aborted, reserved)
      && (status == Success <==> reserved != 0) && (reserved != 0 ==> nextSector == g.SectorOf(reserved, 0))
  }

  method NextSectorInClusterChain(v: Volume, currentSector: nat, extendChain: bool)
    returns (status: Status, nextSector: nat, ghost reserved: nat)
    requires v.Valid()
    modifies v
    ensures v.Valid() && status != ElementNotFound && ScanLimit(v.g) <= v.g.countOfClusters + 2
    ensures ClusterOfSector(v.g, currentSector).ClusterInvalid? ==>
      status == DeviceClusterInvalid && v.disk == old(v.disk)
    ensures ClusterOfSector(v.g, currentSector).Ok? ==>
      Follows(v.g, old(v.disk), v.disk, ClusterOfSector(v.g, currentSector).value, extendChain, status, nextSector,
              reserved)
  {
    status, nextSector, reserved := Success, 0, 0;
    var current := ClusterOfSector(v.g, currentSector);
    if current.ClusterInvalid? {
      status := DeviceClusterInvalid;
      return;
    }
    var nextCluster := NextClusterInChain(v, current.value);
    if IsEoc(nextCluster) {
      if !extendChain { return; }
      assert !IsFree(v.g, v.disk, current.value) by { RepairedIsInUse(v.g, old(v.disk), current.value); }
      var aborted, added := AddNewClusterToChain(v, current.value);
      nextCluster, reserved := added, added;
      if aborted {
        status := Aborted;
        return;
      }
    }
    var sector := FirstSectorOfCluster(v.g, nextCluster);
    if sector.ClusterInvalid? {
      status := DeviceClusterInvalid;
      return;
    }
    nextSector := sector.value;
  }

  lemma RepairedIsInUse(g: Geometry, disk: seq<Sector>, c: nat)
    requires FitsDisk(g, disk) && g.IsCluster(c)
    ensures !IsFree(g, Repaired(g, disk, c), c)
  {
    if IsFree(g, disk, c) { ValueAfterWithValue(g, disk, c, FAT32_EOC_MARK); }
  }
}
