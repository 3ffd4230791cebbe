/**
  Walking a chain, and FatReadFile (src/FAT32/src/fat_operations.c) against reading a range of a
  sequence of sectors.
 */
module FatOperations {

  import opened Basics
  import opened FatLayout
  import opened FatChain
  import opened FatVolume
  import opened FatBudget
  import opened FatFile
  import opened FatDirectory
  import Bits

  // ----- one step along a chain -----

  // Following a link never touches the data region.
  lemma FollowsKeepsData(g: Geometry, before: seq<Sector>, after: seq<Sector>, c: nat, extendChain: bool,
                         status: Status, nextSector: nat, reserved: nat)
    requires FitsDisk(g, before) && |before| > FSINFO_SECTOR && g.IsCluster(c) && ScanLimit(g) <= g.countOfClusters + 2
    requires Follows(g, before, after, c, extendChain, status, nextSector, reserved)
    ensures SameData(g, before, after)
  {
    var repaired := Repaired(g, before, c);
    EntryAfterWithValue(g, before, c, FAT32_EOC_MARK);
    FatSectorBounds(g, c);
    if IsEoc(Successor(Value(g, before, c))) && extendChain {
      if reserved != 0 {
        EntriesAfterLinked(g, repaired, c, reserved, FreeCountAfter(g, repaired, c, reserved));
      } else {
        FsInfoIsOutsideFat(g, repaired, 0, FAT32_UNKNOWN);
      }
    }
  }

  // The chain after a step that added cluster `reserved` (0: none) at its end.
  function Extended(chain: seq<nat>, reserved: nat): seq<nat> { if reserved == 0 then chain else chain + [reserved] }

  // From a sector of cluster i the step finds the next cluster of the chain.
  lemma StepInside(g: Geometry, before: seq<Sector>, after: seq<Sector>, chain: seq<nat>, i: nat, extendChain: bool,
                   status: Status, nextSector: nat, reserved: nat)
    requires FitsDisk(g, before) && IsChain(g, before, chain) && i < |chain| - 1
    requires Follows(g, before, after, chain[i], extendChain, status, nextSector, reserved)
    ensures status == Success && nextSector == g.SectorOf(chain[i + 1], 0) && after == before
  {
    ChainIsInUse(g, before, chain, i);
    assert Value(g, before, chain[i]) == chain[i + 1];
    assert g.IsCluster(chain[i + 1]);
  }

  // Behind the last cluster it finds nothing, or adds one free cluster.
  lemma StepBehind(g: Geometry, before: seq<Sector>, after: seq<Sector>, chain: seq<nat>, extendChain: bool,
                   status: Status, nextSector: nat, reserved: nat)
    requires FitsDisk(g, before) && IsChain(g, before, chain) && status != ElementNotFound
    requires Follows(g, before, after, chain[|chain| - 1], extendChain, status, nextSector, reserved)
    ensures !extendChain ==> status == Success && nextSector == 0 && after == before
    ensures extendChain ==>
      && Extends(g, before, after, chain[|chain| - 1], status == Aborted, reserved)
      && (status == Success <==> reserved != 0) && (reserved != 0 ==> nextSector == g.SectorOf(reserved, 0))
  {
    ChainIsInUse(g, before, chain, |chain| - 1);
  }

  // Both, with what they do to the chain.
  lemma StepOnChain(g: Geometry, before: seq<Sector>, after: seq<Sector>, chain: seq<nat>, i: nat, extendChain: bool,
                    status: Status, nextSector: nat, reserved: nat)
    requires FitsDisk(g, before) && FitsDisk(g, after) && IsChain(g, before, chain) && i < |chain|
    requires status != ElementNotFound && Follows(g, before, after, chain[i], extendChain, status, nextSector, reserved)
    ensures i < |chain| - 1 ==> status == Success && nextSector == g.SectorOf(chain[i + 1], 0) && after == before
    ensures i == |chain| - 1 && !extendChain ==> status == Success && nextSector == 0 && after == before
    ensures i == |chain| - 1 && extendChain ==>
      && Grew(g, before, after, chain, Extended(chain, reserved))
      && (status == Success <==> reserved != 0)
      && (status == Success ==> g.IsCluster(reserved) && nextSector == g.SectorOf(reserved, 0))
      && (status != Success ==> Budget(g, after) == 0 && status == RefusalStatus(g, after))
  {
    if i < |chain| - 1 {
      StepInside(g, before, after, chain, i, extendChain, status, nextSector, reserved);
    } else {
      StepBehind(g, before, after, chain, extendChain, status, nextSector, reserved);
      if extendChain { GrewByExtension(g, before, after, chain, status == Aborted, reserved); }
    }
  }

  // A position while walking a chain: cluster number k of the chain, which begins at logical sector pos.
  datatype Cursor = Cursor(chain: seq<nat>, k: nat, cluster: nat, pos: nat)

  ghost predicate OnChain(g: Geometry, disk: seq<Sector>, at: Cursor)
    requires FitsDisk(g, disk)
  {
    && IsChain(g, disk, at.chain) && AreClusters(g, at.chain)
    && at.k < |at.chain| && at.chain[at.k] == at.cluster && at.pos == |Places(g, at.chain[..at.k])|
  }

  // The cursor in cluster k knows where the next cluster begins, and whether there is one.
  lemma NextPosition(g: Geometry, disk: seq<Sector>, at: Cursor)
    requires FitsDisk(g, disk) && OnChain(g, disk, at)
    ensures at.pos + g.sectorsPerCluster == |Places(g, at.chain[..at.k + 1])| <= |Places(g, at.chain)|
    ensures at.k == |at.chain| - 1 <==> at.pos + g.sectorsPerCluster == |Places(g, at.chain)|
  {
    PlacesOfCluster(g, at.chain, at.k);
    if at.k == |at.chain| - 1 {
      assert at.chain[..at.k + 1] == at.chain;
    } else {
      PlacesOfCluster(g, at.chain, at.k + 1);
    }
  }

  // How long the file is behind a step that may have added a cluster.
  lemma LengthOnChain(g: Geometry, before: seq<Sector>, after: seq<Sector>, from: Cursor, to: Cursor)
    requires FitsDisk(g, before) && FitsDisk(g, after) && OnChain(g, before, from) && IsChain(g, after, to.chain)
    requires to.chain == from.chain || (from.k == |from.chain| - 1 && |to.chain| == |from.chain| + 1)
    ensures AreClusters(g, to.chain)
    ensures to.chain != from.chain ==> |Places(g, to.chain)| == from.pos + g.sectorsPerCluster + g.sectorsPerCluster
    ensures from.k == |from.chain| - 1 ==> |Places(g, from.chain)| == from.pos + g.sectorsPerCluster
  {
    ChainPlaces(g, after, to.chain);
    NextPosition(g, before, from);
    PlacesLength(g, from.chain);
    PlacesLength(g, to.chain);
  }

  // Part of the cursor's cluster, as part of the file.
  lemma ChunkOfPlaces(g: Geometry, disk: seq<Sector>, at: Cursor, o: nat, m: nat)
    requires FitsDisk(g, disk) && OnChain(g, disk, at) && o + m <= g.sectorsPerCluster
    ensures at.pos + o + m <= |Places(g, at.chain)|
    ensures Places(g, at.chain)[at.pos + o..at.pos + o + m] == Run(g.SectorOf(at.cluster, o), m)
  {
    PlacesOfCluster(g, at.chain, at.k);
    PartOfRun(Places(g, at.chain), at.pos, g.SectorOf(at.cluster, 0), g.sectorsPerCluster, o, m);
  }

  // NextSectorInClusterChain as seen from a cursor.
  method NextOnChain(v: Volume, currentSector: nat, extendChain: bool, ghost at: Cursor, ghost o: nat,
                     ghost chained: bool)
    returns (status: Status, nextSector: nat, ghost to: Cursor)
    requires v.Valid() && v.g.IsCluster(at.cluster) && currentSector == v.g.SectorOf(at.cluster, o)
    requires o < v.g.sectorsPerCluster
    requires chained ==> OnChain(v.g, v.disk, at)
    modifies v
    ensures v.Valid() && SameData(v.g, old(v.disk), v.disk) && status != ElementNotFound
    ensures to.pos == at.pos + v.g.sectorsPerCluster
    ensures chained && extendChain && status == Success ==> nextSector != 0
    ensures status == Success && nextSector != 0 ==>
      v.g.IsCluster(to.cluster) && nextSector == v.g.SectorOf(to.cluster, 0)
    ensures chained ==>
      && Grew(v.g, old(v.disk), v.disk, at.chain, to.chain)
      && (status == Success && nextSector != 0 ==> OnChain(v.g, v.disk, to))
      && (to.chain == at.chain || (at.k == |at.chain| - 1 && |to.chain| == |at.chain| + 1))
      && (extendChain && status != Success ==>
            at.k == |at.chain| - 1 && to.chain == at.chain && Budget(v.g, v.disk) == 0
            && status == RefusalStatus(v.g, v.disk))
      && (!extendChain ==> status == Success && v.disk == old(v.disk) && to.chain == at.chain)
      && (!extendChain ==> (nextSector == 0 <==> at.pos + v.g.sectorsPerCluster == |Places(v.g, at.chain)|))
  {
    ClusterOfSectorInverts(v.g, at.cluster, o);
    ghost var reserved;
    status, nextSector, reserved := NextSectorInClusterChain(v, currentSector, extendChain);
    FollowsKeepsData(v.g, old(v.disk), v.disk, at.cluster, extendChain, status, nextSector, reserved);
    ghost var pos := at.pos + v.g.sectorsPerCluster;
    to := Cursor(at.chain, at.k + 1, 0, pos);
    if chained {
      StepOnChain(v.g, old(v.disk), v.disk, at.chain, at.k, extendChain, status, nextSector, reserved);
      NextPosition(v.g, old(v.disk), at);
      if at.k < |at.chain| - 1 {
        GrewByNothing(v.g, v.disk, at.chain);
        to := Cursor(at.chain, at.k + 1, at.chain[at.k + 1], pos);
        SectorBounds(v.g, to.cluster, 0);
      } else if extendChain {
        to := Cursor(Extended(at.chain, reserved), at.k + 1, reserved, pos);
        if reserved != 0 {
          SectorBounds(v.g, reserved, 0);
          assert to.chain[..to.k] == at.chain[..at.k + 1];
        }
      } else {
        GrewByNothing(v.g, v.disk, at.chain);
      }
    } else if status == Success && nextSector != 0 {
      to := Cursor(at.chain, at.k + 1, NextCluster(v.g, old(v.disk), at.cluster, reserved), pos);
    }
  }

  ghost function NextCluster(g: Geometry, disk: seq<Sector>, c: nat, reserved: nat): nat
    requires FitsDisk(g, disk) && g.IsCluster(c)
  {
    if IsEoc(Successor(Value(g, disk, c))) then reserved else Value(g, disk, c)
  }

  // ----- reaching the first sector -----

  // What holds of every prefix of a walk.
  ghost predicate Walked(g: Geometry, before: seq<Sector>, disk: seq<Sector>, start: Cursor, at: Cursor,
                         extendChain: bool)
    requires FitsDisk(g, before) && FitsDisk(g, disk)
  {
    Grew(g, before, disk, start.chain, at.chain) && (!extendChain ==> disk == before && at.chain == start.chain)
  }

  // A chain grown to hold `end` sectors has no cluster too many.
  ghost predicate NotTooLong(g: Geometry, chain: seq<nat>, longer: seq<nat>, end: nat)
    requires AreClusters(g, longer)
  {
    longer == chain || |Places(g, longer)| < end + g.sectorsPerCluster
  }

  // The walk to the cluster of SectorOffset, one cluster at a time; `at` is where it ends.
  method Seek(v: Volume, baseFileSector: nat, sectorOffset: nat, extendChain: bool, ghost start: Cursor,
              ghost chained: bool)
    returns (status: Status, currentSector: nat, ghost at: Cursor)
    requires v.Valid() && v.g.IsCluster(start.cluster) && baseFileSector == v.g.SectorOf(start.cluster, 0)
    requires start.pos == 0
    requires chained ==> OnChain(v.g, v.disk, start)
    modifies v
    ensures v.Valid() && SameData(v.g, old(v.disk), v.disk) && status != ElementNotFound
    ensures status == Success ==>
      && v.g.IsCluster(at.cluster) && currentSector == v.g.SectorOf(at.cluster, sectorOffset % v.g.sectorsPerCluster)
      && sectorOffset == at.pos + sectorOffset % v.g.sectorsPerCluster
    ensures chained ==> Walked(v.g, old(v.disk), v.disk, start, at, extendChain)
    ensures chained && status == Success ==> OnChain(v.g, v.disk, at)
    ensures chained && extendChain ==>
      AreClusters(v.g, at.chain) && NotTooLong(v.g, start.chain, at.chain, sectorOffset + 1)
    ensures chained && extendChain && status != Success ==>
      |Places(v.g, at.chain)| <= sectorOffset && Budget(v.g, v.disk) == 0 && status == RefusalStatus(v.g, v.disk)
    ensures chained && !extendChain ==>
      AreClusters(v.g, start.chain) && status == SeekStatus(v.g, start.chain, sectorOffset)
  {
    currentSector, at, status := baseFileSector, start, Success;
    var sectorsTraversed := 0;
    SectorBounds(v.g, start.cluster, 0);
    if chained { GrewByNothing(v.g, v.disk, start.chain); }
    while sectorsTraversed + v.g.sectorsPerCluster <= sectorOffset
      invariant v.Valid() && SameData(v.g, old(v.disk), v.disk) && status == Success
      invariant sectorsTraversed == at.pos <= sectorOffset
      invariant (sectorOffset - sectorsTraversed) % v.g.sectorsPerCluster == sectorOffset % v.g.sectorsPerCluster
      invariant currentSector != 0 ==> v.g.IsCluster(at.cluster) && currentSector == v.g.SectorOf(at.cluster, 0)
      invariant chained ==> Walked(v.g, old(v.disk), v.disk, start, at, extendChain)
      invariant chained ==> AreClusters(v.g, at.chain) && NotTooLong(v.g, start.chain, at.chain, sectorOffset + 1)
      invariant chained ==>
        if currentSector != 0 then OnChain(v.g, v.disk, at) else !extendChain && at.pos == |Places(v.g, start.chain)|
      decreases sectorOffset - sectorsTraversed
    {
      if currentSector == 0 {
        // ClusterOfSector wraps around and refuses sector 0
        NoClusterOfSectorZero(v.g);
        ghost var none;
        status, currentSector, none := NextSectorInClusterChain(v, currentSector, extendChain);
        return;
      }
      ghost var before, from := v.disk, at;
      status, currentSector, at := NextOnChain(v, currentSector, extendChain, at, 0, chained);
      if chained { LengthOnChain(v.g, before, v.disk, from, at); }
      if chained { GrewTwice(v.g, old(v.disk), before, v.disk, start.chain, from.chain, at.chain); }
      if chained && !extendChain { NextPosition(v.g, before, from); }
      if status != Success { return; }
      OneClusterOn(sectorOffset - sectorsTraversed, v.g.sectorsPerCluster);
      sectorsTraversed := sectorsTraversed + v.g.sectorsPerCluster;
    }
    Bits.RemainderIs(sectorOffset - sectorsTraversed, v.g.sectorsPerCluster, 0, sectorOffset - sectorsTraversed);
    if currentSector == 0 {
      status := Aborted;
      return;
    }
    if chained { NextPosition(v.g, v.disk, at); }
    currentSector := currentSector + sectorOffset % v.g.sectorsPerCluster;
  }

  lemma OneClusterOn(x: nat, n: nat)
    requires 0 < n <= x
    ensures (x - n) % n == x % n
  {
    assert x - n == (x / n - 1) * n + x % n;
    Bits.RemainderIs(x - n, n, x / n - 1, x % n);
  }

  // FatReadFile and FatWriteFile assert that the first sector of a file is a multiple of the cluster
  // size.  That holds for all files of a volume or for none.
  lemma FilesAreAligned(g: Geometry, c: nat)
    requires g.Valid() && g.IsCluster(c) && Bits.IsPowerOf2(g.sectorsPerCluster) && g.SectorOf(c, 0) < QWORD_SIZE
    ensures Bits.IsAddressAligned(g.SectorOf(c, 0), g.sectorsPerCluster) <==>
      g.firstDataSector % g.sectorsPerCluster == 0
  {
    var n, d := g.sectorsPerCluster, g.firstDataSector;
    Bits.AlignLowerRoundsDown(g.SectorOf(c, 0), n);
    SameRemainder(c - 2, n, d);
  }

  lemma SameRemainder(k: nat, n: nat, d: nat)
    requires 0 < n
    ensures (k * n + d) % n == d % n
  {
    var q, r := d / n, d % n;
    assert (k + q) * n == k * n + q * n;
    Bits.RemainderIs(k * n + d, n, k + q, r);
  }

  // A volume FatInitVolume takes, with 33 reserved sectors and 8 sectors per cluster, where it holds
  // for none.
  lemma NoFileIsAligned(c: nat)
    requires 2 <= c < 65527
    ensures var g := Geometry(65525, 33, 1057, 8); g.Valid() && !Bits.IsAddressAligned(g.SectorOf(c, 0), 8)
  {
    assert Bits.Pow2(3) == 8;
    FilesAreAligned(Geometry(65525, 33, 1057, 8), c);
  }

  // Reading past the end: one cluster past it fails an ASSERT, further on the cluster is refused.
  function SeekStatus(g: Geometry, chain: seq<nat>, sectorOffset: nat): Status
    requires AreClusters(g, chain)
  {
    var size := |Places(g, chain)|;
    if sectorOffset < size then Success
    else if sectorOffset < size + g.sectorsPerCluster then Aborted
    else DeviceClusterInvalid
  }

  // ----- reading -----

  // The file held by a chain.
  function FileOf(g: Geometry, disk: seq<Sector>, chain: seq<nat>): seq<Sector>
    requires AreClusters(g, chain) && OnDisk(Places(g, chain), disk)
  {
    Gather(disk, Places(g, chain))
  }

  // The sectors read from the cursor's cluster are the ones at that position of the file.
  lemma ChunkRead(g: Geometry, disk: seq<Sector>, at: Cursor, o: nat, m: nat, sector: nat)
    requires FitsDisk(g, disk) && OnChain(g, disk, at) && OnDisk(Places(g, at.chain), disk)
    requires o + m <= g.sectorsPerCluster && sector == g.SectorOf(at.cluster, o) && sector + m <= |disk|
    ensures var n := at.pos + o;
            n + m <= |FileOf(g, disk, at.chain)| && disk[sector..sector + m] == FileOf(g, disk, at.chain)[n..n + m]
  {
    ChunkOfPlaces(g, disk, at, o, m);
    GatherSlice(disk, Places(g, at.chain), at.pos + o, at.pos + o + m);
    GatherRun(disk, sector, m);
  }

  // The data read so far is the part of the file that starts at the offset.
  ghost predicate IsPart(data: seq<Sector>, file: seq<Sector>, offset: nat)
  {
    offset + |data| <= |file| && data == file[offset..offset + |data|]
  }

  lemma PartExtends(data: seq<Sector>, file: seq<Sector>, offset: nat, chunk: seq<Sector>)
    requires IsPart(data, file, offset) && offset + |data| + |chunk| <= |file|
    requires chunk == file[offset + |data|..offset + |data| + |chunk|]
    ensures IsPart(data + chunk, file, offset)
  {
  }

  // IoReadDeviceEx into the next part of the buffer.
  method ReadChunk(v: Volume, currentSector: nat, sectors: nat, data: seq<Sector>, ghost at: Cursor, ghost o: nat,
                   ghost offset: nat, ghost chained: bool)
    returns (more: seq<Sector>)
    requires v.Valid() && v.g.IsCluster(at.cluster) && currentSector == v.g.SectorOf(at.cluster, o)
    requires 0 < sectors && o + sectors <= v.g.sectorsPerCluster
    requires chained ==>
      && OnChain(v.g, v.disk, at) && OnDisk(Places(v.g, at.chain), v.disk)
      && offset + |data| == at.pos + o && IsPart(data, FileOf(v.g, v.disk, at.chain), offset)
    ensures |more| == |data| + sectors
    ensures chained ==> IsPart(more, FileOf(v.g, v.disk, at.chain), offset)
  {
    SectorBounds(v.g, at.cluster, o + sectors - 1);
    var chunk := v.disk[currentSector..currentSector + sectors];
    more := data + chunk;
    if chained {
      ChunkRead(v.g, v.disk, at, o, sectors, currentSector);
      PartExtends(data, FileOf(v.g, v.disk, at.chain), offset, chunk);
    }
  }

  // The read loop of FatReadFile.
  method ReadClusters(v: Volume, firstSector: nat, sectorOffset: nat, sectorsToRead: nat, ghost start: Cursor,
                      ghost chained: bool)
    returns (status: Status, data: seq<Sector>)
    requires v.Valid() && v.g.IsCluster(start.cluster) && 0 < sectorsToRead
    requires firstSector == v.g.SectorOf(start.cluster, sectorOffset % v.g.sectorsPerCluster)
    requires chained ==> OnChain(v.g, v.disk, start) && sectorOffset == start.pos + sectorOffset % v.g.sectorsPerCluster
    modifies v
    ensures v.Valid() && SameData(v.g, old(v.disk), v.disk)
    ensures chained ==>
      && AreClusters(v.g, start.chain) && OnDisk(Places(v.g, start.chain), old(v.disk))
      && v.disk == old(v.disk) && status == Success
      && IsPart(data, FileOf(v.g, v.disk, start.chain), sectorOffset)
      && |data| == Min(sectorsToRead, |FileOf(v.g, v.disk, start.chain)| - sectorOffset) > 0
  {
    ghost var at := start;
    ghost var o: nat := sectorOffset % v.g.sectorsPerCluster;
    if chained {
      ChainPlaces(v.g, v.disk, start.chain);
      NextPosition(v.g, v.disk, start);
    }
    status, data := Success, [];
    var currentSector: nat, sectorsRemaining: nat := firstSector, sectorsToRead;
    var sectors: nat := Min(sectorsRemaining, v.g.sectorsPerCluster - sectorOffset % v.g.sectorsPerCluster);
    while true
      invariant v.Valid() && SameData(v.g, old(v.disk), v.disk) && |data| + sectorsRemaining == sectorsToRead
      invariant status == Success
      invariant v.g.IsCluster(at.cluster) && currentSector == v.g.SectorOf(at.cluster, o)
      invariant 0 < sectors && o < v.g.sectorsPerCluster && sectors == Min(sectorsRemaining, v.g.sectorsPerCluster - o)
      invariant chained ==>
        && v.disk == old(v.disk) && OnChain(v.g, v.disk, at) && at.chain == start.chain
        && sectorOffset + |data| == at.pos + o && IsPart(data, FileOf(v.g, v.disk, start.chain), sectorOffset)
      decreases sectorsRemaining
    {
      data := ReadChunk(v, currentSector, sectors, data, at, o, sectorOffset, chained);
      sectorsRemaining := sectorsRemaining - sectors;
      if sectorsRemaining == 0 { break; }
      status, currentSector, at := NextOnChain(v, currentSector, false, at, o, chained);
      if status != Success || currentSector == 0 { break; }
      sectors, o := Min(v.g.sectorsPerCluster, sectorsRemaining), 0;
    }
  }

  // FatReadFile.  It terminates on any FAT; `chained` says that `start` is the beginning of a chain,
  // and then the data is the requested part of the file, cut at its end.
  method FatReadFile(v: Volume, baseFileSector: nat, sectorOffset: nat, dirEntrySector: nat, sectorsToRead: nat,
                     date: Word, ghost start: Cursor, ghost chained: bool)
    returns (status: Status, data: seq<Sector>, sectorsRead: nat, ghost slot: nat)
    requires v.Valid() && v.g.IsCluster(start.cluster) && baseFileSector == v.g.SectorOf(start.cluster, 0)
    requires start.pos == 0
    requires Bits.IsAddressAligned(baseFileSector, v.g.sectorsPerCluster)
    requires v.g.firstDataSector <= dirEntrySector && dirEntrySector + v.g.sectorsPerCluster <= |v.disk|
    requires chained ==> OnChain(v.g, v.disk, start)
    modifies v
    ensures v.Valid()
    ensures sectorsToRead == 0 ==> status == Success && data == [] && sectorsRead == 0 && v.disk == old(v.disk)
    ensures chained && sectorsToRead > 0 ==>
      && AreClusters(v.g, start.chain) && OnDisk(Places(v.g, start.chain), old(v.disk))
      && var file := FileOf(v.g, old(v.disk), start.chain);
         if SeekStatus(v.g, start.chain, sectorOffset) != Success
         then status == SeekStatus(v.g, start.chain, sectorOffset) && v.disk == old(v.disk)
         else && IsPart(data, file, sectorOffset) && |data| == Min(sectorsToRead, |file| - sectorOffset)
              && (status == Success || (status == ElementNotFound && v.disk == old(v.disk)))
              && (status == ElementNotFound ==> forall x: nat :: x < SLOTS_PER_SECTOR * v.g.sectorsPerCluster
                                                  ==> !Names(SlotAt(old(v.disk), dirEntrySector, x), start.cluster))
              && (status == Success ==>
                  && sectorsRead == |data|
                  && IsSlotOf(v.g, old(v.disk), dirEntrySector, start.cluster, slot)
                  && v.disk == WithSlot(old(v.disk), dirEntrySector, slot,
                                        Accessed(SlotAt(old(v.disk), dirEntrySector, slot), date))
                  && ReadIsRecorded(SlotAt(old(v.disk), dirEntrySector, slot), SlotAt(v.disk, dirEntrySector, slot),
                                    date))
  {
    data, sectorsRead, slot := [], 0, 0;
    if sectorsToRead == 0 { return Success, data, sectorsRead, slot; }
    if chained { ChainPlaces(v.g, v.disk, start.chain); }
    var currentSector;
    ghost var at;
    status, currentSector, at := Seek(v, baseFileSector, sectorOffset, false, start, chained);
    if status != Success { return; }
    status, data := ReadClusters(v, currentSector, sectorOffset, sectorsToRead, at, chained);
    if status != Success { return; }
    var entryIndex, dirEntry;
    ClusterOfSectorInverts(v.g, start.cluster, 0);
    status, entryIndex, dirEntry := GetDirEntryFromSector(v, dirEntrySector, baseFileSector);
    if status != Success { return; }
    slot := entryIndex;
    WriteDirEntryToSector(v, dirEntrySector, entryIndex, Accessed(dirEntry, date));
    AccessedIsRecorded(dirEntry, date);
    SlotAfterWithSlot(old(v.disk), dirEntrySector, slot, Accessed(dirEntry, date), slot);
    sectorsRead := |data|;
  }
}
