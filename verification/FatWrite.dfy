/**
  FatWriteFile (src/FAT32/src/fat_operations.c): writing a range of a file, extending its chain
  where needed, and reading it back.
 */
module FatWrite {

  import opened Basics
  import opened FatLayout
  import opened FatChain
  import opened FatVolume
  import opened FatBudget
  import opened FatFile
  import opened FatDirectory
  import opened FatOperations
  import Bits

  // The first `done` sectors of the buffer are in the file from `offset` on, and no other data
  // sector differs from `before`.
  ghost predicate Written(g: Geometry, before: seq<Sector>, disk: seq<Sector>, chain: seq<nat>, offset: nat,
                          buffer: seq<Sector>, done: nat)
    requires done <= |buffer|
  {
    && AreClusters(g, chain) && OnDisk(Places(g, chain), disk)
    && (done > 0 ==> offset + done <= |Places(g, chain)|)
    && Wrote(g.firstDataSector, before, disk, Part(Places(g, chain), offset, done), buffer[..done])
  }

  function Part(places: seq<nat>, offset: nat, n: nat): seq<nat>
  {
    if offset + n <= |places| then places[offset..offset + n] else []
  }

  lemma NothingWritten(g: Geometry, before: seq<Sector>, disk: seq<Sector>, chain: seq<nat>, offset: nat,
                       buffer: seq<Sector>)
    requires FitsDisk(g, disk) && IsChain(g, disk, chain) && SameData(g, before, disk)
    ensures Written(g, before, disk, chain, offset, buffer, 0)
  {
    ChainPlaces(g, disk, chain);
    assert Part(Places(g, chain), offset, 0) == [];
  }

  // Growing the chain moves nothing.
  lemma WrittenOnLongerChain(g: Geometry, before: seq<Sector>, disk: seq<Sector>, after: seq<Sector>, chain: seq<nat>,
                             longer: seq<nat>, offset: nat, buffer: seq<Sector>, done: nat)
    requires FitsDisk(g, disk) && FitsDisk(g, after) && IsChain(g, disk, chain) && IsChain(g, after, longer)
    requires chain <= longer
    requires SameData(g, disk, after) && done <= |buffer| && Written(g, before, disk, chain, offset, buffer, done)
    ensures Written(g, before, after, longer, offset, buffer, done)
  {
    ChainPlaces(g, disk, chain);
    ChainPlaces(g, after, longer);
    PlacesOfPrefix(g, chain, longer);
    var part := Part(Places(g, chain), offset, done);
    assert part == Part(Places(g, longer), offset, done);
    forall i | 0 <= i < |part| ensures after[part[i]] == disk[part[i]] {
      assert part[i] == Places(g, chain)[offset + i];
    }
    assert Gather(after, part) == Gather(disk, part);
  }

  lemma PartAvoidsNextRun(places: seq<nat>, offset: nat, n: nat, m: nat, at: nat)
    requires Distinct(places) && offset <= n && n + m <= |places| && places[n..n + m] == Run(at, m)
    ensures forall i :: 0 <= i < n - offset ==> !(at <= places[offset..n][i] < at + m)
  {
    var part := places[offset..n];
    forall i | 0 <= i < n - offset ensures !(at <= part[i] < at + m) {
      assert part[i] == places[offset + i];
      var next := places[n..n + m];
      assert forall t :: 0 <= t < m ==> next[t] != part[i];
      RunMembers(at, m, part[i]);
    }
  }

  // Writing the next m sectors of the buffer into part of the cursor's cluster.
  lemma ChunkWritten(g: Geometry, before: seq<Sector>, disk: seq<Sector>, at: Cursor, offset: nat, buffer: seq<Sector>,
                     done: nat, o: nat, sector: nat, m: nat, total: nat)
    requires FitsDisk(g, disk) && OnChain(g, disk, at) && done <= total <= |buffer|
    requires Written(g, before, disk, at.chain, offset, buffer, done)
    requires 0 < m && o + m <= g.sectorsPerCluster && offset + done == at.pos + o && total == done + m
    requires sector == g.SectorOf(at.cluster, o) && sector + m <= |disk|
    ensures Written(g, before, WriteRange(disk, sector, buffer[done..total]), at.chain, offset, buffer, total)
  {
    ChainPlaces(g, disk, at.chain);
    ChunkOfPlaces(g, disk, at, o, m);
    NextRunWritten(g.firstDataSector, before, disk, Places(g, at.chain), offset, buffer, done, sector, m, total);
  }

  lemma NextRunWritten(low: nat, before: seq<Sector>, disk: seq<Sector>, places: seq<nat>, offset: nat,
                       buffer: seq<Sector>, done: nat, at: nat, m: nat, total: nat)
    requires Distinct(places) && OnDisk(places, disk) && at + m <= |disk| && offset + done + m <= |places|
    requires total == done + m <= |buffer|
    requires places[offset + done..offset + done + m] == Run(at, m)
    requires Wrote(low, before, disk, Part(places, offset, done), buffer[..done])
    ensures Wrote(low, before, WriteRange(disk, at, buffer[done..total]), Part(places, offset, total), buffer[..total])
  {
    var n, chunk := offset + done, buffer[done..total];
    PartAvoidsNextRun(places, offset, n, m, at);
    RunWritten(low, before, disk, Part(places, offset, done), buffer[..done], at, chunk);
    assert Part(places, offset, total) == Part(places, offset, done) + Run(at, m);
    assert buffer[..total] == buffer[..done] + chunk;
  }

  // What holds throughout the write: the FAT has grown from `fat` by clusters behind start.chain,
  // and the first `done` sectors of the buffer are written from `offset` on.
  ghost predicate Progress(g: Geometry, fat: seq<Sector>, before: seq<Sector>, disk: seq<Sector>, start: seq<nat>,
                           chain: seq<nat>, offset: nat, buffer: seq<Sector>, done: nat)
    requires FitsDisk(g, fat) && FitsDisk(g, disk) && done <= |buffer|
  {
    IsChain(g, fat, start) && Grew(g, fat, disk, start, chain) && Written(g, before, disk, chain, offset, buffer, done)
  }

  // IoWriteDeviceEx of the next part of the buffer.
  method WriteChunk(v: Volume, currentSector: nat, buffer: seq<Sector>, done: nat, m: nat, ghost at: Cursor,
                    ghost o: nat, ghost fat: seq<Sector>, ghost before: seq<Sector>, ghost start: seq<nat>,
                    ghost offset: nat)
    returns (total: nat)
    requires v.Valid() && OnChain(v.g, v.disk, at) && currentSector == v.g.SectorOf(at.cluster, o)
    requires 0 < m && done + m <= |buffer| && o + m <= v.g.sectorsPerCluster && offset + done == at.pos + o
    requires FitsDisk(v.g, fat) && done <= |buffer|
    requires Progress(v.g, fat, before, v.disk, start, at.chain, offset, buffer, done)
    modifies v
    ensures v.Valid() && OnChain(v.g, v.disk, at) && total == done + m
    ensures Progress(v.g, fat, before, v.disk, start, at.chain, offset, buffer, total)
  {
    SectorBounds(v.g, at.cluster, o);
    SectorBounds(v.g, at.cluster, o + m - 1);
    total := done + m;
    ChunkWritten(v.g, before, v.disk, at, offset, buffer, done, o, currentSector, m, total);
    var after := WriteRange(v.disk, currentSector, buffer[done..total]);
    GrewByData(v.g, v.disk, after, at.chain);
    GrewTwice(v.g, fat, v.disk, after, start, at.chain, at.chain);
    v.disk := after;
  }

  // The chain ends at or before logical sector `end`, and there is no cluster left to extend it.
  ghost predicate Refused(g: Geometry, disk: seq<Sector>, chain: seq<nat>, end: nat, status: Status)
    requires FitsDisk(g, disk) && AreClusters(g, chain)
  {
    |Places(g, chain)| <= end && Budget(g, disk) == 0 && status == RefusalStatus(g, disk)
  }

  // The next cluster to write to, new if need be.
  method NextToWrite(v: Volume, currentSector: nat, ghost at: Cursor, ghost o: nat, ghost fat: seq<Sector>,
                     ghost before: seq<Sector>, ghost start: seq<nat>, ghost offset: nat, ghost buffer: seq<Sector>,
                     ghost done: nat)
    returns (status: Status, nextSector: nat, ghost to: Cursor)
    requires v.Valid() && OnChain(v.g, v.disk, at) && currentSector == v.g.SectorOf(at.cluster, o)
    requires o < v.g.sectorsPerCluster
    requires FitsDisk(v.g, fat) && done <= |buffer|
    requires Progress(v.g, fat, before, v.disk, start, at.chain, offset, buffer, done)
    modifies v
    ensures v.Valid() && status != ElementNotFound && to.pos == at.pos + v.g.sectorsPerCluster
    ensures status == Success ==> OnChain(v.g, v.disk, to) && nextSector == v.g.SectorOf(to.cluster, 0)
    ensures Progress(v.g, fat, before, v.disk, start, to.chain, offset, buffer, done)
    ensures NotTooLong(v.g, at.chain, to.chain, at.pos + v.g.sectorsPerCluster + 1)
    ensures status != Success ==> Refused(v.g, v.disk, to.chain, at.pos + v.g.sectorsPerCluster, status)
  {
    ghost var disk := v.disk;
    status, nextSector, to := NextOnChain(v, currentSector, true, at, o, true);
    LengthOnChain(v.g, disk, v.disk, at, to);
    ProgressOnLongerChain(v.g, fat, before, disk, v.disk, start, at.chain, to.chain, offset, buffer, done);
  }

  lemma ProgressOnLongerChain(g: Geometry, fat: seq<Sector>, before: seq<Sector>, disk: seq<Sector>, after: seq<Sector>,
                              start: seq<nat>, chain: seq<nat>, longer: seq<nat>, offset: nat, buffer: seq<Sector>,
                              done: nat)
    requires FitsDisk(g, fat) && FitsDisk(g, disk) && FitsDisk(g, after) && done <= |buffer|
    requires Progress(g, fat, before, disk, start, chain, offset, buffer, done)
    requires Grew(g, disk, after, chain, longer) && SameData(g, disk, after)
    ensures Progress(g, fat, before, after, start, longer, offset, buffer, done)
  {
    GrewTwice(g, fat, disk, after, start, chain, longer);
    WrittenOnLongerChain(g, before, disk, after, chain, longer, offset, buffer, done);
  }

  // Where the write loop stands: `written` sectors are done and the next go to sector o of the cursor's cluster.
  ghost predicate Standing(v: Volume, currentSector: nat, at: Cursor, o: nat, sectorOffset: nat, written: nat)
    requires v.Valid()
    reads v
  {
    && OnChain(v.g, v.disk, at) && o < v.g.sectorsPerCluster
    && currentSector == v.g.SectorOf(at.cluster, o) && sectorOffset + written == at.pos + o
  }

  // One round of the write loop: a chunk, and then the next cluster unless the buffer is used up.
  method WriteRound(v: Volume, currentSector: nat, buffer: seq<Sector>, written: nat, sectors: nat, ghost at: Cursor,
                    ghost o: nat, ghost fat: seq<Sector>, ghost before: seq<Sector>, ghost start: seq<nat>,
                    ghost sectorOffset: nat)
    returns (status: Status, total: nat, nextSector: nat, ghost to: Cursor)
    requires v.Valid() && Standing(v, currentSector, at, o, sectorOffset, written)
    requires 0 < sectors && written + sectors <= |buffer| && o + sectors <= v.g.sectorsPerCluster
    requires written + sectors == |buffer| || o + sectors == v.g.sectorsPerCluster
    requires FitsDisk(v.g, fat) && Progress(v.g, fat, before, v.disk, start, at.chain, sectorOffset, buffer, written)
    modifies v
    ensures v.Valid() && total == written + sectors && status != ElementNotFound
    ensures Progress(v.g, fat, before, v.disk, start, to.chain, sectorOffset, buffer, total)
    ensures status == Success && total < |buffer| ==> Standing(v, nextSector, to, 0, sectorOffset, total)
    ensures NotTooLong(v.g, at.chain, to.chain, sectorOffset + |buffer|)
    ensures status != Success ==> total < |buffer| && Refused(v.g, v.disk, to.chain, sectorOffset + total, status)
  {
    total := WriteChunk(v, currentSector, buffer, written, sectors, at, o, fat, before, start, sectorOffset);
    status, nextSector, to := Success, currentSector, at;
    if total < |buffer| {
      status, nextSector, to := NextToWrite(v, currentSector, at, o, fat, before, start, sectorOffset, buffer, total);
    }
  }

  // The write loop of FatWriteFile; `done` sectors have reached the disk when it ends.
  method WriteClusters(v: Volume, firstSector: nat, sectorOffset: nat, buffer: seq<Sector>, ghost at0: Cursor,
                       ghost fat: seq<Sector>, ghost before: seq<Sector>, ghost start: seq<nat>)
    returns (status: Status, ghost at: Cursor, ghost done: nat)
    requires v.Valid() && buffer != []
    requires Standing(v, firstSector, at0, sectorOffset % v.g.sectorsPerCluster, sectorOffset, 0)
    requires FitsDisk(v.g, fat) && Progress(v.g, fat, before, v.disk, start, at0.chain, sectorOffset, buffer, 0)
    requires NotTooLong(v.g, start, at0.chain, sectorOffset + |buffer|)
    modifies v
    ensures v.Valid() && done <= |buffer|
    ensures Progress(v.g, fat, before, v.disk, start, at.chain, sectorOffset, buffer, done)
    ensures status != ElementNotFound && NotTooLong(v.g, start, at.chain, sectorOffset + |buffer|)
    ensures if status == Success then done == |buffer|
            else done < |buffer| && Refused(v.g, v.disk, at.chain, sectorOffset + done, status)
  {
    at, status := at0, Success;
    ghost var o: nat := sectorOffset % v.g.sectorsPerCluster;
    var currentSector: nat, sectorsRemaining: nat, written: nat := firstSector, |buffer|, 0;
    var sectors: nat := Min(sectorsRemaining, v.g.sectorsPerCluster - sectorOffset % v.g.sectorsPerCluster);
    while sectorsRemaining > 0 && status == Success
      invariant v.Valid() && status != ElementNotFound && written + sectorsRemaining == |buffer|
      invariant sectorsRemaining > 0 && status == Success ==>
        Standing(v, currentSector, at, o, sectorOffset, written)
        && sectors == Min(sectorsRemaining, v.g.sectorsPerCluster - o)
      invariant Progress(v.g, fat, before, v.disk, start, at.chain, sectorOffset, buffer, written)
      invariant NotTooLong(v.g, start, at.chain, sectorOffset + |buffer|)
      invariant status != Success ==>
        sectorsRemaining > 0 && Refused(v.g, v.disk, at.chain, sectorOffset + written, status)
      decreases sectorsRemaining
    {
      status, written, currentSector, at := WriteRound(v, currentSector, buffer, written, sectors, at, o, fat, before,
                                                       start, sectorOffset);
      sectorsRemaining := sectorsRemaining - sectors;
      sectors, o := Min(v.g.sectorsPerCluster, sectorsRemaining), 0;
    }
    done := written;
  }

  // ----- FatWriteFile -----

  // (DWORD)(SectorOffset + SectorsToWrite) * BytesPerSector
  function EndInBytes(sectorOffset: nat, sectors: nat): Dword
  {
    (sectorOffset + sectors) % 0x1_0000_0000 * BYTES_PER_SECTOR % 0x1_0000_0000
  }

  // A directory cluster in use outside the file stays outside it, and its sectors are not written.
  lemma DirectoryIsElsewhere(g: Geometry, before: seq<Sector>, disk: seq<Sector>, start: seq<nat>, chain: seq<nat>,
                             dir: nat, k: nat)
    requires FitsDisk(g, before) && FitsDisk(g, disk) && Grown(g, before, disk, start, chain)
    requires g.IsCluster(dir) && !IsFree(g, before, dir) && dir !in start && k < g.sectorsPerCluster
    ensures AreClusters(g, chain) && g.SectorOf(dir, k) !in Places(g, chain)
  {
    forall i | 0 <= i < |chain| ensures chain[i] != dir { if i < |start| { assert chain[i] == start[i]; } }
    assert AreClusters(g, [dir]) && Disjoint(chain, [dir]);
    PlacesAreDisjoint(g, chain, [dir]);
    PlacesOfCluster(g, [dir], 0);
    assert Places(g, [dir])[0..0 + g.sectorsPerCluster][k] == g.SectorOf(dir, k);
  }

  // The sectors of the buffer are part of the file; besides them only sector `changed` of the data region differs.
  ghost predicate Stored(g: Geometry, before: seq<Sector>, disk: seq<Sector>, chain: seq<nat>, offset: nat,
                         buffer: seq<Sector>, changed: nat)
  {
    && AreClusters(g, chain) && OnDisk(Places(g, chain), disk) && |disk| == |before|
    && IsPart(buffer, FileOf(g, disk, chain), offset)
    && forall s: nat ::
      g.firstDataSector <= s < |disk| && s != changed && s !in Places(g, chain)[offset..offset + |buffer|] ==>
        disk[s] == before[s]
  }

  lemma StoredAfterSlot(g: Geometry, before: seq<Sector>, disk: seq<Sector>, after: seq<Sector>, chain: seq<nat>,
                        offset: nat, buffer: seq<Sector>, changed: nat)
    requires buffer != [] && Written(g, before, disk, chain, offset, buffer, |buffer|) && |after| == |disk|
    requires changed !in Places(g, chain) && forall s: nat :: s < |disk| && s != changed ==> after[s] == disk[s]
    ensures Stored(g, before, after, chain, offset, buffer, changed)
  {
    var places, n := Places(g, chain), |buffer|;
    var part := Part(places, offset, n);
    assert buffer[..n] == buffer;
    GatherSlice(after, places, offset, offset + n);
    forall i | 0 <= i < n ensures Gather(after, part)[i] == buffer[i] {
      assert part[i] == places[offset + i] && part[i] in places;
      assert Gather(disk, part)[i] == buffer[i];
    }
    assert Gather(after, part) == buffer;
  }

  // Whether the data fits: in the chain and the clusters that can still be added to it.
  function DataStatus(g: Geometry, disk: seq<Sector>, chain: seq<nat>, end: nat): Status
    requires FitsDisk(g, disk)
  {
    if end <= InSectors(|chain| + Budget(g, disk), g.sectorsPerCluster) then Success else RefusalStatus(g, disk)
  }

  lemma DataStatusIs(g: Geometry, before: seq<Sector>, after: seq<Sector>, start: seq<nat>, chain: seq<nat>, end: nat,
                     status: Status)
    requires FitsDisk(g, before) && FitsDisk(g, after) && Grew(g, before, after, start, chain) && AreClusters(g, chain)
    requires 0 < end
    requires if status == Success then end <= |Places(g, chain)| else Refused(g, after, chain, end - 1, status)
    ensures status == DataStatus(g, before, start, end)
  {
    PlacesLength(g, chain);
    InSectorsAdds(|chain|, Budget(g, after), g.sectorsPerCluster);
    assert |chain| + Budget(g, after) == |start| + Budget(g, before);
  }

  // Some slot of the directory cluster names the file.
  ghost predicate HasSlot(g: Geometry, disk: seq<Sector>, dir: nat, cluster: nat)
    requires dir + g.sectorsPerCluster <= |disk|
  {
    exists e: nat :: IsSlotOf(g, disk, dir, cluster, e)
  }

  // The answer of FatWriteFile: success exactly when the data fits and a slot names the file.
  ghost function WriteStatus(g: Geometry, disk: seq<Sector>, start: Cursor, end: nat, dir: nat): Status
    requires FitsDisk(g, disk) && dir + g.sectorsPerCluster <= |disk|
  {
    if DataStatus(g, disk, start.chain, end) != Success then DataStatus(g, disk, start.chain, end)
    else if HasSlot(g, disk, dir, start.cluster) then Success
    else ElementNotFound
  }

  // FatWriteFile on the chain of `start`, whose directory entry lies in cluster dirCluster of another
  // chain.  In every outcome the chain only grows, by no more than is needed; on success it holds the
  // buffer and one slot is updated.
  method FatWriteFile(v: Volume, baseFileSector: nat, sectorOffset: nat, dirEntrySector: nat, buffer: seq<Sector>,
                      date: Word, time: Word, ghost start: Cursor, ghost dirCluster: nat)
    returns (status: Status, sectorsWritten: nat, ghost chain: seq<nat>, ghost done: nat, ghost slot: nat)
    requires v.Valid() && OnChain(v.g, v.disk, start) && start.pos == 0
    requires baseFileSector == v.g.SectorOf(start.cluster, 0)
    requires Bits.IsAddressAligned(baseFileSector, v.g.sectorsPerCluster)
    requires v.g.IsCluster(dirCluster) && dirEntrySector == v.g.SectorOf(dirCluster, 0)
    requires !IsFree(v.g, v.disk, dirCluster) && dirCluster !in start.chain
    modifies v
    ensures v.Valid() && Grew(v.g, old(v.disk), v.disk, start.chain, chain)
    ensures buffer == [] ==> status == Success && sectorsWritten == 0 && v.disk == old(v.disk)
    ensures dirEntrySector + v.g.sectorsPerCluster <= |v.disk| == |old(v.disk)|
    ensures buffer != [] ==> status == WriteStatus(v.g, old(v.disk), start, sectorOffset + |buffer|, dirEntrySector)
    ensures AreClusters(v.g, chain) && NotTooLong(v.g, start.chain, chain, sectorOffset + |buffer|)
    ensures status != Success ==>
      done <= |buffer| && Written(v.g, old(v.disk), v.disk, chain, sectorOffset, buffer, done)
    ensures status == ElementNotFound ==> done == |buffer|
    ensures status != Success && status != ElementNotFound ==>
      done < |buffer| && Refused(v.g, v.disk, chain, sectorOffset + done, status)
    ensures status == Success && buffer != [] ==>
      && sectorsWritten == |buffer| && slot < SLOTS_PER_SECTOR * v.g.sectorsPerCluster
      && Stored(v.g, old(v.disk), v.disk, chain, sectorOffset, buffer, dirEntrySector + slot / SLOTS_PER_SECTOR)
      && IsSlotOf(v.g, old(v.disk), dirEntrySector, start.cluster, slot)
      && OneSlotChanged(v.g, old(v.disk), v.disk, dirEntrySector, slot,
                        Modified(SlotAt(old(v.disk), dirEntrySector, slot), date, time,
                                 EndInBytes(sectorOffset, |buffer|)))
      && WriteIsRecorded(SlotAt(old(v.disk), dirEntrySector, slot), SlotAt(v.disk, dirEntrySector, slot),
                         date, time, sectorOffset + |buffer|)
  {
    status, sectorsWritten, chain, done, slot := Success, 0, start.chain, 0, 0;
    GrewByNothing(v.g, v.disk, start.chain);
    SectorBounds(v.g, dirCluster, v.g.sectorsPerCluster - 1);
    if buffer == [] { return; }
    status, chain, done := WriteData(v, baseFileSector, sectorOffset, buffer, start);
    if status != Success { return; }
    status, slot := UpdateDirectory(v, baseFileSector, dirEntrySector, date, time, EndInBytes(sectorOffset, |buffer|),
                                    old(v.disk), start, chain, dirCluster, sectorOffset, buffer);
    if status == Success {
      SlotIsRecorded(v.g, old(v.disk), v.disk, dirEntrySector, slot, date, time, sectorOffset, |buffer|);
    }
    sectorsWritten := |buffer|;
  }

  lemma SlotIsRecorded(g: Geometry, before: seq<Sector>, after: seq<Sector>, dir: nat, slot: nat, date: Word,
                       time: Word, sectorOffset: nat, sectors: nat)
    requires dir + g.sectorsPerCluster <= |before| == |after| && slot < SLOTS_PER_SECTOR * g.sectorsPerCluster
    requires OneSlotChanged(g, before, after, dir, slot,
                            Modified(SlotAt(before, dir, slot), date, time, EndInBytes(sectorOffset, sectors)))
    ensures WriteIsRecorded(SlotAt(before, dir, slot), SlotAt(after, dir, slot), date, time, sectorOffset + sectors)
  {
    EndWraps(sectorOffset + sectors);
    ModifiedIsRecorded(SlotAt(before, dir, slot), date, time, sectorOffset + sectors,
                       EndInBytes(sectorOffset, sectors));
  }

  lemma EndWraps(x: nat)
    ensures x % 0x1_0000_0000 * 512 % 0x1_0000_0000 == x * 512 % 0x1_0000_0000
  {
    var q, r := x / 0x1_0000_0000, x % 0x1_0000_0000;
    var m := r * 512;
    Bits.RemainderIs(x * 512, 0x1_0000_0000, 512 * q + m / 0x1_0000_0000, m % 0x1_0000_0000);
  }

  // The part of FatWriteFile that moves data.
  method WriteData(v: Volume, baseFileSector: nat, sectorOffset: nat, buffer: seq<Sector>, ghost start: Cursor)
    returns (status: Status, ghost chain: seq<nat>, ghost done: nat)
    requires v.Valid() && OnChain(v.g, v.disk, start) && start.pos == 0
    requires baseFileSector == v.g.SectorOf(start.cluster, 0)
    requires buffer != []
    modifies v
    ensures v.Valid() && Grew(v.g, old(v.disk), v.disk, start.chain, chain) && |v.disk| == |old(v.disk)|
    ensures done <= |buffer| && Written(v.g, old(v.disk), v.disk, chain, sectorOffset, buffer, done)
    ensures NotTooLong(v.g, start.chain, chain, sectorOffset + |buffer|)
    ensures status == DataStatus(v.g, old(v.disk), start.chain, sectorOffset + |buffer|)
    ensures if status == Success then done == |buffer|
            else done < |buffer| && Refused(v.g, v.disk, chain, sectorOffset + done, status)
  {
    var currentSector;
    ghost var at;
    status, currentSector, at := Seek(v, baseFileSector, sectorOffset, true, start, true);
    chain, done := at.chain, 0;
    NothingWritten(v.g, old(v.disk), v.disk, chain, sectorOffset, buffer);
    if status == Success {
      status, at, done := WriteClusters(v, currentSector, sectorOffset, buffer, at, old(v.disk), old(v.disk),
                                        start.chain);
      chain := at.chain;
    }
    DataStatusIs(v.g, old(v.disk), v.disk, start.chain, chain, sectorOffset + |buffer|, status);
  }

  // The part of FatWriteFile that updates the directory entry, after the data was written to a disk that was `before`.
  method UpdateDirectory(v: Volume, baseFileSector: nat, dirEntrySector: nat, date: Word, time: Word, end: Dword,
                         ghost before: seq<Sector>, ghost start: Cursor, ghost chain: seq<nat>, ghost dirCluster: nat,
                         ghost sectorOffset: nat, ghost buffer: seq<Sector>)
    returns (status: Status, ghost slot: nat)
    requires v.Valid() && FitsDisk(v.g, before) && OnChain(v.g, before, start)
    requires baseFileSector == v.g.SectorOf(start.cluster, 0)
    requires Grew(v.g, before, v.disk, start.chain, chain) && buffer != []
    requires Written(v.g, before, v.disk, chain, sectorOffset, buffer, |buffer|)
    requires v.g.IsCluster(dirCluster) && dirEntrySector == v.g.SectorOf(dirCluster, 0)
    requires !IsFree(v.g, before, dirCluster) && dirCluster !in start.chain
    requires dirEntrySector + v.g.sectorsPerCluster <= |v.disk| == |before|
    modifies v
    ensures v.Valid() && Grew(v.g, before, v.disk, start.chain, chain) && |v.disk| == |before|
    ensures status == if HasSlot(v.g, before, dirEntrySector, start.cluster) then Success else ElementNotFound
    ensures status != Success ==> v.disk == old(v.disk)
    ensures status == Success ==>
      && slot < SLOTS_PER_SECTOR * v.g.sectorsPerCluster
      && Stored(v.g, before, v.disk, chain, sectorOffset, buffer, dirEntrySector + slot / SLOTS_PER_SECTOR)
      && IsSlotOf(v.g, before, dirEntrySector, start.cluster, slot)
      && OneSlotChanged(v.g, before, v.disk, dirEntrySector, slot,
                        Modified(SlotAt(before, dirEntrySector, slot), date, time, end))
  {
    slot := 0;
    SectorBounds(v.g, dirCluster, 0);
    var entryIndex, dirEntry;
    ClusterOfSectorInverts(v.g, start.cluster, 0);
    status, entryIndex, dirEntry := GetDirEntryFromSector(v, dirEntrySector, baseFileSector);
    if status != Success {
      NoSlotBefore(v.g, before, v.disk, start.chain, chain, dirCluster, sectorOffset, buffer, start.cluster);
      return;
    }
    slot := entryIndex;
    SlotOfBefore(v.g, before, v.disk, start.chain, chain, dirCluster, sectorOffset, buffer, start.cluster, slot);
    WriteDirEntryToSector(v, dirEntrySector, entryIndex, Modified(dirEntry, date, time, end));
    SlotWritten(v.g, before, old(v.disk), v.disk, start.chain, chain, dirCluster, slot,
                Modified(dirEntry, date, time, end), sectorOffset, buffer);
  }

  // Until the directory is updated, its slots are the old ones.
  lemma SlotsUnchanged(g: Geometry, before: seq<Sector>, disk: seq<Sector>, start: seq<nat>, chain: seq<nat>, dir: nat,
                       offset: nat, buffer: seq<Sector>, done: nat)
    requires FitsDisk(g, before) && FitsDisk(g, disk) && Grown(g, before, disk, start, chain) && done <= |buffer|
    requires g.IsCluster(dir) && !IsFree(g, before, dir) && dir !in start
    requires Written(g, before, disk, chain, offset, buffer, done)
    requires g.SectorOf(dir, 0) + g.sectorsPerCluster <= |disk|
    ensures |disk| == |before|
    ensures forall x: nat :: x < SLOTS_PER_SECTOR * g.sectorsPerCluster ==>
              SlotAt(disk, g.SectorOf(dir, 0), x) == SlotAt(before, g.SectorOf(dir, 0), x)
  {
    forall x: nat | x < SLOTS_PER_SECTOR * g.sectorsPerCluster
      ensures SlotAt(disk, g.SectorOf(dir, 0), x) == SlotAt(before, g.SectorOf(dir, 0), x)
    {
      DirectoryIsElsewhere(g, before, disk, start, chain, dir, x / SLOTS_PER_SECTOR);
      SectorBounds(g, dir, x / SLOTS_PER_SECTOR);
      assert g.SectorOf(dir, x / SLOTS_PER_SECTOR) !in Part(Places(g, chain), offset, done);
    }
  }

  // The slot found after the data was written is the slot of the file on the old disk.
  lemma SlotOfBefore(g: Geometry, before: seq<Sector>, disk: seq<Sector>, start: seq<nat>, chain: seq<nat>, dir: nat,
                     offset: nat, buffer: seq<Sector>, cluster: nat, slot: nat)
    requires FitsDisk(g, before) && FitsDisk(g, disk) && Grown(g, before, disk, start, chain)
    requires g.IsCluster(dir) && !IsFree(g, before, dir) && dir !in start
    requires Written(g, before, disk, chain, offset, buffer, |buffer|)
    requires g.SectorOf(dir, 0) + g.sectorsPerCluster <= |disk| && IsSlotOf(g, disk, g.SectorOf(dir, 0), cluster, slot)
    ensures |disk| == |before| && IsSlotOf(g, before, g.SectorOf(dir, 0), cluster, slot)
    ensures SlotAt(disk, g.SectorOf(dir, 0), slot) == SlotAt(before, g.SectorOf(dir, 0), slot)
  {
    SlotsUnchanged(g, before, disk, start, chain, dir, offset, buffer, |buffer|);
  }

  lemma NoSlotBefore(g: Geometry, before: seq<Sector>, disk: seq<Sector>, start: seq<nat>, chain: seq<nat>, dir: nat,
                     offset: nat, buffer: seq<Sector>, cluster: nat)
    requires FitsDisk(g, before) && FitsDisk(g, disk) && Grown(g, before, disk, start, chain)
    requires g.IsCluster(dir) && !IsFree(g, before, dir) && dir !in start
    requires Written(g, before, disk, chain, offset, buffer, |buffer|)
    requires g.SectorOf(dir, 0) + g.sectorsPerCluster <= |disk| == |before|
    requires forall x: nat :: x < SLOTS_PER_SECTOR * g.sectorsPerCluster ==>
      !Names(SlotAt(disk, g.SectorOf(dir, 0), x), cluster)
    ensures !HasSlot(g, before, g.SectorOf(dir, 0), cluster)
  {
    SlotsUnchanged(g, before, disk, start, chain, dir, offset, buffer, |buffer|);
  }

  // The update of the slot leaves the FAT, the file and the other slots alone.
  lemma SlotWritten(g: Geometry, before: seq<Sector>, disk: seq<Sector>, after: seq<Sector>, start: seq<nat>,
                    chain: seq<nat>, dir: nat, slot: nat, entry: Slot, offset: nat, buffer: seq<Sector>)
    requires FitsDisk(g, before) && FitsDisk(g, disk) && IsChain(g, before, start)
    requires Grew(g, before, disk, start, chain)
    requires g.IsCluster(dir) && !IsFree(g, before, dir) && dir !in start
    requires slot < SLOTS_PER_SECTOR * g.sectorsPerCluster
    requires buffer != [] && Written(g, before, disk, chain, offset, buffer, |buffer|)
    requires g.SectorOf(dir, 0) + g.sectorsPerCluster <= |disk|
    requires after == WithSlot(disk, g.SectorOf(dir, 0), slot, entry)
    ensures FitsDisk(g, after) && Grew(g, before, after, start, chain)
    ensures Stored(g, before, after, chain, offset, buffer, g.SectorOf(dir, 0) + slot / SLOTS_PER_SECTOR)
    ensures |after| == |before| && OneSlotChanged(g, before, after, g.SectorOf(dir, 0), slot, entry)
  {
    var i := slot / SLOTS_PER_SECTOR;
    DirectoryIsElsewhere(g, before, disk, start, chain, dir, i);
    SectorBounds(g, dir, i);
    SlotsUnchanged(g, before, disk, start, chain, dir, offset, buffer, |buffer|);
    StoredAfterSlot(g, before, disk, after, chain, offset, buffer, g.SectorOf(dir, i));
    GrewByData(g, disk, after, chain);
    GrewTwice(g, before, disk, after, start, chain, chain);
    forall x: nat | x < SLOTS_PER_SECTOR * g.sectorsPerCluster
      ensures SlotAt(after, g.SectorOf(dir, 0), x) == if x == slot then entry else SlotAt(before, g.SectorOf(dir, 0), x)
    {
      SlotAfterWithSlot(disk, g.SectorOf(dir, 0), slot, entry, x);
    }
  }

  // ----- what a write leaves alone, and reading back -----

  // The rest of the file and every other chain keep their data, except for the one directory sector.
  lemma NothingElseChanged(g: Geometry, before: seq<Sector>, disk: seq<Sector>, start: seq<nat>, chain: seq<nat>,
                           offset: nat, buffer: seq<Sector>, changed: nat, other: seq<nat>, i: nat)
    requires FitsDisk(g, before) && FitsDisk(g, disk) && IsChain(g, before, start)
    requires Grown(g, before, disk, start, chain)
    requires Stored(g, before, disk, chain, offset, buffer, changed)
    requires IsChain(g, before, other) && AreClusters(g, other) && i < |Places(g, other)|
    requires Places(g, other)[i] != changed
    requires (other == start && !(offset <= i < offset + |buffer|)) || Disjoint(other, start)
    ensures OnDisk(Places(g, other), before) && OnDisk(Places(g, other), disk)
    ensures FileOf(g, disk, other)[i] == FileOf(g, before, other)[i]
  {
    ChainPlaces(g, before, other);
    ChainPlaces(g, disk, chain);
    var s, part := Places(g, other)[i], Places(g, chain)[offset..offset + |buffer|];
    if other == start {
      PlacesOfPrefix(g, start, chain);
      forall j | 0 <= j < |part| ensures part[j] != s { assert part[j] == Places(g, chain)[offset + j]; }
    } else {
      OtherChainsSurvive(g, before, disk, start, chain, other);
      PlacesAreDisjoint(g, other, chain);
      forall j | 0 <= j < |part| ensures part[j] != s { assert part[j] == Places(g, chain)[offset + j]; }
    }
  }

  // A successful FatWriteFile followed by FatReadFile of the same range returns exactly the buffer.
  method WriteThenRead(v: Volume, baseFileSector: nat, sectorOffset: nat, dirEntrySector: nat, buffer: seq<Sector>,
                       date: Word, time: Word, ghost start: Cursor, ghost dirCluster: nat)
    returns (written: Status, read: Status, data: seq<Sector>)
    requires v.Valid() && OnChain(v.g, v.disk, start) && start.pos == 0
    requires baseFileSector == v.g.SectorOf(start.cluster, 0)
    requires Bits.IsAddressAligned(baseFileSector, v.g.sectorsPerCluster)
    requires v.g.IsCluster(dirCluster) && dirEntrySector == v.g.SectorOf(dirCluster, 0)
    requires !IsFree(v.g, v.disk, dirCluster) && dirCluster !in start.chain
    modifies v
    ensures dirEntrySector + v.g.sectorsPerCluster <= |old(v.disk)|
    ensures buffer != [] ==> written == WriteStatus(v.g, old(v.disk), start, sectorOffset + |buffer|, dirEntrySector)
    ensures written == Success ==> read == Success && data == buffer
  {
    data, read := [], Success;
    var sectorsWritten;
    ghost var chain, done, slot;
    written, sectorsWritten, chain, done, slot :=
      FatWriteFile(v, baseFileSector, sectorOffset, dirEntrySector, buffer, date, time, start, dirCluster);
    if written == Success {
      SectorBounds(v.g, dirCluster, 0);
      if buffer != [] {
        ReadBackStart(v.g, old(v.disk), v.disk, start, chain);
        UpdatesKeepIdentity(SlotAt(old(v.disk), dirEntrySector, slot), date, time, EndInBytes(sectorOffset, |buffer|),
                            start.cluster);
        assert Names(SlotAt(v.disk, dirEntrySector, slot), start.cluster);
      }
      read, data := ReadBack(v, baseFileSector, sectorOffset, dirEntrySector, buffer, date, start.cluster, chain, slot);
    }
  }

  // Reading a range that holds the buffer, of a file that slot `slot` names.
  method ReadBack(v: Volume, baseFileSector: nat, sectorOffset: nat, dirEntrySector: nat, buffer: seq<Sector>,
                  date: Word, ghost cluster: nat, ghost chain: seq<nat>, ghost slot: nat)
    returns (read: Status, data: seq<Sector>)
    requires v.Valid() && v.g.IsCluster(cluster) && baseFileSector == v.g.SectorOf(cluster, 0)
    requires Bits.IsAddressAligned(baseFileSector, v.g.sectorsPerCluster)
    requires v.g.firstDataSector <= dirEntrySector && dirEntrySector + v.g.sectorsPerCluster <= |v.disk|
    requires buffer != [] ==>
      && OnChain(v.g, v.disk, Cursor(chain, 0, cluster, 0)) && OnDisk(Places(v.g, chain), v.disk)
      && IsPart(buffer, FileOf(v.g, v.disk, chain), sectorOffset)
      && slot < SLOTS_PER_SECTOR * v.g.sectorsPerCluster && Names(SlotAt(v.disk, dirEntrySector, slot), cluster)
    modifies v
    ensures read == Success && data == buffer
  {
    var sectorsRead;
    ghost var touched, file := 0, if buffer != [] then FileOf(v.g, v.disk, chain) else [];
    read, data, sectorsRead, touched :=
      FatReadFile(v, baseFileSector, sectorOffset, dirEntrySector, |buffer|, date, Cursor(chain, 0, cluster, 0),
                  buffer != []);
    if buffer != [] { SamePart(data, buffer, file, sectorOffset); }
  }

  lemma SamePart(data: seq<Sector>, buffer: seq<Sector>, file: seq<Sector>, offset: nat)
    requires IsPart(data, file, offset) && IsPart(buffer, file, offset) && |data| == Min(|buffer|, |file| - offset)
    ensures data == buffer
  {
  }

  lemma ReadBackStart(g: Geometry, before: seq<Sector>, disk: seq<Sector>, start: Cursor, chain: seq<nat>)
    requires FitsDisk(g, before) && FitsDisk(g, disk) && OnChain(g, before, start) && start.pos == 0
    requires 0 < g.sectorsPerCluster && Grown(g, before, disk, start.chain, chain)
    ensures OnChain(g, disk, Cursor(chain, 0, start.cluster, 0))
  {
    ChainPlaces(g, disk, chain);
    if start.k > 0 { PlacesOfCluster(g, start.chain, start.k - 1); }
    assert chain[0] == start.chain[0];
  }

  // A volume with a file in cluster 3 and a directory in cluster 2 whose first slot names it.
  function SmallDisk(): (disk: seq<Sector>)
    ensures |disk| == 1056 + 65525
  {
    WithSlot(Lopsided(2), 1056, 0, [0x41, 0, 0, 0, 0, 0, 3 * 0x1_0000, 0])
  }

  lemma SmallChain()
    ensures FitsDisk(LOPSIDED, SmallDisk()) && IsChain(LOPSIDED, SmallDisk(), [3])
    ensures forall c: nat :: c < 4 ==> !IsFree(LOPSIDED, SmallDisk(), c)
  {
    LopsidedIs(2);
    DataWriteKeepsFat(LOPSIDED, Lopsided(2), SmallDisk());
    forall c: nat | c < 4 ensures Value(LOPSIDED, SmallDisk(), c) == FAT32_EOC_MARK {
      assert FatSector(LOPSIDED, c) == 32;
    }
  }

  lemma SmallSlot()
    ensures IsSlotOf(LOPSIDED, SmallDisk(), 1056, 3, 0)
  {
    SlotAfterWithSlot(Lopsided(2), 1056, 0, [0x41, 0, 0, 0, 0, 0, 3 * 0x1_0000, 0], 0);
  }

  // There a read that starts at the end of the file, of one sector, fails the ASSERT of FatReadFile.
  lemma ReadAtEnd()
    ensures var g, disk := LOPSIDED, SmallDisk();
      && FitsDisk(g, disk) && IsChain(g, disk, [3]) && AreClusters(g, [3]) && |Places(g, [3])| == 1
      && SeekStatus(g, [3], 1) == Aborted
  {
    SmallChain();
    PlacesLength(LOPSIDED, [3]);
  }

  // There all that WriteThenRead asks for holds, and a write of one sector succeeds.
  lemma SmallWrite()
    ensures var g, disk, start := LOPSIDED, SmallDisk(), Cursor([3], 0, 3, 0);
      && FitsDisk(g, disk) && !IsFree(g, disk, 0) && !IsFree(g, disk, 1) && OnChain(g, disk, start)
      && Bits.IsAddressAligned(g.SectorOf(3, 0), g.sectorsPerCluster) && !IsFree(g, disk, 2) && g.SectorOf(2, 0) == 1056
      && WriteStatus(g, disk, start, 1, 1056) == Success
  {
    SmallChain();
    SmallSlot();
    assert [3][..0] == [];
  }
}
