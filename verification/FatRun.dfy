/**
  Whole runs on a volume: any sequence of FatReadFile and FatWriteFile on several files, against a
  store of sector sequences that share the room left on the volume.
 */
module FatRun {

  import opened Basics
  import opened FatLayout
  import opened FatChain
  import opened FatVolume
  import opened FatBudget
  import opened FatFile
  import opened FatDirectory
  import opened FatOperations
  import opened FatWrite
  import Bits

  // ----- the store -----

  // The sectors of each file, how many clusters can still be added, and the answer once there are none.
  datatype Store = Store(files: seq<seq<Sector>>, room: nat, refusal: Status)

  datatype Operation =
    | Read(file: nat, offset: nat, count: nat, date: Word)
    | Write(file: nat, offset: nat, buffer: seq<Sector>, date: Word, time: Word)

  datatype Answer = Answer(status: Status, data: seq<Sector>)

  // `after` is `before`, possibly longer, with the buffer at the offset as far as it reaches.
  ghost predicate Overwrites(before: seq<Sector>, after: seq<Sector>, offset: nat, buffer: seq<Sector>)
  {
    && |before| <= |after|
    && forall i: nat :: i < |after| ==>
         && (offset <= i < offset + |buffer| ==> after[i] == buffer[i - offset])
         && (i < |before| && !(offset <= i < offset + |buffer|) ==> after[i] == before[i])
  }

  // Reading does not change the store; n is the size of a cluster.
  ghost predicate ReadStep(n: nat, s: Store, f: nat, offset: nat, count: nat, a: Answer)
    requires f < |s.files|
  {
    var size := |s.files[f]|;
    if count == 0 then a == Answer(Success, [])
    else && a.status == (if offset < size then Success else if offset < size + n then Aborted else DeviceClusterInvalid)
         && (offset < size ==> a.data == s.files[f][offset..offset + Min(count, size - offset)])
  }

  // Writing takes as many clusters as it needs, if there are enough, and otherwise all of them.
  ghost predicate WriteStep(n: nat, s: Store, f: nat, offset: nat, buffer: seq<Sector>, status: Status, s': Store)
    requires f < |s.files|
  {
    var size, end := |s.files[f]|, offset + |buffer|;
    var fits := end <= size + InSectors(s.room, n);
    if buffer == [] then status == Success && s' == s
    else
      && status == (if fits then Success else s.refusal)
      && |s'.files| == |s.files| && (forall j :: 0 <= j < |s.files| && j != f ==> s'.files[j] == s.files[j])
      && s'.refusal == s.refusal && s'.room <= s.room && |s'.files[f]| == size + InSectors(s.room - s'.room, n)
      && (if fits then end <= |s'.files[f]| && (s'.room == s.room || |s'.files[f]| < end + n) else s'.room == 0)
      && Overwrites(s.files[f], s'.files[f], offset, buffer)
  }

  ghost predicate Step(n: nat, s: Store, op: Operation, a: Answer, s': Store)
    requires op.file < |s.files|
  {
    match op
    case Read(f, offset, count, _) => s' == s && ReadStep(n, s, f, offset, count, a)
    case Write(f, offset, buffer, _, _) => WriteStep(n, s, f, offset, buffer, a.status, s')
  }

  // Some run of the store gives these answers and ends in s'; a failed ASSERT ends it.
  ghost predicate Steps(n: nat, s: Store, ops: seq<Operation>, answers: seq<Answer>, s': Store)
    requires forall i :: 0 <= i < |ops| ==> ops[i].file < |s.files|
    decreases |ops|
  {
    if ops == [] then answers == [] && s' == s
    else answers != [] && exists s1: Store ::
      && |s1.files| == |s.files| && Step(n, s, ops[0], answers[0], s1)
      && if answers[0].status == Aborted then |answers| == 1 && s' == s1
         else Steps(n, s1, ops[1..], answers[1..], s')
  }

  // ----- files on a volume -----

  // The first cluster of a file, and the directory cluster with its entry.
  datatype File = File(first: nat, directory: nat)

  ghost predicate FileOk(g: Geometry, disk: seq<Sector>, file: File, chain: seq<nat>)
    requires FitsDisk(g, disk)
  {
    && IsChain(g, disk, chain) && chain[0] == file.first
    && Bits.IsAddressAligned(g.SectorOf(file.first, 0), g.sectorsPerCluster)
    && g.IsCluster(file.directory) && !IsFree(g, disk, file.directory)
    && g.SectorOf(file.directory, 0) + g.sectorsPerCluster <= |disk|
    && HasSlot(g, disk, g.SectorOf(file.directory, 0), file.first)
  }

  // Chains of different files are disjoint, and no directory lies in a file.
  ghost predicate Laid(g: Geometry, disk: seq<Sector>, files: seq<File>, chains: seq<seq<nat>>)
    requires FitsDisk(g, disk)
  {
    && |chains| == |files|
    && (forall i {:trigger FileOk(g, disk, files[i], chains[i])} :: 0 <= i < |files| ==>
        FileOk(g, disk, files[i], chains[i]))
    && (forall i: nat, j: nat :: Outside(files, chains, i, j))
    && (forall i: nat, j: nat :: Apart(chains, i, j))
  }

  ghost predicate Outside(files: seq<File>, chains: seq<seq<nat>>, i: nat, j: nat)
  {
    i < |files| && j < |chains| ==> files[i].directory !in chains[j]
  }

  ghost predicate Apart(chains: seq<seq<nat>>, i: nat, j: nat)
  {
    i < |chains| && j < |chains| && i != j ==> Disjoint(chains[i], chains[j])
  }

  ghost function Sectors(g: Geometry, disk: seq<Sector>, chain: seq<nat>): (r: seq<Sector>)
    requires FitsDisk(g, disk) && IsChain(g, disk, chain)
    ensures |r| == |Places(g, chain)| == InSectors(|chain|, g.sectorsPerCluster)
  {
    ChainPlaces(g, disk, chain);
    PlacesLength(g, chain);
    FileOf(g, disk, chain)
  }

  // The store the volume stands for.
  ghost function StoreOf(g: Geometry, disk: seq<Sector>, files: seq<File>, chains: seq<seq<nat>>): Store
    requires FitsDisk(g, disk) && Laid(g, disk, files, chains)
  {
    Store(seq(|chains|, i requires 0 <= i < |chains| =>
              assert FileOk(g, disk, files[i], chains[i]); Sectors(g, disk, chains[i])),
          Budget(g, disk), RefusalStatus(g, disk))
  }

  // ----- what an operation leaves alone -----

  // The slots of the directory cluster name the same files.
  ghost predicate SameNames(g: Geometry, before: seq<Sector>, after: seq<Sector>, dir: nat)
    requires g.Valid() && g.IsCluster(dir) && g.SectorOf(dir, 0) + g.sectorsPerCluster <= |before| == |after|
  {
    forall x: nat, c: nat :: x < SLOTS_PER_SECTOR * g.sectorsPerCluster ==>
      (Names(SlotAt(after, g.SectorOf(dir, 0), x), c) <==> Names(SlotAt(before, g.SectorOf(dir, 0), x), c))
  }

  lemma SlotStays(g: Geometry, before: seq<Sector>, after: seq<Sector>, dir: nat, c: nat)
    requires g.Valid() && g.IsCluster(dir) && g.SectorOf(dir, 0) + g.sectorsPerCluster <= |before| == |after|
    requires SameNames(g, before, after, dir) && HasSlot(g, before, g.SectorOf(dir, 0), c)
    ensures HasSlot(g, after, g.SectorOf(dir, 0), c)
  {
    var e: nat :| IsSlotOf(g, before, g.SectorOf(dir, 0), c, e);
    assert IsSlotOf(g, after, g.SectorOf(dir, 0), c, e);
  }

  // Of the data region only these sectors, and sector k of a directory cluster, differ; the
  // directory names the same files.
  ghost predicate Touches(g: Geometry, before: seq<Sector>, after: seq<Sector>, part: seq<nat>, dir: nat, k: nat)
    requires g.Valid() && g.IsCluster(dir) && k < g.sectorsPerCluster
    requires g.SectorOf(dir, 0) + g.sectorsPerCluster <= |before| == |after|
  {
    && SameNames(g, before, after, dir)
    && forall s: nat :: g.firstDataSector <= s < |after| && s !in part && s != g.SectorOf(dir, k) ==>
      after[s] == before[s]
  }

  // Then every other directory that the part avoids names the same files, too.
  lemma NamesElsewhere(g: Geometry, before: seq<Sector>, after: seq<Sector>, part: seq<nat>, dir: nat, k: nat,
                       other: nat)
    requires g.Valid() && g.IsCluster(dir) && k < g.sectorsPerCluster && g.IsCluster(other)
    requires g.SectorOf(dir, 0) + g.sectorsPerCluster <= |before| == |after|
    requires g.SectorOf(other, 0) + g.sectorsPerCluster <= |before|
    requires Touches(g, before, after, part, dir, k)
    requires forall m: nat :: m < g.sectorsPerCluster ==> g.SectorOf(other, m) !in part
    ensures SameNames(g, before, after, other)
  {
    if other != dir {
      forall x: nat | x < SLOTS_PER_SECTOR * g.sectorsPerCluster
        ensures SlotAt(after, g.SectorOf(other, 0), x) == SlotAt(before, g.SectorOf(other, 0), x)
      {
        var m := x / SLOTS_PER_SECTOR;
        SectorsAreDisjoint(g, other, m, dir, k);
        SectorBounds(g, other, m);
        assert g.SectorOf(other, 0) + m == g.SectorOf(other, m);
      }
    }
  }

  // A directory outside a chain has no sector in it.
  lemma DirectoryIsOutside(g: Geometry, disk: seq<Sector>, chain: seq<nat>, dir: nat, m: nat)
    requires FitsDisk(g, disk) && IsChain(g, disk, chain) && g.IsCluster(dir) && dir !in chain
    requires m < g.sectorsPerCluster
    ensures AreClusters(g, chain) && g.SectorOf(dir, m) !in Places(g, chain)
  {
    ChainPlaces(g, disk, chain);
    ClusterOfSectorInverts(g, dir, m);
    forall i | 0 <= i < |Places(g, chain)|
      ensures Places(g, chain)[i] != g.SectorOf(dir, m)
    {
      PlaceIsInChain(g, chain, i);
    }
  }

  lemma DirectoryStays(g: Geometry, before: seq<Sector>, after: seq<Sector>, chain: seq<nat>, longer: seq<nat>,
                       dir: nat)
    requires FitsDisk(g, before) && FitsDisk(g, after) && Grown(g, before, after, chain, longer)
    requires g.IsCluster(dir) && !IsFree(g, before, dir) && dir !in chain
    ensures dir !in longer && !IsFree(g, after, dir)
  {
    forall i | 0 <= i < |longer| ensures longer[i] != dir {
      if i < |chain| { assert longer[i] == chain[i]; }
    }
  }

  // File i after an operation on file f.
  lemma FileAfter(g: Geometry, before: seq<Sector>, after: seq<Sector>, files: seq<File>, chains: seq<seq<nat>>, f: nat,
                  longer: seq<nat>, part: seq<nat>, k: nat, i: nat)
    requires FitsDisk(g, before) && FitsDisk(g, after) && |after| == |before| && Laid(g, before, files, chains)
    requires f < |files| && i < |files| && k < g.sectorsPerCluster && FileOk(g, before, files[f], chains[f])
    requires Grown(g, before, after, chains[f], longer) && AreClusters(g, longer)
    requires forall s :: s in part ==> s in Places(g, longer)
    requires Touches(g, before, after, part, files[f].directory, k)
    ensures FileOk(g, after, files[i], if i == f then longer else chains[i])
    ensures files[i].directory !in longer && (i != f ==> Disjoint(chains[i], longer))
  {
    var dir := files[i].directory;
    assert FileOk(g, before, files[i], chains[i]);
    assert Outside(files, chains, i, f) && Apart(chains, i, f);
    DirectoryStays(g, before, after, chains[f], longer, dir);
    if i != f { OtherChainsSurvive(g, before, after, chains[f], longer, chains[i]); }
    forall m: nat | m < g.sectorsPerCluster
      ensures g.SectorOf(dir, m) !in part
    {
      DirectoryIsOutside(g, after, longer, dir, m);
    }
    NamesElsewhere(g, before, after, part, files[f].directory, k, dir);
    SlotStays(g, before, after, dir, files[i].first);
  }

  lemma LaidAfter(g: Geometry, before: seq<Sector>, after: seq<Sector>, files: seq<File>, chains: seq<seq<nat>>, f: nat,
                  longer: seq<nat>, part: seq<nat>, k: nat)
    requires FitsDisk(g, before) && FitsDisk(g, after) && |after| == |before| && Laid(g, before, files, chains)
    requires f < |files| && k < g.sectorsPerCluster && FileOk(g, before, files[f], chains[f])
    requires Grown(g, before, after, chains[f], longer) && AreClusters(g, longer)
    requires forall s :: s in part ==> s in Places(g, longer)
    requires Touches(g, before, after, part, files[f].directory, k)
    ensures Laid(g, after, files, chains[f := longer])
  {
    var chains' := chains[f := longer];
    forall i | 0 <= i < |files|
      ensures FileOk(g, after, files[i], chains'[i]) && files[i].directory !in longer
      ensures i != f ==> Disjoint(chains[i], longer)
    {
      FileAfter(g, before, after, files, chains, f, longer, part, k, i);
    }
    forall i: nat, j: nat ensures Apart(chains', i, j) {
      assert Apart(chains, i, j);
      if i < |chains| && j < |chains| && i == f && j != f { assert Disjoint(chains[j], longer); }
    }
    forall i: nat, j: nat ensures Outside(files, chains', i, j) { assert Outside(files, chains, i, j); }
  }

  // Every other file keeps its sectors.
  lemma OthersKeepSectors(g: Geometry, before: seq<Sector>, after: seq<Sector>, other: seq<nat>, longer: seq<nat>,
                          part: seq<nat>, dir: nat, k: nat)
    requires FitsDisk(g, before) && FitsDisk(g, after) && IsChain(g, before, other) && IsChain(g, after, other)
    requires IsChain(g, after, longer)
    requires Disjoint(other, longer) && g.IsCluster(dir) && dir !in other && k < g.sectorsPerCluster
    requires g.SectorOf(dir, 0) + g.sectorsPerCluster <= |before| == |after| && Touches(g, before, after, part, dir, k)
    requires AreClusters(g, longer) && forall s :: s in part ==> s in Places(g, longer)
    ensures Sectors(g, after, other) == Sectors(g, before, other)
  {
    ChainPlaces(g, before, other);
    PlacesAreDisjoint(g, other, longer);
    DirectoryIsOutside(g, before, other, dir, k);
    forall i | 0 <= i < |Places(g, other)| ensures after[Places(g, other)[i]] == before[Places(g, other)[i]] {
      var s := Places(g, other)[i];
      assert s !in Places(g, longer);
    }
  }

  // The file written to.
  lemma OwnSectors(g: Geometry, before: seq<Sector>, after: seq<Sector>, chain: seq<nat>, longer: seq<nat>, offset: nat,
                   data: seq<Sector>, part: seq<nat>, dir: nat, k: nat)
    requires FitsDisk(g, before) && FitsDisk(g, after) && IsChain(g, before, chain) && IsChain(g, after, longer)
    requires chain <= longer
    requires AreClusters(g, longer) && OnDisk(Places(g, longer), after)
    requires part == Part(Places(g, longer), offset, |data|)
    requires data != [] ==> offset + |data| <= |Places(g, longer)|
    requires OnDisk(part, after)
    requires Gather(after, part) == data
    requires g.IsCluster(dir) && dir !in longer && k < g.sectorsPerCluster
    requires g.SectorOf(dir, 0) + g.sectorsPerCluster <= |before| == |after| && Touches(g, before, after, part, dir, k)
    ensures Overwrites(Sectors(g, before, chain), Sectors(g, after, longer), offset, data)
  {
    var places := Places(g, longer);
    ChainPlaces(g, after, longer);
    PlacesOfPrefix(g, chain, longer);
    DirectoryIsOutside(g, after, longer, dir, k);
    forall i: nat | i < |places|
      ensures offset <= i < offset + |data| ==> after[places[i]] == data[i - offset]
      ensures i < |Places(g, chain)| && !(offset <= i < offset + |data|) ==> after[places[i]] == before[places[i]]
    {
      if offset <= i < offset + |data| {
        PartHolds(after, places, offset, data, i);
      } else {
        PartAvoids(places, offset, |data|, i);
      }
    }
  }

  lemma PartHolds(disk: seq<Sector>, places: seq<nat>, offset: nat, data: seq<Sector>, i: nat)
    requires offset <= i < offset + |data| <= |places| && OnDisk(places, disk)
    requires OnDisk(Part(places, offset, |data|), disk) && Gather(disk, Part(places, offset, |data|)) == data
    ensures disk[places[i]] == data[i - offset]
  {
    var part := Part(places, offset, |data|);
    assert part[i - offset] == places[i] && Gather(disk, part)[i - offset] == data[i - offset];
  }

  lemma PartAvoids(places: seq<nat>, offset: nat, n: nat, i: nat)
    requires Distinct(places) && i < |places| && !(offset <= i < offset + n)
    ensures places[i] !in Part(places, offset, n)
  {
    var part := Part(places, offset, n);
    forall j | 0 <= j < |part| ensures part[j] != places[i] { assert part[j] == places[offset + j]; }
  }

  // Where the file ends before the buffer does, the part of the buffer written is all that fits.
  lemma OverwritesAll(before: seq<Sector>, after: seq<Sector>, offset: nat, buffer: seq<Sector>, done: nat)
    requires done <= |buffer| && Overwrites(before, after, offset, buffer[..done]) && |after| <= offset + done
    ensures Overwrites(before, after, offset, buffer)
  {
  }

  // ----- one operation -----

  method ReadOne(v: Volume, file: File, offset: nat, count: nat, date: Word, ghost files: seq<File>,
                 ghost chains: seq<seq<nat>>, ghost f: nat)
    returns (a: Answer)
    requires v.Valid() && Laid(v.g, v.disk, files, chains) && f < |files| && files[f] == file
    modifies v
    ensures v.Valid() && Laid(v.g, v.disk, files, chains)
    ensures StoreOf(v.g, v.disk, files, chains) == StoreOf(v.g, old(v.disk), files, chains)
    ensures ReadStep(v.g.sectorsPerCluster, StoreOf(v.g, v.disk, files, chains), f, offset, count, a)
    ensures CountIsExact(v.g, old(v.disk)) ==> CountIsExact(v.g, v.disk)
  {
    assert FileOk(v.g, v.disk, file, chains[f]) && Outside(files, chains, f, f);
    ghost var start, before := Cursor(chains[f], 0, file.first, 0), v.disk;
    ChainPlaces(v.g, v.disk, chains[f]);
    SectorBounds(v.g, file.directory, 0);
    assert chains[f][..0] == [];
    var status, data, sectorsRead;
    ghost var slot;
    status, data, sectorsRead, slot :=
      FatReadFile(v, v.g.SectorOf(file.first, 0), offset, v.g.SectorOf(file.directory, 0), count, date, start, true);
    a := Answer(status, data);
    if count > 0 { ReadIsStep(v.g, before, files, chains, f, offset, count, a); }
    if v.disk != before {
      ReadKeepsStore(v.g, before, v.disk, files, chains, f, slot, date);
    }
  }

  // The answer of FatReadFile as seen in the store.
  lemma ReadIsStep(g: Geometry, disk: seq<Sector>, files: seq<File>, chains: seq<seq<nat>>, f: nat, offset: nat,
                   count: nat, a: Answer)
    requires FitsDisk(g, disk) && Laid(g, disk, files, chains) && f < |files| && 0 < count
    requires FileOk(g, disk, files[f], chains[f]) && AreClusters(g, chains[f]) && OnDisk(Places(g, chains[f]), disk)
    requires var file, seek := FileOf(g, disk, chains[f]), SeekStatus(g, chains[f], offset);
      if seek != Success then a.status == seek
      else
        && IsPart(a.data, file, offset) && |a.data| == Min(count, |file| - offset)
        && a.status in {Success, ElementNotFound}
           && (a.status == ElementNotFound ==>
                 forall x: nat :: x < SLOTS_PER_SECTOR * g.sectorsPerCluster
                   ==> !Names(SlotAt(disk, g.SectorOf(files[f].directory, 0), x), files[f].first))
    ensures ReadStep(g.sectorsPerCluster, StoreOf(g, disk, files, chains), f, offset, count, a)
  {
    var e: nat :| IsSlotOf(g, disk, g.SectorOf(files[f].directory, 0), files[f].first, e);
    assert StoreOf(g, disk, files, chains).files[f] == FileOf(g, disk, chains[f]);
  }

  // The access date is all that a read changes.
  lemma ReadKeepsStore(g: Geometry, before: seq<Sector>, after: seq<Sector>, files: seq<File>, chains: seq<seq<nat>>,
                       f: nat, slot: nat, date: Word)
    requires FitsDisk(g, before) && Laid(g, before, files, chains) && f < |files|
    requires FileOk(g, before, files[f], chains[f])
    requires slot < SLOTS_PER_SECTOR * g.sectorsPerCluster
    requires var dir := g.SectorOf(files[f].directory, 0);
      after == WithSlot(before, dir, slot, Accessed(SlotAt(before, dir, slot), date))
    ensures FitsDisk(g, after) && Laid(g, after, files, chains)
    ensures StoreOf(g, after, files, chains) == StoreOf(g, before, files, chains)
    ensures CountIsExact(g, before) ==> CountIsExact(g, after)
  {
    var d, k := files[f].directory, slot / SLOTS_PER_SECTOR;
    SectorBounds(g, d, k);
    GrewByData(g, before, after, chains[f]);
    ChainPlaces(g, after, chains[f]);
    AccessKeepsNames(g, before, after, d, slot, date);
    LaidAfter(g, before, after, files, chains, f, chains[f], [], k);
    assert chains[f := chains[f]] == chains;
    forall i | 0 <= i < |chains|
      ensures IsChain(g, before, chains[i]) && IsChain(g, after, chains[i])
      ensures Sectors(g, after, chains[i]) == Sectors(g, before, chains[i])
    {
      assert FileOk(g, before, files[i], chains[i]) && FileOk(g, after, files[i], chains[i]);
      assert Outside(files, chains, f, i);
      UntouchedSectors(g, before, after, chains[i], d, k);
    }
  }

  lemma UntouchedSectors(g: Geometry, before: seq<Sector>, after: seq<Sector>, chain: seq<nat>, dir: nat, k: nat)
    requires FitsDisk(g, before) && FitsDisk(g, after) && IsChain(g, before, chain) && IsChain(g, after, chain)
    requires g.IsCluster(dir) && dir !in chain && k < g.sectorsPerCluster
    requires g.SectorOf(dir, 0) + g.sectorsPerCluster <= |before| == |after| && Touches(g, before, after, [], dir, k)
    ensures Sectors(g, after, chain) == Sectors(g, before, chain)
  {
    ChainPlaces(g, before, chain);
    DirectoryIsOutside(g, before, chain, dir, k);
  }

  lemma AccessKeepsNames(g: Geometry, before: seq<Sector>, after: seq<Sector>, dir: nat, slot: nat, date: Word)
    requires FitsDisk(g, before) && g.IsCluster(dir) && slot < SLOTS_PER_SECTOR * g.sectorsPerCluster
    requires g.SectorOf(dir, 0) + g.sectorsPerCluster <= |before|
    requires after == WithSlot(before, g.SectorOf(dir, 0), slot,
                               Accessed(SlotAt(before, g.SectorOf(dir, 0), slot), date))
    ensures |after| == |before| && slot / SLOTS_PER_SECTOR < g.sectorsPerCluster
    ensures Touches(g, before, after, [], dir, slot / SLOTS_PER_SECTOR)
  {
    var base := g.SectorOf(dir, 0);
    forall x: nat, c: nat | x < SLOTS_PER_SECTOR * g.sectorsPerCluster
      ensures Names(SlotAt(after, base, x), c) <==> Names(SlotAt(before, base, x), c)
    {
      SlotAfterWithSlot(before, base, slot, Accessed(SlotAt(before, base, slot), date), x);
      UpdatesKeepIdentity(SlotAt(before, base, slot), date, 0, 0, c);
    }
  }

  // A write to file f has grown its chain to `longer` and put `done` sectors of the buffer in place;
  // if that is not all, the file ends there.
  ghost predicate WroteTo(g: Geometry, before: seq<Sector>, after: seq<Sector>, files: seq<File>, chains: seq<seq<nat>>,
                          f: nat, longer: seq<nat>, offset: nat, buffer: seq<Sector>, done: nat, k: nat)
    requires FitsDisk(g, before) && FitsDisk(g, after) && Laid(g, before, files, chains)
  {
    && f < |files| && k < g.sectorsPerCluster && FileOk(g, before, files[f], chains[f]) && |after| == |before|
    && Grown(g, before, after, chains[f], longer) && AreClusters(g, longer) && OnDisk(Places(g, longer), after)
    && done <= |buffer| && (done > 0 ==> offset + done <= |Places(g, longer)|)
    && (done < |buffer| ==> |Places(g, longer)| <= offset + done)
    && var part := Part(Places(g, longer), offset, done);
       OnDisk(part, after) && Gather(after, part) == buffer[..done]
       && Touches(g, before, after, part, files[f].directory, k)
  }

  // Only file f of the store has changed, as the buffer at the offset says.
  ghost predicate ChangesFile(s: Store, s': Store, f: nat, offset: nat, buffer: seq<Sector>)
  {
    && |s'.files| == |s.files| && f < |s.files|
    && (forall j :: 0 <= j < |s.files| && j != f ==> s'.files[j] == s.files[j])
    && Overwrites(s.files[f], s'.files[f], offset, buffer)
  }

  // What the write does to the store.
  lemma WriteIsStep(g: Geometry, before: seq<Sector>, after: seq<Sector>, files: seq<File>, chains: seq<seq<nat>>,
                    f: nat, longer: seq<nat>, offset: nat, buffer: seq<Sector>, status: Status)
    requires FitsDisk(g, before) && FitsDisk(g, after) && Laid(g, before, files, chains) && f < |chains| && buffer != []
    requires Laid(g, after, files, chains[f := longer]) && AreClusters(g, longer) && |chains[f]| <= |longer|
    requires ChangesFile(StoreOf(g, before, files, chains), StoreOf(g, after, files, chains[f := longer]), f, offset,
                         buffer)
    requires Balanced(g, before, after, chains[f], longer) && NotTooLong(g, chains[f], longer, offset + |buffer|)
    requires status == DataStatus(g, before, chains[f], offset + |buffer|)
    requires if status == Success then offset + |buffer| <= |Places(g, longer)| else Budget(g, after) == 0
    ensures WriteStep(g.sectorsPerCluster, StoreOf(g, before, files, chains), f, offset, buffer, status,
                      StoreOf(g, after, files, chains[f := longer]))
  {
    assert FileOk(g, before, files[f], chains[f]) && FileOk(g, after, files[f], chains[f := longer][f]);
    PlacesLength(g, longer);
    StatusInStore(g, before, files, chains, f, offset + |buffer|);
    assert longer == chains[f] || InSectors(|longer|, g.sectorsPerCluster) < offset + |buffer| + g.sectorsPerCluster;
    StoreStep(g.sectorsPerCluster, StoreOf(g, before, files, chains), f, offset, buffer, status,
              StoreOf(g, after, files, chains[f := longer]), |chains[f]|, |longer|);
  }

  lemma StatusInStore(g: Geometry, disk: seq<Sector>, files: seq<File>, chains: seq<seq<nat>>, f: nat, end: nat)
    requires FitsDisk(g, disk) && Laid(g, disk, files, chains) && f < |chains|
    ensures var s := StoreOf(g, disk, files, chains);
      DataStatus(g, disk, chains[f], end)
      == if end <= InSectors(|chains[f]| + s.room, g.sectorsPerCluster) then Success else s.refusal
  {
    assert StoreOf(g, disk, files, chains).room == Budget(g, disk);
  }

  lemma WriteChangesFile(g: Geometry, before: seq<Sector>, after: seq<Sector>, files: seq<File>, chains: seq<seq<nat>>,
                         f: nat, longer: seq<nat>, offset: nat, buffer: seq<Sector>, done: nat, k: nat)
    requires FitsDisk(g, before) && FitsDisk(g, after) && Laid(g, before, files, chains)
    requires WroteTo(g, before, after, files, chains, f, longer, offset, buffer, done, k)
    ensures Laid(g, after, files, chains[f := longer])
    ensures ChangesFile(StoreOf(g, before, files, chains), StoreOf(g, after, files, chains[f := longer]), f, offset,
                        buffer)
  {
    var part := Part(Places(g, longer), offset, done);
    LaidAfter(g, before, after, files, chains, f, longer, part, k);
    OwnAfter(g, before, after, files, chains, f, longer, offset, buffer, done, k);
    forall j | 0 <= j < |chains| && j != f
      ensures FileOk(g, before, files[j], chains[j]) && FileOk(g, after, files[j], chains[j])
      ensures Sectors(g, after, chains[j]) == Sectors(g, before, chains[j])
    {
      OtherAfter(g, before, after, files, chains, f, longer, part, k, j);
    }
  }

  // The sizes in a write step, from the numbers of clusters a and b before and after it.
  lemma StoreStep(n: nat, s: Store, f: nat, offset: nat, buffer: seq<Sector>, status: Status, s': Store, a: nat, b: nat)
    requires ChangesFile(s, s', f, offset, buffer)
    requires |s.files[f]| == InSectors(a, n) && |s'.files[f]| == InSectors(b, n) && b + s'.room == a + s.room && a <= b
    requires buffer != [] && s'.refusal == s.refusal && s.refusal != Success
    requires status == if offset + |buffer| <= InSectors(a + s.room, n) then Success else s.refusal
    requires if status == Success
      then offset + |buffer| <= InSectors(b, n) && (b == a || InSectors(b, n) < offset + |buffer| + n)
      else s'.room == 0
    ensures WriteStep(n, s, f, offset, buffer, status, s')
  {
    InSectorsAdds(a, s.room, n);
    InSectorsAdds(a, s.room - s'.room, n);
    assert a + (s.room - s'.room) == b;
  }

  lemma OwnAfter(g: Geometry, before: seq<Sector>, after: seq<Sector>, files: seq<File>, chains: seq<seq<nat>>, f: nat,
                 longer: seq<nat>, offset: nat, buffer: seq<Sector>, done: nat, k: nat)
    requires FitsDisk(g, before) && FitsDisk(g, after) && Laid(g, before, files, chains)
    requires WroteTo(g, before, after, files, chains, f, longer, offset, buffer, done, k)
    ensures Overwrites(Sectors(g, before, chains[f]), Sectors(g, after, longer), offset, buffer)
  {
    var part, d := Part(Places(g, longer), offset, done), files[f].directory;
    assert Outside(files, chains, f, f);
    DirectoryStays(g, before, after, chains[f], longer, d);
    OwnSectors(g, before, after, chains[f], longer, offset, buffer[..done], part, d, k);
    if done < |buffer| {
      OverwritesAll(Sectors(g, before, chains[f]), Sectors(g, after, longer), offset, buffer, done);
    } else {
      assert buffer[..done] == buffer;
    }
  }

  lemma OtherAfter(g: Geometry, before: seq<Sector>, after: seq<Sector>, files: seq<File>, chains: seq<seq<nat>>,
                   f: nat, longer: seq<nat>, part: seq<nat>, k: nat, j: nat)
    requires FitsDisk(g, before) && FitsDisk(g, after) && |after| == |before| && Laid(g, before, files, chains)
    requires f < |files| && j < |files| && j != f && k < g.sectorsPerCluster && FileOk(g, before, files[f], chains[f])
    requires Grown(g, before, after, chains[f], longer) && AreClusters(g, longer)
    requires forall s :: s in part ==> s in Places(g, longer)
    requires Touches(g, before, after, part, files[f].directory, k)
    ensures FileOk(g, before, files[j], chains[j]) && FileOk(g, after, files[j], chains[j])
    ensures Sectors(g, after, chains[j]) == Sectors(g, before, chains[j])
  {
    assert FileOk(g, before, files[j], chains[j]) && Outside(files, chains, f, j);
    FileAfter(g, before, after, files, chains, f, longer, part, k, j);
    OthersKeepSectors(g, before, after, chains[j], longer, part, files[f].directory, k);
  }

  method WriteOne(v: Volume, file: File, offset: nat, buffer: seq<Sector>, date: Word, time: Word,
                  ghost files: seq<File>, ghost chains: seq<seq<nat>>, ghost f: nat)
    returns (status: Status, ghost chains': seq<seq<nat>>)
    requires v.Valid() && Laid(v.g, v.disk, files, chains) && f < |files| && files[f] == file
    modifies v
    ensures v.Valid() && Laid(v.g, v.disk, files, chains')
    ensures WriteStep(v.g.sectorsPerCluster, StoreOf(v.g, old(v.disk), files, chains), f, offset, buffer, status,
                      StoreOf(v.g, v.disk, files, chains'))
    ensures CountIsExact(v.g, old(v.disk)) ==> CountIsExact(v.g, v.disk)
  {
    assert FileOk(v.g, v.disk, file, chains[f]) && Outside(files, chains, f, f);
    ghost var start, before := Cursor(chains[f], 0, file.first, 0), v.disk;
    ChainPlaces(v.g, v.disk, chains[f]);
    assert chains[f][..0] == [];
    var sectorsWritten;
    ghost var chain, done, slot;
    status, sectorsWritten, chain, done, slot :=
      FatWriteFile(v, v.g.SectorOf(file.first, 0), offset, v.g.SectorOf(file.directory, 0), buffer, date, time, start,
                   file.directory);
    if buffer == [] {
      chains' := chains;
      EmptyWriteIsStep(v.g.sectorsPerCluster, StoreOf(v.g, v.disk, files, chains), f, offset);
      return;
    }
    chains' := chains[f := chain];
    if status == Success {
      SuccessIsStep(v.g, before, v.disk, files, chains, f, chain, offset, buffer, slot, date, time);
    } else {
      RefusalIsStep(v.g, before, v.disk, files, chains, f, chain, offset, buffer, status, done);
    }
  }

  lemma SuccessIsStep(g: Geometry, before: seq<Sector>, after: seq<Sector>, files: seq<File>, chains: seq<seq<nat>>,
                      f: nat, longer: seq<nat>, offset: nat, buffer: seq<Sector>, slot: nat, date: Word, time: Word)
    requires FitsDisk(g, before) && FitsDisk(g, after) && |before| == |after| && buffer != []
    requires Laid(g, before, files, chains) && f < |files| && FileOk(g, before, files[f], chains[f])
    requires Grew(g, before, after, chains[f], longer) && AreClusters(g, longer)
    requires NotTooLong(g, chains[f], longer, offset + |buffer|)
    requires DataStatus(g, before, chains[f], offset + |buffer|) == Success
    requires var dir := g.SectorOf(files[f].directory, 0);
      && slot < SLOTS_PER_SECTOR * g.sectorsPerCluster
      && Stored(g, before, after, longer, offset, buffer, dir + slot / SLOTS_PER_SECTOR)
      && OneSlotChanged(g, before, after, dir, slot,
                        Modified(SlotAt(before, dir, slot), date, time, EndInBytes(offset, |buffer|)))
    ensures Laid(g, after, files, chains[f := longer])
    ensures WriteStep(g.sectorsPerCluster, StoreOf(g, before, files, chains), f, offset, buffer, Success,
                      StoreOf(g, after, files, chains[f := longer]))
  {
    ChainPlaces(g, after, longer);
    WriteTouches(g, before, after, files[f].directory, longer, offset, buffer, slot, date, time);
    FileWritten(g, before, after, files, chains, f, longer, offset, buffer, Success, |buffer|, slot / SLOTS_PER_SECTOR);
  }

  lemma RefusalIsStep(g: Geometry, before: seq<Sector>, after: seq<Sector>, files: seq<File>, chains: seq<seq<nat>>,
                      f: nat, longer: seq<nat>, offset: nat, buffer: seq<Sector>, status: Status, done: nat)
    requires FitsDisk(g, before) && FitsDisk(g, after) && |before| == |after| && buffer != []
    requires Laid(g, before, files, chains) && f < |files| && FileOk(g, before, files[f], chains[f])
    requires Grew(g, before, after, chains[f], longer) && AreClusters(g, longer)
    requires NotTooLong(g, chains[f], longer, offset + |buffer|)
    requires status == DataStatus(g, before, chains[f], offset + |buffer|) != Success && done < |buffer|
    requires Refused(g, after, longer, offset + done, status) && Written(g, before, after, longer, offset, buffer, done)
    ensures Laid(g, after, files, chains[f := longer])
    ensures WriteStep(g.sectorsPerCluster, StoreOf(g, before, files, chains), f, offset, buffer, status,
                      StoreOf(g, after, files, chains[f := longer]))
  {
    ChainPlaces(g, after, longer);
    assert Outside(files, chains, f, f);
    RefusedTouches(g, before, after, files[f].directory, chains[f], longer, offset, buffer, done);
    FileWritten(g, before, after, files, chains, f, longer, offset, buffer, status, done, 0);
  }

  lemma FileWritten(g: Geometry, before: seq<Sector>, after: seq<Sector>, files: seq<File>, chains: seq<seq<nat>>,
                    f: nat, longer: seq<nat>, offset: nat, buffer: seq<Sector>, status: Status, done: nat, k: nat)
    requires FitsDisk(g, before) && FitsDisk(g, after) && Laid(g, before, files, chains) && buffer != []
    requires WroteTo(g, before, after, files, chains, f, longer, offset, buffer, done, k)
    requires Balanced(g, before, after, chains[f], longer) && NotTooLong(g, chains[f], longer, offset + |buffer|)
    requires status == DataStatus(g, before, chains[f], offset + |buffer|)
    requires if status == Success then done == |buffer| else Budget(g, after) == 0
    ensures Laid(g, after, files, chains[f := longer])
    ensures WriteStep(g.sectorsPerCluster, StoreOf(g, before, files, chains), f, offset, buffer, status,
                      StoreOf(g, after, files, chains[f := longer]))
  {
    WriteChangesFile(g, before, after, files, chains, f, longer, offset, buffer, done, k);
    WriteIsStep(g, before, after, files, chains, f, longer, offset, buffer, status);
  }

  lemma EmptyWriteIsStep(n: nat, s: Store, f: nat, offset: nat)
    requires f < |s.files|
    ensures WriteStep(n, s, f, offset, [], Success, s)
  {
  }

  // A successful write touches its sectors and one slot.
  lemma WriteTouches(g: Geometry, before: seq<Sector>, after: seq<Sector>, dir: nat, chain: seq<nat>, offset: nat,
                     buffer: seq<Sector>, slot: nat, date: Word, time: Word)
    requires FitsDisk(g, before) && g.IsCluster(dir) && slot < SLOTS_PER_SECTOR * g.sectorsPerCluster
    requires g.SectorOf(dir, 0) + g.sectorsPerCluster <= |before| == |after|
    requires Stored(g, before, after, chain, offset, buffer, g.SectorOf(dir, 0) + slot / SLOTS_PER_SECTOR)
    requires OneSlotChanged(g, before, after, g.SectorOf(dir, 0), slot,
                            Modified(SlotAt(before, g.SectorOf(dir, 0), slot), date, time,
                                     EndInBytes(offset, |buffer|)))
    ensures slot / SLOTS_PER_SECTOR < g.sectorsPerCluster
    ensures Touches(g, before, after, Part(Places(g, chain), offset, |buffer|), dir, slot / SLOTS_PER_SECTOR)
    ensures offset + |buffer| <= |Places(g, chain)| && OnDisk(Part(Places(g, chain), offset, |buffer|), after)
    ensures Gather(after, Part(Places(g, chain), offset, |buffer|)) == buffer
  {
    var base := g.SectorOf(dir, 0);
    forall x: nat, c: nat | x < SLOTS_PER_SECTOR * g.sectorsPerCluster
      ensures Names(SlotAt(after, base, x), c) <==> Names(SlotAt(before, base, x), c)
    {
      UpdatesKeepIdentity(SlotAt(before, base, slot), date, time, EndInBytes(offset, |buffer|), c);
    }
    GatherSlice(after, Places(g, chain), offset, offset + |buffer|);
  }

  // A refused write touches the sectors it has written.
  lemma RefusedTouches(g: Geometry, before: seq<Sector>, after: seq<Sector>, dir: nat, start: seq<nat>, chain: seq<nat>,
                       offset: nat, buffer: seq<Sector>, done: nat)
    requires FitsDisk(g, before) && FitsDisk(g, after) && Grown(g, before, after, start, chain) && done <= |buffer|
    requires g.IsCluster(dir) && !IsFree(g, before, dir) && dir !in start
    requires Written(g, before, after, chain, offset, buffer, done)
    requires g.SectorOf(dir, 0) + g.sectorsPerCluster <= |before| == |after|
    ensures Touches(g, before, after, Part(Places(g, chain), offset, done), dir, 0)
    ensures OnDisk(Part(Places(g, chain), offset, done), after)
    ensures Gather(after, Part(Places(g, chain), offset, done)) == buffer[..done]
  {
    SlotsUnchanged(g, before, after, start, chain, dir, offset, buffer, done);
  }

  // ----- whole runs -----

  method RunOne(v: Volume, files: seq<File>, op: Operation, ghost chains: seq<seq<nat>>)
    returns (a: Answer, ghost chains': seq<seq<nat>>)
    requires v.Valid() && Laid(v.g, v.disk, files, chains) && op.file < |files|
    modifies v
    ensures v.Valid() && Laid(v.g, v.disk, files, chains')
    ensures Step(v.g.sectorsPerCluster, StoreOf(v.g, old(v.disk), files, chains), op, a,
                 StoreOf(v.g, v.disk, files, chains'))
    ensures CountIsExact(v.g, old(v.disk)) ==> CountIsExact(v.g, v.disk)
  {
    match op
    case Read(f, offset, count, date) =>
      chains' := chains;
      a := ReadOne(v, files[f], offset, count, date, files, chains, f);
    case Write(f, offset, buffer, date, time) =>
      var status;
      status, chains' := WriteOne(v, files[f], offset, buffer, date, time, files, chains, f);
      a := Answer(status, []);
  }

  // Every sequence of reads and writes, up to the first that fails an ASSERT, gets from the volume the
  // answers of a run of the store, and a free count that was right stays right.
  method Run(v: Volume, files: seq<File>, ops: seq<Operation>, ghost chains: seq<seq<nat>>)
    returns (answers: seq<Answer>, ghost chains': seq<seq<nat>>)
    requires v.Valid() && Laid(v.g, v.disk, files, chains) && forall i :: 0 <= i < |ops| ==> ops[i].file < |files|
    modifies v
    ensures v.Valid() && Laid(v.g, v.disk, files, chains')
    ensures Steps(v.g.sectorsPerCluster, StoreOf(v.g, old(v.disk), files, chains), ops, answers,
                  StoreOf(v.g, v.disk, files, chains'))
    ensures CountIsExact(v.g, old(v.disk)) ==> CountIsExact(v.g, v.disk)
    decreases |ops|
  {
    answers, chains' := [], chains;
    if ops != [] {
      ghost var middle, s1;
      var a;
      a, middle := RunOne(v, files, ops[0], chains);
      s1 := StoreOf(v.g, v.disk, files, middle);
      if a.status == Aborted {
        return [a], middle;
      }
      answers, chains' := Run(v, files, ops[1..], middle);
      answers := [a] + answers;
    }
  }
}
