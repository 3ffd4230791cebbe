/**
  The 32-byte directory slots that FatReadFile and FatWriteFile update: a directory cluster is
  a row of slots of eight 32-bit words, sixteen to a sector.
 */
module FatDirectory {

  import opened Basics
  import opened FatLayout
  import opened FatVolume
  import opened FatFile
  import Bits

  const SLOT_WORDS: nat := 8
  const SLOTS_PER_SECTOR: nat := 16
  const FREE_ENTRY: nat := 0xE5
  const FREE_JAP_ENTRY: nat := 0x05
  const ATTR_LONG_NAME: nat := 0x0F

  type Slot = s: seq<Dword> | |s| == SLOT_WORDS witness [0, 0, 0, 0, 0, 0, 0, 0]

  // DIR_Name[0], DIR_Attr, and DIR_FstClusHI : DIR_FstClusLO
  function FirstNameByte(s: Slot): nat { s[0] % 0x100 }

  function Attributes(s: Slot): nat { s[2] / 0x100_0000 }

  function FirstCluster(s: Slot): nat { s[5] % 0x1_0000 * 0x1_0000 + s[6] / 0x1_0000 }

  function FileSize(s: Slot): Dword { s[7] }

  // A slot in use, not part of a long name, whose file starts at the cluster.
  predicate Names(s: Slot, cluster: nat)
  {
    && FirstNameByte(s) != FREE_ENTRY && FirstNameByte(s) != FREE_JAP_ENTRY
    && Attributes(s) % 0x40 != ATTR_LONG_NAME
    && FirstCluster(s) == cluster
  }

  // DIR_LstAccDate is the upper half of word 4.
  function Accessed(s: Slot, date: Word): Slot { s[4 := s[4] % 0x1_0000 + date * 0x1_0000] }

  // FatWriteFile also sets DIR_WrtTime (upper half of word 5), DIR_WrtDate (lower half of word 6)
  // and raises DIR_FileSize to the 32-bit byte position behind the last sector written.
  function Modified(s: Slot, date: Word, time: Word, end: Dword): Slot
  {
    Accessed(s, date)[5 := s[5] % 0x1_0000 + time * 0x1_0000]
      [6 := s[6] / 0x1_0000 * 0x1_0000 + date]
      [7 := if end > FileSize(s) then end else FileSize(s)]
  }

  // The updates leave name, attributes and first cluster alone.
  lemma UpdatesKeepIdentity(s: Slot, date: Word, time: Word, end: Dword, cluster: nat)
    ensures Names(Accessed(s, date), cluster) <==> Names(s, cluster)
    ensures Names(Modified(s, date, time, end), cluster) <==> Names(s, cluster)
  {
  }

  // ----- the fields of DIR_ENTRY, by their byte offsets -----

  // Byte k of the slot on disk.
  function ByteAt(s: Slot, k: nat): Byte
    requires k < 32
  {
    var w := s[k / 4];
    if k % 4 == 0 then w % 0x100
    else if k % 4 == 1 then w / 0x100 % 0x100
    else if k % 4 == 2 then w / 0x1_0000 % 0x100
    else w / 0x100_0000
  }

  // The 16 and 32 bits at offset k.
  function WordAt(s: Slot, k: nat): nat
    requires k < 31
  {
    ByteAt(s, k) + ByteAt(s, k + 1) * 0x100
  }

  function DwordAt(s: Slot, k: nat): nat
    requires k < 29
  {
    WordAt(s, k) + WordAt(s, k + 2) * 0x1_0000
  }

  // A slot names a file exactly when its first byte does not mark it as deleted, its attributes,
  // masked, are not those of a long name, and the words at 20 and 26 are the file's first cluster.
  lemma NamesByBytes(s: Slot, cluster: nat)
    ensures Names(s, cluster) <==>
      && ByteAt(s, 0) != 0xE5 && ByteAt(s, 0) != 0x05
      && Bits.And(ByteAt(s, 11), 0x3F) != 0x0F
      && cluster == WordAt(s, 20) * 0x1_0000 + WordAt(s, 26)
  {
    assert Bits.Pow2(6) == 0x40;
    Bits.AndLowMask(ByteAt(s, 11), 6);
    Bits.LowIsRemainder(ByteAt(s, 11), 6);
    HalvesOf(s[5]);
    HalvesOf(s[6]);
  }

  lemma SizeByBytes(s: Slot)
    ensures FileSize(s) == DwordAt(s, 28)
  {
    HalvesOf(s[7]);
  }

  lemma HalvesOf(w: Dword)
    ensures w % 0x1_0000 == w % 0x100 + w / 0x100 % 0x100 * 0x100
    ensures w / 0x1_0000 == w / 0x1_0000 % 0x100 + w / 0x100_0000 * 0x100
  {
    var h, l := w / 0x1_0000, w % 0x1_0000;
    Bits.RemainderIs(w, 0x100, h * 0x100 + l / 0x100, l % 0x100);
    Bits.RemainderIs(h * 0x100 + l / 0x100, 0x100, h, l / 0x100);
    Bits.RemainderIs(w, 0x100_0000, h / 0x100, h % 0x100 * 0x1_0000 + l);
  }

  // A read leaves everything but the access date at offset 18 alone.
  ghost predicate ReadIsRecorded(before: Slot, after: Slot, date: Word)
  {
    && WordAt(after, 18) == date
    && forall k :: 0 <= k < 32 && k != 18 && k != 19 ==> ByteAt(after, k) == ByteAt(before, k)
  }

  // A write sets the access date, the write time at 22 and the write date at 24, and never lowers the
  // size at 28: it is raised to the end of the data, in bytes modulo 2^32, if that is more.
  ghost predicate WriteIsRecorded(before: Slot, after: Slot, date: Word, time: Word, endSector: nat)
  {
    && WordAt(after, 18) == date && WordAt(after, 22) == time && WordAt(after, 24) == date
    && DwordAt(before, 28) <= DwordAt(after, 28)
    && (endSector * 512 < 0x1_0000_0000 ==> endSector * 512 <= DwordAt(after, 28))
    && DwordAt(after, 28) in {DwordAt(before, 28), endSector * 512 % 0x1_0000_0000}
    && forall k :: 0 <= k < 28 && k !in {18, 19, 22, 23, 24, 25} ==> ByteAt(after, k) == ByteAt(before, k)
  }

  lemma AccessedIsRecorded(s: Slot, date: Word)
    ensures ReadIsRecorded(s, Accessed(s, date), date)
  {
    var t := Accessed(s, date);
    UpperHalf(s[4], date);
    forall k | 0 <= k < 32 && k != 18 && k != 19 ensures ByteAt(t, k) == ByteAt(s, k) {
      if k / 4 == 4 { assert k == 16 || k == 17; }
    }
  }

  lemma UpperHalf(w: Dword, h: Word)
    ensures var v := w % 0x1_0000 + h * 0x1_0000;
      && v % 0x100 == w % 0x100 && v / 0x100 % 0x100 == w / 0x100 % 0x100
      && v / 0x1_0000 % 0x100 + v / 0x100_0000 * 0x100 == h
  {
    HalvesOf(w % 0x1_0000 + h * 0x1_0000);
  }

  lemma LowerHalf(w: Dword, h: Word)
    ensures var v := w / 0x1_0000 * 0x1_0000 + h;
      && v / 0x1_0000 % 0x100 == w / 0x1_0000 % 0x100 && v / 0x100_0000 == w / 0x100_0000
      && v % 0x100 + v / 0x100 % 0x100 * 0x100 == h
  {
    HalvesOf(w / 0x1_0000 * 0x1_0000 + h);
  }

  lemma SizeIsRaised(before: Dword, after: Dword, endSector: nat, end: Dword)
    requires end == endSector * 512 % 0x1_0000_0000 && after == if end > before then end else before
    ensures before <= after && after in {before, end}
    ensures endSector * 512 < 0x1_0000_0000 ==> endSector * 512 <= after
  {
    if endSector * 512 < 0x1_0000_0000 { Bits.RemainderIs(endSector * 512, 0x1_0000_0000, 0, endSector * 512); }
  }

  lemma ModifiedIsRecorded(s: Slot, date: Word, time: Word, endSector: nat, end: Dword)
    requires end == endSector * 512 % 0x1_0000_0000
    ensures WriteIsRecorded(s, Modified(s, date, time, end), date, time, endSector)
  {
    var t := Modified(s, date, time, end);
    UpperHalf(s[4], date);
    UpperHalf(s[5], time);
    LowerHalf(s[6], date);
    SizeByBytes(s);
    SizeByBytes(t);
    SizeIsRaised(FileSize(s), FileSize(t), endSector, end);
    forall k | 0 <= k < 28 && k !in {18, 19, 22, 23, 24, 25} ensures ByteAt(t, k) == ByteAt(s, k) {
      if k / 4 == 4 { assert k == 16 || k == 17; }
      if k / 4 == 5 { assert k == 20 || k == 21; }
      if k / 4 == 6 { assert k == 26 || k == 27; }
    }
  }

  // ----- slots on disk -----

  function SlotAt(disk: seq<Sector>, dir: nat, e: nat): Slot
    requires dir + e / SLOTS_PER_SECTOR < |disk|
  {
    var k := e % SLOTS_PER_SECTOR * SLOT_WORDS;
    disk[dir + e / SLOTS_PER_SECTOR][k..k + SLOT_WORDS]
  }

  function WithSlot(disk: seq<Sector>, dir: nat, e: nat, slot: Slot): seq<Sector>
    requires dir + e / SLOTS_PER_SECTOR < |disk|
  {
    var i, k := dir + e / SLOTS_PER_SECTOR, e % SLOTS_PER_SECTOR * SLOT_WORDS;
    disk[i := disk[i][..k] + slot + disk[i][k + SLOT_WORDS..]]
  }

  // Exactly one slot changes.
  lemma SlotAfterWithSlot(disk: seq<Sector>, dir: nat, e: nat, slot: Slot, x: nat)
    requires dir + e / SLOTS_PER_SECTOR < |disk| && dir + x / SLOTS_PER_SECTOR < |disk|
    ensures SlotAt(WithSlot(disk, dir, e, slot), dir, x) == if x == e then slot else SlotAt(disk, dir, x)
  {
    var k, k' := e % SLOTS_PER_SECTOR * SLOT_WORDS, x % SLOTS_PER_SECTOR * SLOT_WORDS;
    if x != e && x / SLOTS_PER_SECTOR == e / SLOTS_PER_SECTOR {
      assert k + SLOT_WORDS <= k' || k' + SLOT_WORDS <= k;
      var s := disk[dir + e / SLOTS_PER_SECTOR];
      var t := s[..k] + slot + s[k + SLOT_WORDS..];
      assert t[k'..k' + SLOT_WORDS] == s[k'..k' + SLOT_WORDS];
    }
  }

  // e is the first slot of the directory cluster that names the file.
  ghost predicate IsSlotOf(g: Geometry, disk: seq<Sector>, dir: nat, cluster: nat, e: nat)
    requires dir + g.sectorsPerCluster <= |disk|
  {
    && e < SLOTS_PER_SECTOR * g.sectorsPerCluster && Names(SlotAt(disk, dir, e), cluster)
    && (forall x: nat :: x < e ==> !Names(SlotAt(disk, dir, x), cluster))
  }

  // Slot e of the directory cluster holds `entry`, and all its other slots are as before.
  ghost predicate OneSlotChanged(g: Geometry, before: seq<Sector>, after: seq<Sector>, dir: nat, e: nat, entry: Slot)
    requires dir + g.sectorsPerCluster <= |before| == |after|
  {
    forall x: nat :: x < SLOTS_PER_SECTOR * g.sectorsPerCluster ==>
      SlotAt(after, dir, x) == if x == e then entry else SlotAt(before, dir, x)
  }

  method GetDirEntryFromSector(v: Volume, entrySector: nat, dirFirstSector: nat)
    returns (status: Status, entryIndex: nat, dirEntry: Slot)
    requires v.Valid() && entrySector + v.g.sectorsPerCluster <= |v.disk|
    ensures status in {Success, DeviceClusterInvalid, ElementNotFound}
    ensures status == DeviceClusterInvalid <==> ClusterOfSector(v.g, dirFirstSector).ClusterInvalid?
    ensures status == Success ==>
      && IsSlotOf(v.g, v.disk, entrySector, ClusterOfSector(v.g, dirFirstSector).value, entryIndex)
      && dirEntry == SlotAt(v.disk, entrySector, entryIndex)
    ensures status == ElementNotFound ==>
      forall x: nat :: x < SLOTS_PER_SECTOR * v.g.sectorsPerCluster
        ==> !Names(SlotAt(v.disk, entrySector, x), ClusterOfSector(v.g, dirFirstSector).value)
  {
    var cluster := ClusterOfSector(v.g, dirFirstSector);
    entryIndex, dirEntry := 0, [0, 0, 0, 0, 0, 0, 0, 0];
    if cluster.ClusterInvalid? { return DeviceClusterInvalid, entryIndex, dirEntry; }
    while entryIndex < BYTES_PER_SECTOR * v.g.sectorsPerCluster / 32
      invariant entryIndex <= SLOTS_PER_SECTOR * v.g.sectorsPerCluster
      invariant forall x: nat :: x < entryIndex ==> !Names(SlotAt(v.disk, entrySector, x), cluster.value)
    {
      dirEntry := SlotAt(v.disk, entrySector, entryIndex);
      if Names(dirEntry, cluster.value) { return Success, entryIndex, dirEntry; }
      entryIndex := entryIndex + 1;
    }
    status := ElementNotFound;
  }

  // The whole directory cluster is read, changed in one slot, and written back.
  method WriteDirEntryToSector(v: Volume, entrySector: nat, entryIndex: nat, dirEntry: Slot)
    requires v.Valid() && v.g.firstDataSector <= entrySector && entrySector + v.g.sectorsPerCluster <= |v.disk|
    requires entryIndex < SLOTS_PER_SECTOR * v.g.sectorsPerCluster
    modifies v
    ensures v.Valid() && v.disk == WithSlot(old(v.disk), entrySector, entryIndex, dirEntry)
  {
    var sectors := v.disk[entrySector..entrySector + v.g.sectorsPerCluster];
    var i, k := entryIndex / SLOTS_PER_SECTOR, entryIndex % SLOTS_PER_SECTOR * SLOT_WORDS;
    sectors := sectors[i := sectors[i][..k] + dirEntry + sectors[i][k + SLOT_WORDS..]];
    var after := WriteRange(v.disk, entrySector, sectors);
    DataWriteKeepsFat(v.g, v.disk, after);
    v.disk := after;
    assert v.disk == WithSlot(old(v.disk), entrySector, entryIndex, dirEntry);
  }

  // Writing above the FAT keeps the FAT.
  lemma DataWriteKeepsFat(g: Geometry, before: seq<Sector>, after: seq<Sector>)
    requires FitsDisk(g, before) && |after| == |before|
    requires forall s :: 0 <= s < g.firstDataSector && s < |before| ==> after[s] == before[s]
    ensures FitsDisk(g, after)
    ensures forall c: nat :: c < g.countOfClusters + 2 ==> Entry(g, after, c) == Entry(g, before, c)
  {
    forall c: nat | c < g.countOfClusters + 2
      ensures Entry(g, after, c) == Entry(g, before, c)
    {
      FatSectorBounds(g, c);
    }
  }
}
