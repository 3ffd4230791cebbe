/**
  Layout of a FAT32 volume as src/FAT32 addresses it: sectors of 128 32-bit words, the FSInfo
  sector, the first file allocation table and the data region.  Constants follow the Microsoft
  FAT32 File System Specification 1.03, sections "FAT Data Structure" and "FAT32 FSInfo Sector
  Structure and Backup Boot Sector".
 */
module FatLayout {

  import opened Basics
  import Bits

  const BYTES_PER_SECTOR: nat := 512       // sizeof(FSINFO), which the driver asserts to be one sector
  const ENTRY_BYTES: nat := 4              // sizeof(FAT32_ENTRY)
  const ENTRIES_PER_SECTOR: nat := 128
  const FSINFO_SECTOR: nat := 1
  const FSI_FREE_COUNT: nat := 122         // index of the 32-bit word in the FSInfo sector
  const FSI_NXT_FREE: nat := 123
  const FAT32_CLUSTER_MASK: nat := 0x0FFF_FFFF
  const FAT32_EOC_MARK: nat := 0x0FFF_FFFF
  const FAT32_BAD_CLUSTER: nat := 0x0FFF_FFF7
  const FAT32_UNKNOWN: nat := 0xFFFF_FFFF

  type Sector = s: seq<Dword> | |s| == ENTRIES_PER_SECTOR witness seq(128, i => 0)

  // FAT_DATA
  datatype Geometry = Geometry(
    countOfClusters: nat, reservedSectors: nat, firstDataSector: nat, sectorsPerCluster: nat)
  {
    // Clusters are numbered 2 .. countOfClusters + 1.
    predicate IsCluster(c: int) { 2 <= c < countOfClusters + 2 }

    // The FAT covers all clusters, follows the FSInfo sector and precedes the data region.
    predicate Valid()
    {
      && 0 < countOfClusters < FAT32_BAD_CLUSTER - 2
      && FSINFO_SECTOR < reservedSectors
      && reservedSectors + (countOfClusters + 1) / ENTRIES_PER_SECTOR < firstDataSector < 0x1_0000_0000
      && 0 < sectorsPerCluster < 0x100
    }

    // The cluster's own sectors: sector k of cluster c.
    function SectorOf(c: nat, k: nat): nat
      requires 2 <= c
    {
      (c - 2) * sectorsPerCluster + firstDataSector + k
    }

    function DiskSize(): nat { countOfClusters * sectorsPerCluster + firstDataSector }
  }

  predicate FitsDisk(g: Geometry, disk: seq<Sector>) { g.Valid() && g.firstDataSector <= g.DiskSize() <= |disk| }

  datatype Result<T> = Ok(value: T) | ClusterInvalid

  // ----- sectors and clusters -----

  function FirstSectorOfCluster(g: Geometry, cluster: nat): Result<nat>
  {
    if cluster > g.countOfClusters + 1 || cluster < 2 then ClusterInvalid
    else Ok((cluster - 2) * g.sectorsPerCluster + g.firstDataSector)
  }

  // Unsigned 64-bit arithmetic: a sector below the data region wraps around.
  function ClusterOfSector(g: Geometry, sector: nat): Result<nat>
    requires g.Valid()
  {
    var cluster := (((sector - g.firstDataSector) % QWORD_SIZE) / g.sectorsPerCluster + 2) % QWORD_SIZE;
    if cluster > g.countOfClusters + 1 || cluster < 2 then ClusterInvalid else Ok(cluster)
  }

  lemma SectorBounds(g: Geometry, c: nat, k: nat)
    requires g.Valid() && g.IsCluster(c) && k < g.sectorsPerCluster
    ensures g.firstDataSector <= g.SectorOf(c, k) < g.DiskSize()
  {
    var n, m := g.sectorsPerCluster, g.countOfClusters;
    assert (c - 2) * n >= 0;
    assert (c - 1) * n <= m * n;
    assert (c - 1) * n == (c - 2) * n + n;
  }

  // ClusterOfSector inverts FirstSectorOfCluster on every sector of the cluster.
  lemma ClusterOfSectorInverts(g: Geometry, c: nat, k: nat)
    requires g.Valid() && g.IsCluster(c) && k < g.sectorsPerCluster
    ensures FirstSectorOfCluster(g, c) == Ok(g.SectorOf(c, 0))
    ensures ClusterOfSector(g, g.SectorOf(c, k)) == Ok(c)
  {
    var distance: int := (c - 2) * g.sectorsPerCluster + k;
    DistanceIsSmall(g, c, k);
    Bits.RemainderIs(distance, g.sectorsPerCluster, c - 2, k);
    Bits.RemainderIs(g.SectorOf(c, k) - g.firstDataSector, QWORD_SIZE, 0, distance);
    Bits.RemainderIs(c, QWORD_SIZE, 0, c);
  }

  lemma DistanceIsSmall(g: Geometry, c: nat, k: nat)
    requires g.Valid() && g.IsCluster(c) && k < g.sectorsPerCluster
    ensures 0 <= (c - 2) * g.sectorsPerCluster + k < 0x1_0000_0000 * 0x100
  {
    ProductBound(c - 2, 0x1000_0000, g.sectorsPerCluster);
  }

  lemma ProductBound(a: nat, b: nat, n: nat)
    requires a <= b
    ensures 0 <= a * n <= b * n
  {
  }

  // Sector 0, which stands for "end of chain", belongs to no cluster.
  lemma NoClusterOfSectorZero(g: Geometry)
    requires g.Valid()
    ensures ClusterOfSector(g, 0) == ClusterInvalid
  {
    var wrapped: int := QWORD_SIZE - g.firstDataSector;
    assert (0 - g.firstDataSector) % QWORD_SIZE == wrapped;
    var q, r := wrapped / g.sectorsPerCluster, wrapped % g.sectorsPerCluster;
    assert wrapped == q * g.sectorsPerCluster + r && 0 <= r < g.sectorsPerCluster;
    QuotientBounds(q, g.sectorsPerCluster, r);
    assert (q + 2) % QWORD_SIZE == q + 2;
  }

  lemma QuotientBounds(q: int, d: int, r: int)
    requires 0 <= r < d < 0x100 && 0x1000_0000 * 0x100 <= q * d + r
    ensures 0x1000_0000 <= q <= q * d + r
  {
    assert q <= 0 ==> q * d <= 0;
    assert q >= 0 ==> q <= q * d <= q * 0xFF;
  }

  // Different clusters have different sectors.
  lemma SectorsAreDisjoint(g: Geometry, c: nat, k: nat, c': nat, k': nat)
    requires g.Valid() && g.IsCluster(c) && g.IsCluster(c') && k < g.sectorsPerCluster && k' < g.sectorsPerCluster
    ensures g.SectorOf(c, k) == g.SectorOf(c', k') <==> c == c' && k == k'
  {
    ClusterOfSectorInverts(g, c, k);
    ClusterOfSectorInverts(g, c', k');
  }

  // ----- entries of the FAT -----

  // The cluster number in an entry, and an entry with another cluster number; the top 4 bits are reserved.
  function ClusterValue(e: Dword): nat { e % 0x1000_0000 }

  function WithClusterValue(e: Dword, v: nat): Dword
    requires v <= FAT32_CLUSTER_MASK
  {
    e / 0x1000_0000 * 0x1000_0000 + v
  }

  // The masks of the source: e & FAT32_CLUSTER_MASK, and (e & ~FAT32_CLUSTER_MASK) | v
  method MaskedValue(e: Dword) returns (v: nat)
    ensures v == ClusterValue(e)
  {
    Bits.Pow2Values();
    Bits.MaskLaws(e, 0, 28, 0x1000_0000, 32, 0x1_0000_0000);
    v := Bits.And(e, FAT32_CLUSTER_MASK);
  }

  method CombinedEntry(e: Dword, v: nat) returns (r: Dword)
    requires v <= FAT32_CLUSTER_MASK
    ensures r == WithClusterValue(e, v)
  {
    Bits.Pow2Values();
    Bits.MaskLaws(e, v, 28, 0x1000_0000, 32, 0x1_0000_0000);
    WithoutLowBits(e);
    var combined := Bits.Or(Bits.And(e, 0xFFFF_FFFF - FAT32_CLUSTER_MASK), v);
    r := combined;
  }

  lemma WithoutLowBits(e: Dword)
    ensures e - e % 0x1000_0000 == e / 0x1000_0000 * 0x1000_0000
  {
  }

  predicate EndsChain(v: nat) { v >= FAT32_BAD_CLUSTER }

  // FAT32_EOC
  predicate IsEoc(v: nat) { v > FAT32_BAD_CLUSTER }

  function FatSector(g: Geometry, c: nat): nat { g.reservedSectors + c / ENTRIES_PER_SECTOR }

  function Entry(g: Geometry, disk: seq<Sector>, c: nat): Dword
    requires FitsDisk(g, disk) && c < g.countOfClusters + 2
  {
    FatSectorBounds(g, c);
    disk[FatSector(g, c)][c % ENTRIES_PER_SECTOR]
  }

  function Value(g: Geometry, disk: seq<Sector>, c: nat): nat
    requires FitsDisk(g, disk) && c < g.countOfClusters + 2
  {
    ClusterValue(Entry(g, disk, c))
  }

  predicate IsFree(g: Geometry, disk: seq<Sector>, c: nat)
    requires FitsDisk(g, disk) && c < g.countOfClusters + 2
  {
    Value(g, disk, c) == 0
  }

  lemma FatSectorBounds(g: Geometry, c: nat)
    requires g.Valid() && c < g.countOfClusters + 2
    ensures FSINFO_SECTOR < FatSector(g, c) < g.firstDataSector <= g.DiskSize()
  {
    assert g.countOfClusters * g.sectorsPerCluster >= 0;
  }

  // Read, modify and write back the sector of entry c.
  function WithValue(g: Geometry, disk: seq<Sector>, c: nat, v: nat): (r: seq<Sector>)
    requires FitsDisk(g, disk) && c < g.countOfClusters + 2 && v <= FAT32_CLUSTER_MASK
    ensures FitsDisk(g, r) && |r| == |disk|
  {
    FatSectorBounds(g, c);
    var s := FatSector(g, c);
    disk[s := disk[s][c % ENTRIES_PER_SECTOR := WithClusterValue(Entry(g, disk, c), v)]]
  }

  lemma ValueAfterWithValue(g: Geometry, disk: seq<Sector>, c: nat, v: nat)
    requires FitsDisk(g, disk) && c < g.countOfClusters + 2 && v <= FAT32_CLUSTER_MASK
    ensures Value(g, WithValue(g, disk, c, v), c) == v
  {
    FatSectorBounds(g, c);
    var e := Entry(g, disk, c);
    assert ClusterValue(WithClusterValue(e, v)) == v;
  }

  // Exactly one entry changes, its reserved bits are kept, and so is every sector outside the FAT.
  lemma EntryAfterWithValue(g: Geometry, disk: seq<Sector>, c: nat, v: nat)
    requires FitsDisk(g, disk) && c < g.countOfClusters + 2 && v <= FAT32_CLUSTER_MASK
    ensures var r := WithValue(g, disk, c, v);
            && (forall x: nat :: x < g.countOfClusters + 2 ==>
                  Entry(g, r, x) == if x == c then WithClusterValue(Entry(g, disk, c), v) else Entry(g, disk, x))
            && (forall s :: 0 <= s < |disk| && s != FatSector(g, c) ==> r[s] == disk[s])
  {
    FatSectorBounds(g, c);
    forall x: nat | x < g.countOfClusters + 2
      ensures Entry(g, WithValue(g, disk, c, v), x)
        == if x == c then WithClusterValue(Entry(g, disk, c), v) else Entry(g, disk, x)
    {
      assert x == c <==>
        x / ENTRIES_PER_SECTOR == c / ENTRIES_PER_SECTOR && x % ENTRIES_PER_SECTOR == c % ENTRIES_PER_SECTOR;
    }
  }

  // ----- FSInfo -----

  function FreeCount(disk: seq<Sector>): Dword
    requires |disk| > FSINFO_SECTOR
  {
    disk[FSINFO_SECTOR][FSI_FREE_COUNT]
  }

  function NextFree(disk: seq<Sector>): Dword
    requires |disk| > FSINFO_SECTOR
  {
    disk[FSINFO_SECTOR][FSI_NXT_FREE]
  }

  function WithFsInfo(disk: seq<Sector>, freeCount: Dword, nextFree: Dword): seq<Sector>
    requires |disk| > FSINFO_SECTOR
  {
    disk[FSINFO_SECTOR := disk[FSINFO_SECTOR][FSI_FREE_COUNT := freeCount][FSI_NXT_FREE := nextFree]]
  }

  // The two fields are the 32-bit words at byte offsets 488 and 492 of sector 1, and nothing else on the
  // disk is written with them.
  lemma FsInfoFields(disk: seq<Sector>, freeCount: Dword, nextFree: Dword)
    requires |disk| > 1
    ensures FreeCount(disk) == disk[1][488 / 4] && NextFree(disk) == disk[1][492 / 4]
    ensures var d := WithFsInfo(disk, freeCount, nextFree);
      && |d| == |disk| && FreeCount(d) == freeCount && NextFree(d) == nextFree
      && (forall s :: 0 <= s < |disk| && s != 1 ==> d[s] == disk[s])
      && forall k :: 0 <= k < 128 && k != 488 / 4 && k != 492 / 4 ==> d[1][k] == disk[1][k]
  {
  }

  // Free clusters among from .. to - 1.
  function CountFree(g: Geometry, disk: seq<Sector>, from: nat, to: nat): nat
    requires FitsDisk(g, disk) && to <= g.countOfClusters + 2
    decreases if from < to then to - from else 0
  {
    if from >= to then 0 else CountFree(g, disk, from + 1, to) + if IsFree(g, disk, from) then 1 else 0
  }
}
