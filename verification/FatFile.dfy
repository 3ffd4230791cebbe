/**
  A file as a sequence of sectors: the disk sectors of a cluster chain in file order, and what
  writing a range of them changes on disk.
 */
module FatFile {

  import opened Basics
  import opened FatLayout
  import opened FatChain

  // m consecutive sectors.
  function Run(at: nat, m: nat): seq<nat> { seq(m, t requires 0 <= t < m => at + t) }

  lemma RunMembers(at: nat, m: nat, s: nat)
    ensures s in Run(at, m) <==> at <= s < at + m
  {
    if at <= s < at + m { assert Run(at, m)[s - at] == s; }
  }

  // The disk sectors of a chain, in file order.
  function Places(g: Geometry, chain: seq<nat>): seq<nat>
    requires AreClusters(g, chain)
  {
    if chain == [] then []
    else Places(g, chain[..|chain| - 1]) + Run(g.SectorOf(chain[|chain| - 1], 0), g.sectorsPerCluster)
  }

  predicate AreClusters(g: Geometry, chain: seq<nat>) { forall k :: 0 <= k < |chain| ==> g.IsCluster(chain[k]) }

  predicate OnDisk(places: seq<nat>, disk: seq<Sector>) { forall i :: 0 <= i < |places| ==> places[i] < |disk| }

  // The contents of the given sectors; of Places, the contents of the file.
  function Gather(disk: seq<Sector>, places: seq<nat>): (r: seq<Sector>)
    requires OnDisk(places, disk)
    ensures |r| == |places|
  {
    seq(|places|, i requires 0 <= i < |places| => disk[places[i]])
  }

  // The sectors of so many clusters of n sectors each.
  function InSectors(clusters: nat, n: nat): nat
  {
    if clusters == 0 then 0 else InSectors(clusters - 1, n) + n
  }

  lemma {:induction false} InSectorsAdds(a: nat, b: nat, n: nat)
    ensures InSectors(a + b, n) == InSectors(a, n) + InSectors(b, n)
    decreases b
  {
    if b > 0 { InSectorsAdds(a, b - 1, n); }
  }

  lemma {:induction false} PlacesLength(g: Geometry, chain: seq<nat>)
    requires AreClusters(g, chain)
    ensures |Places(g, chain)| == InSectors(|chain|, g.sectorsPerCluster)
  {
    if chain != [] { PlacesLength(g, chain[..|chain| - 1]); }
  }

  // A longer chain holds a longer file with the same beginning.
  lemma {:induction false} PlacesOfPrefix(g: Geometry, chain: seq<nat>, longer: seq<nat>)
    requires AreClusters(g, longer) && chain <= longer
    ensures AreClusters(g, chain) && Places(g, chain) <= Places(g, longer)
    decreases |longer|
  {
    if |chain| < |longer| { PlacesOfPrefix(g, chain, longer[..|longer| - 1]); } else { assert chain == longer; }
  }

  // Cluster number k begins at logical sector |Places(g, chain[..k])|.
  lemma PlacesOfCluster(g: Geometry, chain: seq<nat>, k: nat)
    requires AreClusters(g, chain) && k < |chain|
    ensures var n := |Places(g, chain[..k])|;
            && n + g.sectorsPerCluster == |Places(g, chain[..k + 1])| <= |Places(g, chain)|
            && Places(g, chain)[n..n + g.sectorsPerCluster] == Run(g.SectorOf(chain[k], 0), g.sectorsPerCluster)
  {
    PlacesOfPrefix(g, chain[..k + 1], chain);
    assert chain[..k + 1][..k] == chain[..k];
  }

  // A sector of the file lies in the data region and belongs to a cluster of the chain.
  lemma {:induction false} PlaceIsInChain(g: Geometry, chain: seq<nat>, i: nat)
    requires g.Valid() && AreClusters(g, chain) && i < |Places(g, chain)|
    ensures var s := Places(g, chain)[i];
            && g.firstDataSector <= s < g.DiskSize()
            && ClusterOfSector(g, s).Ok? && ClusterOfSector(g, s).value in chain
  {
    var init, c := chain[..|chain| - 1], chain[|chain| - 1];
    var k := |Places(g, init)|;
    if i < k {
      PlaceIsInChain(g, init, i);
    } else {
      ClusterOfSectorInverts(g, c, i - k);
      SectorBounds(g, c, i - k);
    }
  }

  lemma {:induction false} PlacesAreDistinct(g: Geometry, chain: seq<nat>)
    requires g.Valid() && AreClusters(g, chain) && Distinct(chain)
    ensures Distinct(Places(g, chain))
  {
    if chain != [] {
      var init, c := chain[..|chain| - 1], chain[|chain| - 1];
      PlacesAreDistinct(g, init);
      var left, run := Places(g, init), Run(g.SectorOf(c, 0), g.sectorsPerCluster);
      assert c !in init;
      forall i, j | 0 <= i < |left| && 0 <= j < |run| ensures left[i] != run[j] {
        PlaceIsInChain(g, init, i);
        ClusterOfSectorInverts(g, c, j);
      }
    }
  }

  // Files of disjoint chains share no sector.
  lemma PlacesAreDisjoint(g: Geometry, a: seq<nat>, b: seq<nat>)
    requires g.Valid() && AreClusters(g, a) && AreClusters(g, b) && Disjoint(a, b)
    ensures Disjoint(Places(g, a), Places(g, b))
  {
    forall i, j | 0 <= i < |Places(g, a)| && 0 <= j < |Places(g, b)| ensures Places(g, a)[i] != Places(g, b)[j] {
      PlaceIsInChain(g, a, i);
      PlaceIsInChain(g, b, j);
    }
  }

  // What a chain says about its sectors.
  lemma ChainPlaces(g: Geometry, disk: seq<Sector>, chain: seq<nat>)
    requires FitsDisk(g, disk) && IsChain(g, disk, chain)
    ensures AreClusters(g, chain) && Distinct(chain)
    ensures Distinct(Places(g, chain)) && OnDisk(Places(g, chain), disk)
    ensures forall i :: 0 <= i < |Places(g, chain)| ==> g.firstDataSector <= Places(g, chain)[i]
  {
    forall i, j | 0 <= i < j < |chain| ensures chain[i] != chain[j] { ChainIsAcyclic(g, disk, chain, i, j); }
    PlacesAreDistinct(g, chain);
    forall i | 0 <= i < |Places(g, chain)|
      ensures g.firstDataSector <= Places(g, chain)[i] < |disk|
    {
      PlaceIsInChain(g, chain, i);
    }
  }

  // ----- writing -----

  // IoWriteDeviceEx of whole sectors.
  function WriteRange(disk: seq<Sector>, at: nat, data: seq<Sector>): (r: seq<Sector>)
    requires at + |data| <= |disk|
    ensures |r| == |disk|
    ensures forall s :: 0 <= s < |r| ==> r[s] == if at <= s < at + |data| then data[s - at] else disk[s]
  {
    disk[..at] + data + disk[at + |data|..]
  }

  // The given places hold the data, and no other sector at or above `low` differs from `before`.
  ghost predicate Wrote(low: nat, before: seq<Sector>, disk: seq<Sector>, places: seq<nat>, data: seq<Sector>)
    requires OnDisk(places, disk)
  {
    && |disk| == |before|
    && Gather(disk, places) == data
    && forall s: nat :: low <= s < |disk| && s !in places ==> disk[s] == before[s]
  }

  // Writing one more run of sectors.
  lemma RunWritten(low: nat, before: seq<Sector>, disk: seq<Sector>, places: seq<nat>, data: seq<Sector>, at: nat,
                   chunk: seq<Sector>)
    requires OnDisk(places, disk) && Wrote(low, before, disk, places, data) && at + |chunk| <= |disk|
    requires forall i :: 0 <= i < |places| ==> !(at <= places[i] < at + |chunk|)
    ensures OnDisk(places + Run(at, |chunk|), disk)
    ensures Wrote(low, before, WriteRange(disk, at, chunk), places + Run(at, |chunk|), data + chunk)
  {
    var more, after := places + Run(at, |chunk|), WriteRange(disk, at, chunk);
    forall i | 0 <= i < |more| ensures after[more[i]] == (data + chunk)[i] {
      if i < |places| { assert Gather(disk, places)[i] == data[i]; }
    }
    assert Gather(after, more) == data + chunk;
    forall s: nat | low <= s < |after| && s !in more ensures after[s] == before[s] {
      assert s !in places && s !in Run(at, |chunk|);
      RunMembers(at, |chunk|, s);
    }
  }

  lemma PartOfRun(all: seq<nat>, n: nat, at: nat, size: nat, o: nat, m: nat)
    requires n + size <= |all| && all[n..n + size] == Run(at, size) && o + m <= size
    ensures all[n + o..n + o + m] == Run(at + o, m)
  {
    var part := all[n + o..n + o + m];
    forall t | 0 <= t < m
      ensures part[t] == Run(at + o, m)[t]
    {
      assert all[n..n + size][o + t] == Run(at, size)[o + t];
    }
  }

  lemma GatherRun(disk: seq<Sector>, at: nat, m: nat)
    requires at + m <= |disk|
    ensures OnDisk(Run(at, m), disk) && Gather(disk, Run(at, m)) == disk[at..at + m]
  {
  }

  lemma GatherSlice(disk: seq<Sector>, places: seq<nat>, from: nat, to: nat)
    requires OnDisk(places, disk) && from <= to <= |places|
    ensures OnDisk(places[from..to], disk) && Gather(disk, places)[from..to] == Gather(disk, places[from..to])
  {
  }
}
