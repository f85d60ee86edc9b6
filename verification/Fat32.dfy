/** FAT32 volumes as values: cluster chains, what a file and a directory on them hold, and what a path
    names. Sectors are 512 bytes; sector and cluster numbers are 32-bit and wrap around. */
module Fat32 {
  import opened Bytes
  import opened Numerals

  const SECTOR: nat := 512
  const END_OF_CHAIN: nat := 0x0FFF_FFF8

  type Sector = s: seq<Byte> | |s| == 512 witness seq(512, _ => 0)
  type ClusterSize = n: nat | 1 <= n < 0x100 witness 1

  /** The boot sector's fields and the content of the disk. */
  datatype Volume = Volume(reservedSectors: U16, fatsOnMedia: Byte, sectorsPerFat32: U32,
                           sectorsPerCluster: ClusterSize, rootDirCluster: U32, disk: U32 -> Sector)

  function BytesPerCluster(v: Volume): (n: nat)
    ensures n >= SECTOR
  {
    SECTOR * v.sectorsPerCluster
  }

  function DataRegionStart(v: Volume): U32 {
    Low32(v.reservedSectors + v.fatsOnMedia * v.sectorsPerFat32)
  }

  function ClusterToSector(v: Volume, cluster: U32): U32 {
    Pattern(DataRegionStart(v) + (cluster - 2) * v.sectorsPerCluster)
  }

  function SectorsFrom(v: Volume, first: U32, n: nat): (b: seq<Byte>)
    ensures |b| == SECTOR * n
  {
    if n == 0 then [] else SectorsFrom(v, first, n - 1) + v.disk(Low32(first + (n - 1)))
  }

  function ClusterBytes(v: Volume, cluster: U32): (b: seq<Byte>)
    ensures |b| == BytesPerCluster(v)
  {
    SectorsFrom(v, ClusterToSector(v, cluster), v.sectorsPerCluster)
  }

  // ----- where on the disk clusters lie -----

  function SectorOf(b: seq<Byte>, j: nat): (s: seq<Byte>)
    requires 512 * j + 512 <= |b|
  {
    b[512 * j..512 * j + 512]
  }

  lemma {:induction false} SectorsSlice(v: Volume, first: U32, n: nat, j: nat)
    requires j < n
    ensures SectorOf(SectorsFrom(v, first, n), j) == v.disk((first + j) % 0x1_0000_0000)
  {
    if j < n - 1 {
      SectorsSlice(v, first, n - 1, j);
    }
  }

  /** The sectors of a cluster, as 32-bit numbers: cluster 2 is the first behind the reserved sectors and
      the tables. */
  lemma ClusterSector(v: Volume, c: U32, j: nat)
    requires j < v.sectorsPerCluster
    ensures SectorOf(ClusterBytes(v, c), j)
         == v.disk((v.reservedSectors + v.fatsOnMedia * v.sectorsPerFat32 + (c - 2) * v.sectorsPerCluster + j) % 0x1_0000_0000)
  {
    SectorsSlice(v, ClusterToSector(v, c), v.sectorsPerCluster, j);
    hide SectorsFrom;
    var (tables, clusters) := (v.reservedSectors + v.fatsOnMedia * v.sectorsPerFat32, (c - 2) * v.sectorsPerCluster);
    WrapsTwice(tables, clusters);
    WrapsTwice(tables + clusters, j);
  }

  /** From cluster 2 on and within 32 bits it is the sector one counts to. */
  lemma ClusterSectorCounted(v: Volume, c: U32, j: nat, sector: U32)
    requires c >= 2 && j < v.sectorsPerCluster
    requires sector == v.reservedSectors + v.fatsOnMedia * v.sectorsPerFat32 + (c - 2) * v.sectorsPerCluster + j
    ensures SectorOf(ClusterBytes(v, c), j) == v.disk(sector)
  {
    hide SectorOf;
    hide ClusterBytes;
    ClusterSector(v, c, j);
  }

  lemma WrapsTwice(a: int, b: int)
    ensures (a % 0x1_0000_0000 + b) % 0x1_0000_0000 == (a + b) % 0x1_0000_0000
  {
  }

  // ----- the table -----

  function FatOffset(cluster: U32): (o: U32)
    ensures o % 4 == 0
  {
    Low32(cluster * 4)
  }

  function EntryOffset(fatOffset: U32): (o: nat)
    requires fatOffset % 4 == 0
    ensures o + 4 <= SECTOR
  {
    fatOffset % SECTOR
  }

  /** The table's entry for a cluster: its upper four bits are not part of the number. */
  function NextCluster(v: Volume, cluster: U32): U32 {
    var fatOffset := FatOffset(cluster);
    U32At(v.disk(Low32(v.reservedSectors + fatOffset / SECTOR)), EntryOffset(fatOffset)) % 0x1000_0000
  }

  predicate LastInChain(v: Volume, cluster: U32) { NextCluster(v, cluster) >= END_OF_CHAIN }

  /** `cs` is the whole chain that starts with `c`. */
  predicate IsChain(v: Volume, c: U32, cs: seq<U32>)
    decreases |cs|
  {
    && cs != []
    && cs[0] == c
    && if |cs| == 1 then LastInChain(v, c) else !LastInChain(v, c) && IsChain(v, NextCluster(v, c), cs[1..])
  }

  /** The first `k` clusters of the chain from `c`, fewer where it ends before. */
  function FirstClusters(v: Volume, c: U32, k: nat): seq<U32>
    decreases k
  {
    if k == 0 then []
    else [c] + if LastInChain(v, c) then [] else FirstClusters(v, NextCluster(v, c), k - 1)
  }

  function Joined(v: Volume, cs: seq<U32>): (b: seq<Byte>)
    ensures |b| == |cs| * BytesPerCluster(v)
  {
    if cs == [] then [] else ClusterBytes(v, cs[0]) + Joined(v, cs[1..])
  }

  lemma {:induction false} ChainUnique(v: Volume, c: U32, cs: seq<U32>, ds: seq<U32>)
    requires IsChain(v, c, cs) && IsChain(v, c, ds)
    ensures cs == ds
    decreases |cs|
  {
    hide NextCluster;
    if |cs| > 1 {
      ChainUnique(v, NextCluster(v, c), cs[1..], ds[1..]);
      assert cs == [cs[0]] + cs[1..] && ds == [ds[0]] + ds[1..];
    }
  }

  // ----- reading a file -----

  /** What is read from the chain at `c` when `n` bytes are wanted. */
  function ReadFrom(v: Volume, c: U32, n: nat): (b: seq<Byte>)
    ensures |b| <= n
    decreases n
  {
    var here := ClusterBytes(v, c);
    if n <= |here| then here[..n]
    else if LastInChain(v, c) then here
    else here + ReadFrom(v, NextCluster(v, c), n - |here|)
  }

  /** On every table, cyclic ones included, the bytes read are the first ones of the chain's clusters
      joined, as far as the chain is followed. */
  lemma {:induction false} ReadIsJoined(v: Volume, c: U32, n: nat, k: nat)
    requires n <= k * BytesPerCluster(v) && k > 0
    ensures var all := Joined(v, FirstClusters(v, c, k));
      ReadFrom(v, c, n) == all[..Min(n, |all|)]
    decreases k
  {
    hide NextCluster;
    hide ClusterBytes;
    var here := ClusterBytes(v, c);
    var cs := FirstClusters(v, c, k);
    assert cs[0] == c;
    if n > |here| && !LastInChain(v, c) {
      MoreClusters(v, n, k);
      ReadIsJoined(v, NextCluster(v, c), n - |here|, k - 1);
      assert cs[1..] == FirstClusters(v, NextCluster(v, c), k - 1);
    } else if LastInChain(v, c) {
      assert cs[1..] == [];
      assert Joined(v, cs) == here;
    }
  }

  lemma MoreClusters(v: Volume, n: nat, k: nat)
    requires BytesPerCluster(v) < n <= k * BytesPerCluster(v)
    ensures k > 1 && n - BytesPerCluster(v) <= (k - 1) * BytesPerCluster(v)
  {
  }

  /** A short read happens only where the chain has come to its end, and then it is the whole chain. */
  lemma {:induction false} ShortReadIsWholeChain(v: Volume, c: U32, n: nat)
    requires |ReadFrom(v, c, n)| < n
    ensures exists cs :: IsChain(v, c, cs) && ReadFrom(v, c, n) == Joined(v, cs)
    decreases n
  {
    hide NextCluster;
    hide ClusterBytes;
    var here := ClusterBytes(v, c);
    if LastInChain(v, c) {
      assert Joined(v, [c]) == here + Joined(v, [c][1..]) == here;
      assert IsChain(v, c, [c]);
    } else {
      var next := NextCluster(v, c);
      ShortReadIsWholeChain(v, next, n - |here|);
      var ds :| IsChain(v, next, ds) && ReadFrom(v, next, n - |here|) == Joined(v, ds);
      var cs := [c] + ds;
      assert cs[1..] == ds;
      assert IsChain(v, c, cs);
    }
  }

  /** Where the chain ends, a read gets as much of it as was asked for. */
  lemma {:induction false} ReadFromChain(v: Volume, c: U32, cs: seq<U32>, n: nat)
    requires IsChain(v, c, cs)
    ensures ReadFrom(v, c, n) == Joined(v, cs)[..Min(n, |Joined(v, cs)|)]
    decreases |cs|
  {
    hide NextCluster;
    hide ClusterBytes;
    var here := ClusterBytes(v, c);
    if |cs| == 1 {
      assert cs[1..] == [];
      assert Joined(v, cs) == here;
    } else if n > |here| {
      ReadFromChain(v, NextCluster(v, c), cs[1..], n - |here|);
    }
  }
}
