/** The FAT32 driver's answers in terms of the disk alone: which sector a byte of a file is in, where the
    table's entry for a cluster stands, and which bytes of a directory a path leads to. */
module FatDisk {
  import opened Bytes
  import opened FatNames
  import opened Fat32
  import opened FatDirs
  import opened FatDriver

  // ----- the table -----

  /** The word of the first table that belongs to a cluster; there are 128 to a sector. */
  function TableWord(v: Volume, c: U32): U32 {
    U32At(v.disk(v.reservedSectors + c % 0x4000_0000 / 128), c % 128 * 4)
  }

  lemma TableOffset(c: U32)
    ensures FatOffset(c) / 512 == c % 0x4000_0000 / 128 && FatOffset(c) % 512 == c % 128 * 4
  {
    var d := c % 0x4000_0000;
    assert c == 0x4000_0000 * (c / 0x4000_0000) + d;
    assert FatOffset(c) == d * 4;
    assert d % 128 == c % 128;
  }

  /** The upper four bits of the word do not count. */
  lemma NextClusterIs(v: Volume, c: U32)
    ensures NextCluster(v, c) == TableWord(v, c) % 0x1000_0000
    ensures LastInChain(v, c) <==> TableWord(v, c) % 0x1000_0000 >= 0x0FFF_FFF8
  {
    TableOffset(c);
  }

  /** In the table each of these clusters but the last leads to the next. */
  predicate Linked(v: Volume, cs: seq<U32>) {
    && cs != []
    && (|cs| == 1
        || (TableWord(v, cs[0]) % 0x1000_0000 == cs[1] && cs[1] < 0x0FFF_FFF8 && Linked(v, cs[1..])))
  }

  /** The last of these clusters has an end mark in the table. */
  predicate Ended(v: Volume, cs: seq<U32>)
    requires cs != []
  {
    TableWord(v, cs[|cs| - 1]) % 0x1000_0000 >= 0x0FFF_FFF8
  }

  lemma {:induction false} LinkedFollowed(v: Volume, cs: seq<U32>)
    requires Linked(v, cs)
    ensures FirstClusters(v, cs[0], |cs|) == cs
    decreases |cs|
  {
    hide NextCluster;
    hide TableWord;
    NextClusterIs(v, cs[0]);
    if |cs| == 1 {
      assert cs == [cs[0]];
      assert FirstClusters(v, cs[0], 1) == [cs[0]] + [];
    } else {
      LinkedFollowed(v, cs[1..]);
      assert cs == [cs[0]] + cs[1..];
    }
  }

  lemma {:induction false} LinkedIsChain(v: Volume, cs: seq<U32>)
    requires Linked(v, cs) && Ended(v, cs)
    ensures IsChain(v, cs[0], cs)
    decreases |cs|
  {
    hide NextCluster;
    hide TableWord;
    NextClusterIs(v, cs[0]);
    if |cs| > 1 {
      LinkedIsChain(v, cs[1..]);
    }
  }

  // ----- files -----

  /** Sector `j` of a cluster on the disk. Cluster 2 is the first one behind the tables. */
  function DiskSector(v: Volume, c: U32, j: nat): Sector {
    v.disk((v.reservedSectors + v.fatsOnMedia * v.sectorsPerFat32 + (c - 2) * v.sectorsPerCluster + j) % 0x1_0000_0000)
  }

  /** Where sector `j` of the `k`-th of some clusters is among all of their sectors. */
  function SectorIndex(k: nat, j: nat, n: nat): nat { k * n + j }

  lemma {:induction false} SectorOfJoined(v: Volume, cs: seq<U32>, k: nat, j: nat)
    requires k < |cs| && j < v.sectorsPerCluster
    ensures |Joined(v, cs)| >= 512 * SectorIndex(k, j, v.sectorsPerCluster) + 512
    ensures SectorOf(Joined(v, cs), SectorIndex(k, j, v.sectorsPerCluster)) == DiskSector(v, cs[k], j)
    decreases |cs|
  {
    hide SectorIndex;
    hide SectorOf;
    hide DiskSector;
    hide ClusterBytes;
    var n := v.sectorsPerCluster;
    var (here, rest) := (ClusterBytes(v, cs[0]), Joined(v, cs[1..]));
    assert Joined(v, cs) == here + rest;
    if k == 0 {
      FirstSectors(j, n);
      SectorOfCluster(v, cs[0], j);
      SectorInFront(here, rest, j);
    } else {
      SectorOfJoined(v, cs[1..], k - 1, j);
      LaterSectors(k, j, n);
      SectorBehind(here, rest, n, SectorIndex(k - 1, j, n));
    }
  }

  lemma SectorOfCluster(v: Volume, c: U32, j: nat)
    requires j < v.sectorsPerCluster
    ensures SectorOf(ClusterBytes(v, c), j) == DiskSector(v, c, j)
  {
    hide ClusterBytes;
    hide SectorOf;
    ClusterSector(v, c, j);
  }

  lemma FirstSectors(j: nat, n: nat)
    ensures SectorIndex(0, j, n) == j
  {
  }

  lemma LaterSectors(k: nat, j: nat, n: nat)
    requires k > 0
    ensures SectorIndex(k, j, n) == n + SectorIndex(k - 1, j, n)
  {
  }

  lemma SectorInFront(a: seq<Byte>, b: seq<Byte>, j: nat)
    requires 512 * j + 512 <= |a|
    ensures SectorOf(a + b, j) == SectorOf(a, j)
  {
  }

  lemma SectorBehind(a: seq<Byte>, b: seq<Byte>, n: nat, j: nat)
    requires |a| == 512 * n && 512 * j + 512 <= |b|
    ensures SectorOf(a + b, n + j) == SectorOf(b, j)
  {
  }

  /** A file's bytes: in clusters that the table links, byte `r` of sector `j` of the `k`-th cluster is
      what a long enough read gets there. */
  lemma FileByte(v: Volume, cs: seq<U32>, n: nat, k: nat, j: nat, r: nat, i: nat, sector: U32)
    requires Linked(v, cs) && k < |cs| && j < v.sectorsPerCluster && r < 512
    requires i == 512 * (k * v.sectorsPerCluster + j) + r < n
    requires sector
          == (v.reservedSectors + v.fatsOnMedia * v.sectorsPerFat32 + (cs[k] - 2) * v.sectorsPerCluster + j) % 0x1_0000_0000
    ensures i < |ReadFrom(v, cs[0], n)| && ReadFrom(v, cs[0], n)[i] == v.disk(sector)[r]
  {
    assert DiskSector(v, cs[k], j) == v.disk(sector);
    var at := SectorIndex(k, j, v.sectorsPerCluster);
    assert i == 512 * at + r;
    hide SectorIndex;
    hide DiskSector;
    SectorOfJoined(v, cs, k, j);
    LinkedFront(v, cs, n);
    hide ReadFrom;
    hide Joined;
    hide Linked;
    var (data, b) := (ReadFrom(v, cs[0], n), Joined(v, cs));
    ByteOfSector(b, at, r);
    assert data[..Min(n, |b|)][i] == b[..Min(n, |b|)][i];
  }

  lemma ByteOfSector(b: seq<Byte>, j: nat, r: nat)
    requires 512 * j + 512 <= |b| && r < 512
    ensures SectorOf(b, j)[r] == b[512 * j + r]
  {
  }

  /** A read along linked clusters starts with what they hold. */
  lemma LinkedFront(v: Volume, cs: seq<U32>, n: nat)
    requires Linked(v, cs)
    ensures var (data, b) := (ReadFrom(v, cs[0], n), Joined(v, cs));
      |data| >= Min(n, |b|) && data[..Min(n, |b|)] == b[..Min(n, |b|)]
  {
    LinkedFollowed(v, cs);
    var m := n + |cs|;
    hide Linked;
    hide FirstClusters;
    hide Joined;
    hide ReadFrom;
    EnoughClusters(v, m, n);
    hide BytesPerCluster;
    ReadIsJoined(v, cs[0], n, m);
    FrontOfMore(v, cs[0], |cs|, m);
    FrontsAgree(Joined(v, cs), Joined(v, FirstClusters(v, cs[0], m)), n);
  }

  lemma FrontsAgree(front: seq<Byte>, all: seq<Byte>, n: nat)
    requires |front| <= |all| && front == all[..|front|]
    ensures all[..Min(n, |all|)][..Min(n, |front|)] == front[..Min(n, |front|)]
  {
  }

  lemma EnoughClusters(v: Volume, m: nat, n: nat)
    requires n <= m
    ensures n <= m * BytesPerCluster(v)
  {
  }

  /** Following a chain further puts more bytes behind those there are. */
  lemma {:induction false} FrontOfMore(v: Volume, c: U32, k: nat, m: nat)
    requires k <= m
    ensures var (front, all) := (Joined(v, FirstClusters(v, c, k)), Joined(v, FirstClusters(v, c, m)));
      |front| <= |all| && front == all[..|front|]
    decreases k
  {
    hide NextCluster;
    hide ClusterBytes;
    if k > 0 && !LastInChain(v, c) {
      FrontOfMore(v, NextCluster(v, c), k - 1, m - 1);
    }
  }

  /** Where the table has an end mark for the last of them, a read gets no more than they hold. */
  lemma FileEnds(v: Volume, cs: seq<U32>, n: nat)
    requires Linked(v, cs) && Ended(v, cs)
    ensures |ReadFrom(v, cs[0], n)| == Min(n, |cs| * (512 * v.sectorsPerCluster))
  {
    LinkedIsChain(v, cs);
    ReadFromChain(v, cs[0], cs, n);
    hide ReadFrom;
    hide Linked;
  }

  // ----- directory records -----

  /** A directory record as the disk holds it. */
  datatype Record = Record(name: seq<Byte>, attributes: Byte, created: seq<Byte>, high: U16, written: seq<Byte>, low: U16,
                           size: U32)

  predicate IsRecord(r: Record) { |r.name| == 11 && |r.created| == 8 && |r.written| == 4 }

  function Laid(r: Record): (b: seq<Byte>)
    requires IsRecord(r)
    ensures |b| == 32
  {
    r.name + [r.attributes] + r.created + Le16(r.high) + r.written + Le16(r.low) + Le32(r.size)
  }

  /** The record's fields stand where the disk format puts them. */
  lemma RecordRead(b: seq<Byte>, off: nat, r: Record)
    requires IsRecord(r) && off + 32 <= |b| && b[off..off + 32] == Laid(r)
    ensures var e := EntryAt(b, off);
      && e.attributes == r.attributes && e.cluster == r.high * 0x1_0000 + r.low && e.filesize == r.size
      && |e.name| == 11 && forall i | 0 <= i < 11 :: e.name[i] == r.name[i] as char
  {
    var w := b[off..off + 32];
    assert forall i | 0 <= i < 32 :: b[off + i] == w[i];
    assert b[off..off + 11] == w[..11] == r.name;
    assert b[off + 20..off + 22] == w[20..22] == Le16(r.high);
    assert b[off + 26..off + 28] == w[26..28] == Le16(r.low);
    assert b[off + 28..off + 32] == w[28..32] == Le32(r.size);
    assert b[off + 11] == w[11] == r.attributes;
    Le16At(b, off + 20, r.high);
    Le16At(b, off + 26, r.low);
    Le32At(b, off + 28, r.size);
  }

  /** A byte as an upper-case character. */
  function Capital(b: Byte): char { if 0x61 <= b <= 0x7A then (b - 0x20) as char else b as char }

  predicate Named(r: Record, want: string) {
    IsRecord(r) && |want| == 11 && forall i | 0 <= i < 11 :: Capital(r.name[i]) == want[i]
  }

  predicate LastRecord(r: Record) { IsRecord(r) && r.name[0] == 0 }

  /** A record in use that carries the name. */
  predicate Selected(r: Record, want: string) {
    Named(r, want) && r.name[0] != 0 && r.name[0] != 0xE5 && r.attributes % 0x10 != 0x0F
  }

  /** The records a directory in the clusters `cs` starts with. */
  predicate Starts(v: Volume, cs: seq<U32>, rs: seq<Record>) {
    && 32 * |rs| <= |Joined(v, cs)|
    && forall i | 0 <= i < |rs| :: IsRecord(rs[i]) && Joined(v, cs)[32 * i..32 * i + 32] == Laid(rs[i])
  }

  /** None of these records is the last or has the name. */
  predicate PassedOver(rs: seq<Record>, want: string) {
    forall i | 0 <= i < |rs| :: !LastRecord(rs[i]) && !Selected(rs[i], want)
  }

  lemma RecordDecides(b: seq<Byte>, off: nat, r: Record, want: string)
    requires IsRecord(r) && off + 32 <= |b| && b[off..off + 32] == Laid(r) && |want| == 11
    ensures IsEnd(EntryAt(b, off)) <==> LastRecord(r)
    ensures !LastRecord(r) ==> (Hit(EntryAt(b, off), want) <==> Selected(r, want))
  {
    RecordRead(b, off, r);
    hide EntryAt;
    var e := EntryAt(b, off);
    assert forall i | 0 <= i < 11 :: ToUpper(e.name[i]) == Capital(r.name[i]);
    if Named(r, want) {
      assert Upper(e.name) == want;
    } else {
      var i :| 0 <= i < 11 && Capital(r.name[i]) != want[i];
      assert Upper(e.name)[i] != want[i];
    }
  }

  // ----- what a search finds -----

  lemma {:induction false} EntriesJoin(a: seq<Byte>, b: seq<Byte>)
    requires |a| % ENTRY_SIZE == 0 && |b| % ENTRY_SIZE == 0
    ensures Entries(a + b) == Entries(a) + Entries(b)
    decreases |a|
  {
    hide EntryAt;
    if a == [] {
      assert a + b == b;
    } else {
      EntriesJoin(a[ENTRY_SIZE..], b);
      assert (a + b)[ENTRY_SIZE..] == a[ENTRY_SIZE..] + b;
      FirstEntry(a, b);
    }
  }

  lemma FirstEntry(a: seq<Byte>, b: seq<Byte>)
    requires |a| >= ENTRY_SIZE
    ensures EntryAt(a + b, 0) == EntryAt(a, 0)
  {
    assert (a + b)[0..11] == a[0..11];
  }

  /** A directory's records are those of its clusters' bytes joined. */
  lemma {:induction false} ChainEntriesJoined(v: Volume, cs: seq<U32>)
    ensures |Joined(v, cs)| % ENTRY_SIZE == 0 && ChainEntries(v, cs) == Entries(Joined(v, cs))
    decreases |cs|
  {
    hide ClusterBytes;
    if cs != [] {
      ChainEntriesJoined(v, cs[1..]);
      WholeRecords(v.sectorsPerCluster);
      EntriesJoin(ClusterBytes(v, cs[0]), Joined(v, cs[1..]));
    }
  }

  lemma {:induction false} ScanPasses(es: seq<DirEntry>, i: nat, want: string)
    requires i <= |es| && forall j | 0 <= j < i :: !IsEnd(es[j]) && !Hit(es[j], want)
    ensures Scan(es, want) == Scan(es[i..], want) && Settled(es, want) == Settled(es[i..], want)
  {
    hide Hit;
    hide IsEnd;
    if i == 0 {
      assert es[0..] == es;
    } else {
      ScanPasses(es[1..], i - 1, want);
      assert es[1..][i - 1..] == es[i..];
    }
  }

  /** The scan over a directory's clusters in terms of its bytes. */
  lemma ScanRecords(v: Volume, cs: seq<U32>, rs: seq<Record>, want: string)
    requires Starts(v, cs, rs) && PassedOver(rs, want) && |want| == 11
    ensures var es := ChainEntries(v, cs);
      && |rs| <= |es| == |Joined(v, cs)| / 32
      && Scan(es, want) == Scan(es[|rs|..], want) && Settled(es, want) == Settled(es[|rs|..], want)
  {
    hide Joined;
    hide ChainEntries;
    ChainEntriesJoined(v, cs);
    var (b, es) := (Joined(v, cs), ChainEntries(v, cs));
    hide Entries;
    forall j | 0 <= j < |rs| ensures !IsEnd(es[j]) && !Hit(es[j], want) {
      EntriesAt(b, j);
      RecordDecides(b, 32 * j, rs[j], want);
    }
    ScanPasses(es, |rs|, want);
  }

  predicate Agrees(e: DirEntry, r: Record) {
    e.attributes == r.attributes && e.cluster == r.high * 0x1_0000 + r.low && e.filesize == r.size
  }

  lemma EntryOfRecord(v: Volume, cs: seq<U32>, rs: seq<Record>, i: nat, want: string)
    requires Starts(v, cs, rs) && i < |rs| && |want| == 11
    ensures var es := ChainEntries(v, cs);
      && i < |es| && Agrees(es[i], rs[i])
      && (IsEnd(es[i]) <==> LastRecord(rs[i]))
      && (!LastRecord(rs[i]) ==> (Hit(es[i], want) <==> Selected(rs[i], want)))
  {
    hide Joined;
    hide ChainEntries;
    ChainEntriesJoined(v, cs);
    var b := Joined(v, cs);
    hide Entries;
    hide Hit;
    hide Selected;
    hide IsEnd;
    hide LastRecord;
    EntriesAt(b, i);
    RecordDecides(b, 32 * i, rs[i], want);
    RecordRead(b, 32 * i, rs[i]);
  }

  lemma ScanBegins(es: seq<DirEntry>, i: nat, want: string)
    requires i < |es| && (IsEnd(es[i]) || Hit(es[i], want))
    ensures Settled(es[i..], want) && Scan(es[i..], want) == if IsEnd(es[i]) then None else Some(es[i])
  {
    assert es[i..][0] == es[i];
    hide Hit;
    hide IsEnd;
  }

  lemma FrontStarts(v: Volume, cs: seq<U32>, rs: seq<Record>, i: nat)
    requires Starts(v, cs, rs) && i <= |rs|
    ensures Starts(v, cs, rs[..i])
  {
    hide Joined;
    hide Laid;
    hide IsRecord;
  }

  /** The first of a directory's records that is the last one or has the name decides the scan. */
  lemma FirstDecides(v: Volume, cs: seq<U32>, rs: seq<Record>, i: nat, want: string)
    requires Starts(v, cs, rs) && i < |rs| && PassedOver(rs[..i], want) && |want| == 11
    requires LastRecord(rs[i]) || Selected(rs[i], want)
    ensures var es := ChainEntries(v, cs);
      && i < |es| && Settled(es, want) && Agrees(es[i], rs[i])
      && Scan(es, want) == if LastRecord(rs[i]) then None else Some(es[i])
  {
    hide *;
    EntryOfRecord(v, cs, rs, i, want);
    FrontStarts(v, cs, rs, i);
    ScanRecords(v, cs, rs[..i], want);
    ScanBegins(ChainEntries(v, cs), i, want);
  }

  // ----- what a path leads to -----

  /** The search of a directory's linked clusters is decided by the record at `i`. */
  lemma SearchDecided(v: Volume, cs: seq<U32>, rs: seq<Record>, i: nat, name: string, want: string)
    requires FatName(name) == Some(want)
    requires Linked(v, cs) && Starts(v, cs, rs) && i < |rs| && PassedOver(rs[..i], want)
    requires LastRecord(rs[i]) || Selected(rs[i], want)
    ensures Searchable(v, cs[0], name)
    ensures var r := Child(v, cs[0], name);
      if LastRecord(rs[i]) then r == None else r.Some? && Agrees(r.value, rs[i])
  {
    hide FatName;
    hide ChainEntries;
    hide Starts;
    hide PassedOver;
    hide LastRecord;
    hide Selected;
    hide Agrees;
    hide Stops;
    hide Settled;
    hide Scan;
    hide Searchable;
    hide Child;
    hide Lookup;
    hide Live;
    FirstDecides(v, cs, rs, i, want);
    LinkedFollowed(v, cs);
    hide Linked;
    hide FirstClusters;
    assert EntriesWithin(v, cs[0], |cs|) == ChainEntries(v, cs);
    StopsExactly(v, cs[0], |cs|, want);
    ChildWithin(v, cs[0], name, |cs|);
    ScanIsLookup(ChainEntries(v, cs), want);
  }

  /** A search that comes past all records of a chain that ends finds nothing. */
  lemma SearchExhausted(v: Volume, cs: seq<U32>, rs: seq<Record>, name: string, want: string)
    requires FatName(name) == Some(want)
    requires Linked(v, cs) && Ended(v, cs) && Starts(v, cs, rs) && 32 * |rs| == |Joined(v, cs)| && PassedOver(rs, want)
    ensures Searchable(v, cs[0], name) && Child(v, cs[0], name) == None
  {
    hide FatName;
    hide ChainEntries;
    hide Starts;
    hide PassedOver;
    hide Stops;
    hide Searchable;
    hide Child;
    hide Lookup;
    hide Live;
    ScanRecords(v, cs, rs, want);
    LinkedFollowed(v, cs);
    LinkedIsChain(v, cs);
    hide Linked;
    hide Ended;
    hide FirstClusters;
    hide IsChain;
    hide Joined;
    assert EntriesWithin(v, cs[0], |cs|) == ChainEntries(v, cs);
    StopsExactly(v, cs[0], |cs|, want);
    ChildWithin(v, cs[0], name, |cs|);
    ScanIsLookup(ChainEntries(v, cs), want);
  }

  /** In the directory that starts at cluster `dir` the first record of that name is `r`, in linked
      clusters and before any last record. */
  ghost predicate Holds(v: Volume, dir: U32, name: string, r: Record) {
    FatName(name).Some? && exists cs, rs, i :: HoldsAt(v, dir, FatName(name).value, r, cs, rs, i)
  }

  predicate HoldsAt(v: Volume, dir: U32, want: string, r: Record, cs: seq<U32>, rs: seq<Record>, i: nat) {
    && Linked(v, cs) && cs[0] == dir && Starts(v, cs, rs) && i < |rs|
    && PassedOver(rs[..i], want) && Selected(r, want) && rs[i] == r
  }

  predicate Subdirectory(r: Record) { r.attributes / 0x10 % 2 == 1 }

  /** The path's components lead from record to record, through subdirectories, to the record `r`. */
  ghost predicate Leads(v: Volume, dir: U32, comps: seq<string>, r: Record)
    decreases |comps|
  {
    if |comps| <= 1 then |comps| == 1 && Holds(v, dir, comps[0], r)
    else exists d: Record ::
      Holds(v, dir, comps[0], d) && Subdirectory(d) && Leads(v, d.high * 0x1_0000 + d.low, comps[1..], r)
  }

  lemma HeldIsChild(v: Volume, dir: U32, name: string, r: Record)
    requires Holds(v, dir, name, r)
    ensures Searchable(v, dir, name)
    ensures Child(v, dir, name).Some? && Agrees(Child(v, dir, name).value, r)
    ensures IsDirectory(Child(v, dir, name).value) <==> Subdirectory(r)
  {
    var want := FatName(name).value;
    var cs, rs, i :| HoldsAt(v, dir, want, r, cs, rs, i);
    hide FatName;
    hide Linked;
    hide Starts;
    hide PassedOver;
    hide LastRecord;
    SelectedIsNotLast(r, want);
    hide Selected;
    hide Child;
    hide Searchable;
    SearchDecided(v, cs, rs, i, name, want);
  }

  lemma SelectedIsNotLast(r: Record, want: string)
    requires Selected(r, want)
    ensures !LastRecord(r)
  {
  }

  /** What such a path names is that record. */
  lemma {:induction false} PathNames(v: Volume, dir: U32, comps: seq<string>, r: Record)
    requires Leads(v, dir, comps, r)
    ensures Walkable(v, dir, comps)
    ensures Resolve(v, dir, comps).Some? && Agrees(Resolve(v, dir, comps).value, r)
    decreases |comps|
  {
    hide Holds;
    hide Child;
    hide Searchable;
    hide IsDirectory;
    hide Subdirectory;
    if |comps| == 1 {
      HeldIsChild(v, dir, comps[0], r);
      assert comps[1..] == [];
    } else {
      var d: Record :|
        Holds(v, dir, comps[0], d) && Subdirectory(d) && Leads(v, d.high * 0x1_0000 + d.low, comps[1..], r);
      HeldIsChild(v, dir, comps[0], d);
      PathNames(v, d.high * 0x1_0000 + d.low, comps[1..], r);
    }
  }

  /** `open` of such a path gives the cluster, kind and size in that record's bytes. */
  lemma OpensRecord(v: Volume, fp: string, r: Record)
    requires Leads(v, v.rootDirCluster, Components(fp), r)
    ensures Walkable(v, v.rootDirCluster, Components(fp))
    ensures Opened(v, fp) == Some(File(r.high * 0x1_0000 + r.low, r.attributes / 0x10 % 2 == 1, r.size))
  {
    hide Walkable;
    hide Resolve;
    hide Agrees;
    hide FileOf;
    LeadsSomewhere(v, v.rootDirCluster, Components(fp), r);
    PathNames(v, v.rootDirCluster, Components(fp), r);
    hide Leads;
    hide Components;
    FileOfRecord(Resolve(v, v.rootDirCluster, Components(fp)).value, r);
  }

  lemma LeadsSomewhere(v: Volume, dir: U32, comps: seq<string>, r: Record)
    requires Leads(v, dir, comps, r)
    ensures comps != []
  {
    hide Holds;
  }

  lemma FileOfRecord(e: DirEntry, r: Record)
    requires Agrees(e, r)
    ensures FileOf(e) == File(r.high * 0x1_0000 + r.low, r.attributes / 0x10 % 2 == 1, r.size)
  {
  }

  /** In the directory at `dir` a last record comes before any of that name, or its ended chain has none. */
  ghost predicate Lacks(v: Volume, dir: U32, name: string) {
    FatName(name).Some? ==> exists cs, rs :: LacksIn(v, dir, FatName(name).value, cs, rs)
  }

  predicate LacksIn(v: Volume, dir: U32, want: string, cs: seq<U32>, rs: seq<Record>) {
    && Linked(v, cs) && cs[0] == dir && Starts(v, cs, rs)
    && if rs != [] && LastRecord(rs[|rs| - 1]) then PassedOver(rs[..|rs| - 1], want)
       else PassedOver(rs, want) && Ended(v, cs) && 32 * |rs| == |Joined(v, cs)|
  }

  lemma LackedIsNoChild(v: Volume, dir: U32, name: string)
    requires Lacks(v, dir, name)
    ensures Searchable(v, dir, name) && Child(v, dir, name) == None
  {
    if FatName(name).Some? {
      var want := FatName(name).value;
      var cs, rs :| LacksIn(v, dir, want, cs, rs);
      hide FatName;
      hide Linked;
      hide Ended;
      hide Starts;
      hide PassedOver;
      hide LastRecord;
      hide Child;
      hide Searchable;
      hide Joined;
      if rs != [] && LastRecord(rs[|rs| - 1]) {
        SearchDecided(v, cs, rs, |rs| - 1, name, want);
      } else {
        SearchExhausted(v, cs, rs, name, want);
      }
    }
  }

  /** The path comes, after zero or more subdirectories, to a component that its directory lacks or, before
      its end, to a record that is no subdirectory. */
  ghost predicate Misses(v: Volume, dir: U32, comps: seq<string>)
    decreases |comps|
  {
    && comps != []
    && (Lacks(v, dir, comps[0])
        || (|comps| > 1 && exists d: Record ::
              Holds(v, dir, comps[0], d) && (Subdirectory(d) ==> Misses(v, d.high * 0x1_0000 + d.low, comps[1..]))))
  }

  lemma {:induction false} PathMisses(v: Volume, dir: U32, comps: seq<string>)
    requires Misses(v, dir, comps)
    ensures Walkable(v, dir, comps) && Resolve(v, dir, comps) == None
    decreases |comps|
  {
    hide Holds;
    hide Child;
    hide Lacks;
    hide Searchable;
    hide IsDirectory;
    hide Subdirectory;
    if Lacks(v, dir, comps[0]) {
      LackedIsNoChild(v, dir, comps[0]);
    } else {
      var d: Record :|
        Holds(v, dir, comps[0], d) && (Subdirectory(d) ==> Misses(v, d.high * 0x1_0000 + d.low, comps[1..]));
      HeldIsChild(v, dir, comps[0], d);
      if Subdirectory(d) {
        PathMisses(v, d.high * 0x1_0000 + d.low, comps[1..]);
      }
    }
  }

  /** Such a path opens nothing. */
  lemma OpensNothing(v: Volume, fp: string)
    requires Misses(v, v.rootDirCluster, Components(fp))
    ensures Walkable(v, v.rootDirCluster, Components(fp)) && Opened(v, fp) == None
  {
    PathMisses(v, v.rootDirCluster, Components(fp));
    hide Misses;
    hide Walkable;
    hide Resolve;
    hide Components;
  }

  // ----- there is no other way for a path to go -----

  function RecordAt(b: seq<Byte>, off: nat): (r: Record)
    requires off + 32 <= |b|
    ensures IsRecord(r)
  {
    Record(b[off..off + 11], b[off + 11], b[off + 12..off + 20], U16At(b, off + 20), b[off + 22..off + 26],
           U16At(b, off + 26), U32At(b, off + 28))
  }

  lemma WordsAgain(b: seq<Byte>, off: nat)
    ensures off + 2 <= |b| ==> Le16(U16At(b, off)) == b[off..off + 2]
    ensures off + 4 <= |b| ==> Le32(U32At(b, off)) == b[off..off + 4]
  {
    if off + 2 <= |b| {
      assert U16At(b, off) % 0x100 == b[off];
    }
    if off + 4 <= |b| {
      QuotientsOf(b[off], b[off + 1], b[off + 2], b[off + 3]);
    }
  }

  lemma QuotientsOf(w: Byte, x: Byte, y: Byte, z: Byte)
    ensures var u := w as int + 0x100 * x as int + 0x1_0000 * y as int + 0x100_0000 * z as int;
      u % 0x100 == w && u / 0x100 % 0x100 == x && u / 0x1_0000 % 0x100 == y && u / 0x100_0000 == z
  {
    var u := w as int + 0x100 * x as int + 0x1_0000 * y as int + 0x100_0000 * z as int;
    assert u / 0x100 == x as int + 0x100 * y as int + 0x1_0000 * z as int;
    assert u / 0x1_0000 == y as int + 0x100 * z as int;
  }

  lemma LaidAgain(b: seq<Byte>, off: nat)
    requires off + 32 <= |b|
    ensures Laid(RecordAt(b, off)) == b[off..off + 32]
  {
    WordsAgain(b, off + 20);
    WordsAgain(b, off + 26);
    WordsAgain(b, off + 28);
    hide U16At;
    hide U32At;
    hide Le16;
    hide Le32;
    var r := RecordAt(b, off);
    assert b[off..off + 12] == r.name + [r.attributes];
    assert b[off..off + 20] == b[off..off + 12] + r.created;
    assert b[off..off + 22] == b[off..off + 20] + Le16(r.high);
    assert b[off..off + 26] == b[off..off + 22] + r.written;
    assert b[off..off + 28] == b[off..off + 26] + Le16(r.low);
    assert b[off..off + 32] == b[off..off + 28] + Le32(r.size);
  }

  /** All records in a directory's linked clusters. */
  function AllRecords(v: Volume, cs: seq<U32>): (rs: seq<Record>)
    ensures |rs| == |Joined(v, cs)| / 32
  {
    seq(|Joined(v, cs)| / 32, i requires 0 <= i < |Joined(v, cs)| / 32 => RecordAt(Joined(v, cs), 32 * i))
  }

  lemma AllRecordsStart(v: Volume, cs: seq<U32>)
    ensures Starts(v, cs, AllRecords(v, cs))
  {
    hide Joined;
    hide RecordAt;
    hide Laid;
    forall i | 0 <= i < |AllRecords(v, cs)|
      ensures IsRecord(AllRecords(v, cs)[i]) && Joined(v, cs)[32 * i..32 * i + 32] == Laid(AllRecords(v, cs)[i])
    {
      LaidAgain(Joined(v, cs), 32 * i);
    }
  }

  lemma {:induction false} FollowedLinked(v: Volume, c: U32, k: nat)
    requires k > 0
    ensures var cs := FirstClusters(v, c, k); Linked(v, cs) && cs[0] == c
    decreases k
  {
    hide NextCluster;
    hide TableWord;
    NextClusterIs(v, c);
    var cs := FirstClusters(v, c, k);
    if LastInChain(v, c) {
      assert cs == [c];
    } else if k == 1 {
      assert cs == [c];
    } else {
      FollowedLinked(v, NextCluster(v, c), k - 1);
      assert cs[1..] == FirstClusters(v, NextCluster(v, c), k - 1);
    }
  }

  lemma {:induction false} SettledSomewhere(es: seq<DirEntry>, want: string) returns (i: nat)
    ensures i <= |es| && forall j | 0 <= j < i :: !IsEnd(es[j]) && !Hit(es[j], want)
    ensures if i < |es| then IsEnd(es[i]) || Hit(es[i], want) else !Settled(es, want)
  {
    hide Hit;
    hide IsEnd;
    i := 0;
    if es != [] && !IsEnd(es[0]) && !Hit(es[0], want) {
      i := SettledSomewhere(es[1..], want);
      i := i + 1;
    }
  }

  lemma PassedBefore(v: Volume, cs: seq<U32>, rs: seq<Record>, i: nat, want: string)
    requires Starts(v, cs, rs) && i <= |rs| && |want| == 11
    requires var es := ChainEntries(v, cs);
      i <= |es| && forall j | 0 <= j < i :: !IsEnd(es[j]) && !Hit(es[j], want)
    ensures PassedOver(rs[..i], want)
  {
    hide Starts;
    hide ChainEntries;
    hide IsEnd;
    hide Hit;
    hide LastRecord;
    hide Selected;
    forall j | 0 <= j < i ensures !LastRecord(rs[j]) && !Selected(rs[j], want) {
      EntryOfRecord(v, cs, rs, j, want);
      assert !IsEnd(ChainEntries(v, cs)[j]);
    }
  }

  /** Linked clusters that decide a search show which way it goes. */
  lemma ClustersDecide(v: Volume, cs: seq<U32>, name: string, want: string)
    requires FatName(name) == Some(want) && Linked(v, cs)
    requires Settled(ChainEntries(v, cs), want) || Ended(v, cs)
    ensures Lacks(v, cs[0], name) || exists r :: Holds(v, cs[0], name, r)
  {
    assert cs != [];
    hide FatName;
    hide Linked;
    hide Ended;
    hide Starts;
    hide ChainEntries;
    hide Settled;
    hide IsEnd;
    hide Hit;
    hide PassedOver;
    hide LastRecord;
    hide Selected;
    hide AllRecords;
    hide Joined;
    var (es, rs) := (ChainEntries(v, cs), AllRecords(v, cs));
    AllRecordsStart(v, cs);
    EntriesCounted(v, cs);
    var i := SettledSomewhere(es, want);
    PassedBefore(v, cs, rs, i, want);
    if i < |es| {
      EntryOfRecord(v, cs, rs, i, want);
      if LastRecord(rs[i]) {
        var front := rs[..i + 1];
        FrontStarts(v, cs, rs, i + 1);
        assert front[..|front| - 1] == rs[..i] && front[|front| - 1] == rs[i];
        assert LacksIn(v, cs[0], want, cs, front);
      } else {
        assert HoldsAt(v, cs[0], want, rs[i], cs, rs, i);
        assert Holds(v, cs[0], name, rs[i]);
      }
    } else {
      assert rs[..i] == rs;
      NoLastPassed(rs, want);
      assert LacksIn(v, cs[0], want, cs, rs);
    }
  }

  lemma NoLastPassed(rs: seq<Record>, want: string)
    requires PassedOver(rs, want)
    ensures rs != [] ==> !LastRecord(rs[|rs| - 1])
  {
    hide Selected;
  }

  lemma EntriesCounted(v: Volume, cs: seq<U32>)
    ensures |ChainEntries(v, cs)| == |AllRecords(v, cs)| && 32 * |AllRecords(v, cs)| == |Joined(v, cs)|
  {
    ChainEntriesJoined(v, cs);
    hide Joined;
    hide Entries;
  }

  lemma {:induction false} ChainLinked(v: Volume, c: U32, cs: seq<U32>)
    requires IsChain(v, c, cs)
    ensures Linked(v, cs) && Ended(v, cs)
    decreases |cs|
  {
    hide NextCluster;
    hide TableWord;
    NextClusterIs(v, c);
    if |cs| > 1 {
      ChainLinked(v, NextCluster(v, c), cs[1..]);
    }
  }

  /** Every search that ends goes one of the two ways. */
  lemma SearchGoes(v: Volume, dir: U32, name: string)
    requires Searchable(v, dir, name)
    ensures Lacks(v, dir, name) || exists r :: Holds(v, dir, name, r)
  {
    hide Stops;
    if FatName(name).Some? {
      var want := FatName(name).value;
      hide FatName;
      hide Lacks;
      hide Holds;
      var k: nat :| Stops(v, dir, k, want);
      StopsExactly(v, dir, k, want);
      hide IsChain;
      hide Settled;
      hide Linked;
      if Settled(EntriesWithin(v, dir, k), want) {
        SettledNeedsClusters(v, dir, k, want);
        FollowedLinked(v, dir, k);
        ClustersDecide(v, FirstClusters(v, dir, k), name, want);
      } else {
        var cs :| IsChain(v, dir, cs) && |cs| <= k;
        ChainLinked(v, dir, cs);
        ChainStarts(v, dir, cs);
        ClustersDecide(v, cs, name, want);
      }
    }
  }

  lemma SettledNeedsClusters(v: Volume, c: U32, k: nat, want: string)
    requires Settled(EntriesWithin(v, c, k), want)
    ensures k > 0
  {
    hide ClusterEntries;
  }

  lemma ChainStarts(v: Volume, c: U32, cs: seq<U32>)
    requires IsChain(v, c, cs)
    ensures cs != [] && cs[0] == c
  {
    hide NextCluster;
  }

  /** A path whose searches all end leads to a record or misses. */
  lemma {:induction false} PathGoes(v: Volume, dir: U32, comps: seq<string>)
    requires Walkable(v, dir, comps) && comps != []
    ensures Misses(v, dir, comps) || exists r :: Leads(v, dir, comps, r)
    decreases |comps|
  {
    hide Holds;
    hide Child;
    hide Lacks;
    hide Searchable;
    hide IsDirectory;
    hide Subdirectory;
    SearchGoes(v, dir, comps[0]);
    if !Lacks(v, dir, comps[0]) {
      var d :| Holds(v, dir, comps[0], d);
      HeldIsChild(v, dir, comps[0], d);
      if |comps| == 1 {
        assert Leads(v, dir, comps, d);
      } else if Subdirectory(d) {
        var c: U32 := d.high * 0x1_0000 + d.low;
        PathGoes(v, c, comps[1..]);
        if !Misses(v, c, comps[1..]) {
          var r :| Leads(v, c, comps[1..], r);
          assert Leads(v, dir, comps, r);
        }
      }
    }
  }

  /** The searches of a path all end exactly if it leads to a record or misses. */
  lemma WalkableExactly(v: Volume, dir: U32, comps: seq<string>)
    requires comps != []
    ensures Walkable(v, dir, comps) <==> Misses(v, dir, comps) || exists r :: Leads(v, dir, comps, r)
  {
    hide Walkable;
    hide Leads;
    hide Misses;
    if Walkable(v, dir, comps) {
      PathGoes(v, dir, comps);
    }
    if Misses(v, dir, comps) {
      PathMisses(v, dir, comps);
    }
    if r :| Leads(v, dir, comps, r) {
      PathNames(v, dir, comps, r);
    }
  }

  /** What `open` gives for a path that has components, in terms of the disk: a file exactly where the path
      leads to a record, and then what that record's bytes say. */
  lemma OpensExactly(v: Volume, fp: string, f: File)
    requires Walkable(v, v.rootDirCluster, Components(fp)) && Components(fp) != []
    ensures Opened(v, fp) == Some(f)
            <==> exists r :: Leads(v, v.rootDirCluster, Components(fp), r)
                   && f == File(r.high * 0x1_0000 + r.low, r.attributes / 0x10 % 2 == 1, r.size)
  {
    hide Walkable;
    hide Leads;
    hide Misses;
    hide Opened;
    hide Components;
    PathGoes(v, v.rootDirCluster, Components(fp));
    if Misses(v, v.rootDirCluster, Components(fp)) {
      OpensNothing(v, fp);
    }
    forall r | Leads(v, v.rootDirCluster, Components(fp), r)
      ensures Opened(v, fp) == Some(File(r.high * 0x1_0000 + r.low, r.attributes / 0x10 % 2 == 1, r.size))
    {
      OpensRecord(v, fp, r);
    }
  }
}
