/** Directories of a FAT32 volume: the records in their cluster chains, what they list, and what a
    path names. */
module FatDirs {
  import opened Bytes
  import opened Text
  import opened FatNames
  import opened Fat32

  const ENTRY_SIZE: nat := 32

  /** The parts of a directory record the driver looks at. */
  datatype DirEntry = DirEntry(name: string, attributes: Byte, cluster: U32, filesize: U32)

  predicate IsEntry(e: DirEntry) { |e.name| == 11 }

  function Chars(b: seq<Byte>): (s: string)
    ensures |s| == |b| && forall i | 0 <= i < |b| :: s[i] == b[i] as char
  {
    seq(|b|, i requires 0 <= i < |b| => b[i] as char)
  }

  function EntryAt(b: seq<Byte>, off: nat): (e: DirEntry)
    requires off + ENTRY_SIZE <= |b|
    ensures IsEntry(e)
  {
    DirEntry(Chars(b[off..off + 11]), b[off + 11], U16At(b, off + 20) * 0x1_0000 + U16At(b, off + 26), U32At(b, off + 28))
  }

  function Entries(b: seq<Byte>): (es: seq<DirEntry>)
    requires |b| % ENTRY_SIZE == 0
    ensures |es| == |b| / ENTRY_SIZE && forall i | 0 <= i < |es| :: IsEntry(es[i])
    decreases |b|
  {
    if b == [] then [] else [EntryAt(b, 0)] + Entries(b[ENTRY_SIZE..])
  }

  lemma {:induction false} EntriesAt(b: seq<Byte>, i: nat)
    requires |b| % ENTRY_SIZE == 0 && i < |b| / ENTRY_SIZE
    ensures Entries(b)[i] == EntryAt(b, ENTRY_SIZE * i)
  {
    if i > 0 {
      var rest := b[ENTRY_SIZE..];
      EntriesAt(rest, i - 1);
      EntryBehind(b, ENTRY_SIZE * (i - 1));
    }
  }

  lemma EntryBehind(b: seq<Byte>, off: nat)
    requires off + 2 * ENTRY_SIZE <= |b|
    ensures EntryAt(b[ENTRY_SIZE..], off) == EntryAt(b, off + ENTRY_SIZE)
  {
    var c := b[ENTRY_SIZE..];
    assert c[off..off + 11] == b[off + ENTRY_SIZE..off + ENTRY_SIZE + 11];
    assert forall j | off <= j < off + ENTRY_SIZE :: c[j] == b[j + ENTRY_SIZE];
  }

  // ----- one directory -----

  predicate IsEnd(e: DirEntry) { e.name != "" && e.name[0] == NUL }

  predicate IsDeleted(e: DirEntry) { e.name != "" && e.name[0] == 0xE5 as char }

  predicate IsLongName(e: DirEntry) { e.attributes % 0x10 == 0x0F }

  predicate IsDirectory(e: DirEntry) { e.attributes / 0x10 % 2 == 1 }

  /** The entries a directory lists: those before the first one without a name, except the deleted ones
      and the pieces of long names. */
  function Live(es: seq<DirEntry>): seq<DirEntry> {
    if es == [] || IsEnd(es[0]) then []
    else if IsDeleted(es[0]) || IsLongName(es[0]) then Live(es[1..])
    else [es[0]] + Live(es[1..])
  }

  predicate Matches(e: DirEntry, want: string) { Upper(e.name) == want }

  /** The first listed entry with a given padded upper-case name. */
  function Lookup(es: seq<DirEntry>, want: string): (r: Option<DirEntry>)
    ensures r.Some? ==> r.value in es && Matches(r.value, want)
    ensures r.None? <==> forall i | 0 <= i < |es| :: !Matches(es[i], want)
  {
    if es == [] then None else if Matches(es[0], want) then Some(es[0]) else Lookup(es[1..], want)
  }

  predicate Hit(e: DirEntry, want: string) { !IsDeleted(e) && !IsLongName(e) && Matches(e, want) }

  /** The driver's scan over raw records. */
  function Scan(es: seq<DirEntry>, want: string): Option<DirEntry> {
    if es == [] || IsEnd(es[0]) then None
    else if Hit(es[0], want) then Some(es[0])
    else Scan(es[1..], want)
  }

  /** The scan comes to a record that decides it: the end mark, or one that matches. */
  predicate Settled(es: seq<DirEntry>, want: string) {
    es != [] && (IsEnd(es[0]) || Hit(es[0], want) || Settled(es[1..], want))
  }

  lemma {:induction false} ScanOn(es: seq<DirEntry>, more: seq<DirEntry>, want: string)
    ensures Scan(es + more, want) == Scan(if Settled(es, want) then es else more, want)
    ensures Settled(es + more, want) <==> Settled(es, want) || Settled(more, want)
  {
    hide Hit;
    if es == [] {
      assert es + more == more;
    } else {
      ScanOn(es[1..], more, want);
      assert (es + more)[1..] == es[1..] + more;
    }
  }

  lemma {:induction false} ScanIsLookup(es: seq<DirEntry>, want: string)
    ensures Scan(es, want) == Lookup(Live(es), want)
  {
    if es != [] && !IsEnd(es[0]) {
      ScanIsLookup(es[1..], want);
      if !IsDeleted(es[0]) && !IsLongName(es[0]) {
        assert Live(es)[1..] == Live(es[1..]);
      }
    }
  }

  // ----- directories on a volume -----

  lemma WholeRecords(n: nat)
    ensures SECTOR * n % ENTRY_SIZE == 0
  {
    assert SECTOR * n == ENTRY_SIZE * (16 * n);
  }

  /** The records in a cluster. */
  function ClusterEntries(v: Volume, cluster: U32): seq<DirEntry> {
    WholeRecords(v.sectorsPerCluster);
    Entries(ClusterBytes(v, cluster))
  }

  function ChainEntries(v: Volume, cs: seq<U32>): seq<DirEntry> {
    if cs == [] then [] else ClusterEntries(v, cs[0]) + ChainEntries(v, cs[1..])
  }

  ghost predicate Finite(v: Volume, c: U32) { exists cs :: IsChain(v, c, cs) }

  /** The chain of a directory whose chain comes to an end. */
  ghost function Chain(v: Volume, c: U32): (cs: seq<U32>)
    requires Finite(v, c)
    ensures IsChain(v, c, cs)
  {
    var cs :| IsChain(v, c, cs);
    cs
  }

  /** What the directory at `c` lists. */
  ghost function Listing(v: Volume, c: U32): seq<DirEntry>
    requires Finite(v, c)
  {
    Live(ChainEntries(v, Chain(v, c)))
  }

  // ----- the search through a directory's clusters, whether or not the chain ends -----

  function EntriesWithin(v: Volume, c: U32, k: nat): seq<DirEntry> {
    ChainEntries(v, FirstClusters(v, c, k))
  }

  /** The search is over within `k` clusters: a record decides it or the chain ends. */
  predicate Stops(v: Volume, c: U32, k: nat, want: string)
    decreases k
  {
    k > 0 && (LastInChain(v, c) || Settled(ClusterEntries(v, c), want) || Stops(v, NextCluster(v, c), k - 1, want))
  }

  /** The search for that name comes to an end. Without a padded form there is nothing to search for. */
  ghost predicate Searchable(v: Volume, c: U32, name: string) {
    FatName(name).Some? ==> exists k :: Stops(v, c, k, FatName(name).value)
  }

  /** The entry of that name in the directory at `c`: the first listed in as many clusters as the search
      needs. */
  ghost function Child(v: Volume, c: U32, name: string): Option<DirEntry>
    requires Searchable(v, c, name)
  {
    match FatName(name)
    case None => None
    case Some(want) =>
      var k: nat :| Stops(v, c, k, want);
      Lookup(Live(EntriesWithin(v, c, k)), want)
  }

  lemma EntriesStep(v: Volume, c: U32, k: nat)
    requires k > 0
    ensures EntriesWithin(v, c, k)
         == ClusterEntries(v, c) + if LastInChain(v, c) then [] else EntriesWithin(v, NextCluster(v, c), k - 1)
  {
    hide NextCluster;
    hide ClusterEntries;
    var cs := FirstClusters(v, c, k);
    if LastInChain(v, c) {
      assert cs == [c] && ChainEntries(v, [c][1..]) == [];
    } else {
      assert cs[0] == c && cs[1..] == FirstClusters(v, NextCluster(v, c), k - 1);
    }
  }

  lemma StopsStep(v: Volume, c: U32, k: nat, want: string)
    requires Stops(v, c, k, want)
    ensures k > 0
    ensures LastInChain(v, c) || Settled(ClusterEntries(v, c), want) || Stops(v, NextCluster(v, c), k - 1, want)
  {
    hide NextCluster;
    hide ClusterEntries;
    hide Settled;
  }

  lemma SearchStep(v: Volume, c: U32, k: nat, want: string)
    requires k > 0 && Stops(v, c, k, want)
    ensures var here := ClusterEntries(v, c);
      Scan(EntriesWithin(v, c, k), want)
      == if LastInChain(v, c) || Settled(here, want) then Scan(here, want)
         else Scan(EntriesWithin(v, NextCluster(v, c), k - 1), want)
  {
    EntriesStep(v, c, k);
    hide NextCluster;
    hide EntriesWithin;
    hide ClusterEntries;
    hide Scan;
    hide Settled;
    hide Stops;
    var here := ClusterEntries(v, c);
    if LastInChain(v, c) {
      assert here + [] == here;
    } else {
      ScanOn(here, EntriesWithin(v, NextCluster(v, c), k - 1), want);
    }
  }

  /** It does not matter how far one looks once the search is over. */
  lemma {:induction false} SearchIndependent(v: Volume, c: U32, j: nat, k: nat, want: string)
    requires Stops(v, c, j, want) && Stops(v, c, k, want)
    ensures Scan(EntriesWithin(v, c, j), want) == Scan(EntriesWithin(v, c, k), want)
    decreases j
  {
    StopsStep(v, c, j, want);
    StopsStep(v, c, k, want);
    SearchStep(v, c, j, want);
    SearchStep(v, c, k, want);
    hide Stops;
    hide NextCluster;
    hide EntriesWithin;
    hide ClusterEntries;
    hide Scan;
    hide Settled;
    if !LastInChain(v, c) && !Settled(ClusterEntries(v, c), want) {
      SearchIndependent(v, NextCluster(v, c), j - 1, k - 1, want);
    }
  }

  lemma ChildWithin(v: Volume, c: U32, name: string, k: nat)
    requires FatName(name).Some? && Stops(v, c, k, FatName(name).value)
    ensures Searchable(v, c, name)
    ensures Child(v, c, name) == Lookup(Live(EntriesWithin(v, c, k)), FatName(name).value)
  {
    hide Stops;
    hide FatName;
    hide Lookup;
    hide Live;
    hide Scan;
    hide EntriesWithin;
    var want := FatName(name).value;
    ScanIsLookup(EntriesWithin(v, c, k), want);
    forall j: nat | Stops(v, c, j, want)
      ensures Lookup(Live(EntriesWithin(v, c, j)), want) == Lookup(Live(EntriesWithin(v, c, k)), want)
    {
      ScanIsLookup(EntriesWithin(v, c, j), want);
      SearchIndependent(v, c, j, k, want);
    }
  }

  lemma {:induction false} WholeChain(v: Volume, c: U32, cs: seq<U32>, want: string)
    requires IsChain(v, c, cs)
    ensures FirstClusters(v, c, |cs|) == cs && Stops(v, c, |cs|, want)
    decreases |cs|
  {
    hide NextCluster;
    hide ClusterEntries;
    hide Settled;
    if |cs| == 1 {
      assert cs == [c];
    } else {
      WholeChain(v, NextCluster(v, c), cs[1..], want);
      assert cs == [c] + cs[1..];
    }
  }

  /** Where the chain ends, the search always does, and finds the first entry the directory lists. */
  lemma ChildIsListed(v: Volume, c: U32, name: string)
    requires Finite(v, c)
    ensures Searchable(v, c, name)
    ensures Child(v, c, name) == match FatName(name) case None => None case Some(want) => Lookup(Listing(v, c), want)
  {
    hide FatName;
    hide Lookup;
    hide Live;
    if FatName(name).Some? {
      var cs := Chain(v, c);
      WholeChain(v, c, cs, FatName(name).value);
      ChildWithin(v, c, name, |cs|);
    }
  }

  lemma {:induction false} StopsExactly(v: Volume, c: U32, k: nat, want: string)
    ensures Stops(v, c, k, want)
            <==> Settled(EntriesWithin(v, c, k), want) || exists cs :: IsChain(v, c, cs) && |cs| <= k
    decreases k
  {
    hide NextCluster;
    hide ClusterEntries;
    if k == 0 {
      assert EntriesWithin(v, c, 0) == [];
    } else {
      EntriesStep(v, c, k);
      hide EntriesWithin;
      hide Settled;
      var here, next := ClusterEntries(v, c), NextCluster(v, c);
      if LastInChain(v, c) {
        assert IsChain(v, c, [c]);
      } else {
        StopsExactly(v, next, k - 1, want);
        ScanOn(here, EntriesWithin(v, next, k - 1), want);
        ChainStep(v, c, k);
      }
    }
  }

  lemma ChainStep(v: Volume, c: U32, k: nat)
    requires k > 0 && !LastInChain(v, c)
    ensures (exists cs :: IsChain(v, c, cs) && |cs| <= k) <==> exists ds :: IsChain(v, NextCluster(v, c), ds) && |ds| <= k - 1
  {
    hide NextCluster;
    if cs :| IsChain(v, c, cs) && |cs| <= k {
      assert IsChain(v, NextCluster(v, c), cs[1..]);
    }
    if ds :| IsChain(v, NextCluster(v, c), ds) && |ds| <= k - 1 {
      assert ([c] + ds)[1..] == ds;
      assert IsChain(v, c, [c] + ds);
    }
  }

  /** The search for a name ends if and only if the directory's chain does or an end mark or a matching
      record stands somewhere along it. */
  lemma SearchableExactly(v: Volume, c: U32, name: string)
    requires FatName(name).Some?
    ensures Searchable(v, c, name) <==> Finite(v, c) || exists k :: Settled(EntriesWithin(v, c, k), FatName(name).value)
  {
    var want := FatName(name).value;
    hide FatName;
    hide Settled;
    hide EntriesWithin;
    hide Stops;
    hide IsChain;
    forall k: nat ensures Stops(v, c, k, want)
      <==> Settled(EntriesWithin(v, c, k), want) || exists cs :: IsChain(v, c, cs) && |cs| <= k
    {
      StopsExactly(v, c, k, want);
    }
    if cs :| IsChain(v, c, cs) {
      assert Stops(v, c, |cs|, want);
    }
  }

  /** A table that leads from cluster 2 back to it, and records that are neither free nor the last. */
  function EndlessVolume(): Volume {
    Volume(0, 1, 1, 1, 2, sector => if sector == 0 then seq(512, i => if i == 8 then 2 else 0) else seq(512, _ => 1))
  }

  lemma {:induction false} OnesNeverSettle(b: seq<Byte>, want: string)
    requires |b| % ENTRY_SIZE == 0 && (forall i | 0 <= i < |b| :: b[i] == 1) && want != "" && want[0] == 'A'
    ensures !Settled(Entries(b), want)
    decreases |b|
  {
    if b != [] {
      var e := EntryAt(b, 0);
      assert e.name[0] == b[0..11][0] as char;
      OnesNeverSettle(b[ENTRY_SIZE..], want);
      assert Entries(b)[0] == e && Entries(b)[1..] == Entries(b[ENTRY_SIZE..]);
      assert Upper(e.name)[0] != 'A';
    }
  }

  lemma EndlessChain()
    ensures NextCluster(EndlessVolume(), 2) == 2
  {
    var table := EndlessVolume().disk(0);
    assert table[8] == 2 && table[9] == table[10] == table[11] == 0;
  }

  lemma EndlessRecords(want: string)
    requires want != "" && want[0] == 'A'
    ensures !Settled(ClusterEntries(EndlessVolume(), 2), want)
  {
    var v := EndlessVolume();
    var b := ClusterBytes(v, 2);
    assert ClusterToSector(v, 2) == 1;
    assert SectorsFrom(v, 1, 0) == [];
    assert b == SectorsFrom(v, 1, 0) + v.disk(1) == v.disk(1);
    OnesNeverSettle(b, want);
  }

  /** A cluster that leads back to itself and does not decide the search. */
  lemma {:induction false} NeverStops(v: Volume, c: U32, k: nat, want: string)
    requires NextCluster(v, c) == c && c < END_OF_CHAIN && !Settled(ClusterEntries(v, c), want)
    ensures !Stops(v, c, k, want)
  {
    hide NextCluster;
    hide ClusterEntries;
    hide Settled;
    if k > 0 {
      NeverStops(v, c, k - 1, want);
    }
  }

  /** Searching such a volume for the name A never ends. */
  lemma EndlessSearch()
    ensures !Searchable(EndlessVolume(), 2, "A")
  {
    assert Span("A", NAME_STOPS) == 1;
    var v, want := EndlessVolume(), FatName("A").value;
    assert want[0] == 'A';
    EndlessChain();
    EndlessRecords(want);
    hide EndlessVolume;
    hide NextCluster;
    hide ClusterEntries;
    hide Settled;
    hide Stops;
    forall k: nat ensures !Stops(v, 2, k, want) {
      NeverStops(v, 2, k, want);
    }
  }

  /** In every directory it goes into the search for these components comes to an end. */
  ghost predicate Walkable(v: Volume, dir: U32, comps: seq<string>)
    decreases |comps|
  {
    comps == []
    || (Searchable(v, dir, comps[0])
        && (Child(v, dir, comps[0]).Some? && IsDirectory(Child(v, dir, comps[0]).value)
            ==> Walkable(v, Child(v, dir, comps[0]).value.cluster, comps[1..])))
  }

  /** What a list of components names, starting in a directory: every component but the last has to be
      a directory. */
  ghost function Resolve(v: Volume, dir: U32, comps: seq<string>): Option<DirEntry>
    requires Walkable(v, dir, comps)
    decreases |comps|
  {
    if comps == [] then None
    else
      var found := Child(v, dir, comps[0]);
      if found.None? || |comps| == 1 then found
      else if !IsDirectory(found.value) then None
      else Resolve(v, found.value.cluster, comps[1..])
  }

  /** A component of more than 63 characters names nothing, so that the driver's limit takes nothing away. */
  lemma LongComponentNamesNothing(v: Volume, dir: U32, name: string)
    requires |name| > 12 && forall i | 0 <= i < |name| :: !IsSlash(name[i])
    ensures Searchable(v, dir, name) && Child(v, dir, name).None?
  {
    var n := Span(name, NAME_STOPS);
    if n < |name| && name[n] == '.' {
      var ext := name[n + 1..];
      SpanIs(ext, SLASHES, |ext|);
    }
  }

  /** A path leads into a directory and on from there exactly as its parts do. */
  lemma {:induction false} ResolveJoin(v: Volume, dir: U32, front: seq<string>, back: seq<string>)
    requires front != [] && back != [] && Walkable(v, dir, front + back)
    ensures Walkable(v, dir, front)
    ensures var d := Resolve(v, dir, front);
      if d.Some? && IsDirectory(d.value) then
        Walkable(v, d.value.cluster, back) && Resolve(v, dir, front + back) == Resolve(v, d.value.cluster, back)
      else Resolve(v, dir, front + back) == None
    decreases |front|
  {
    var all := front + back;
    var found := Child(v, dir, front[0]);
    assert all[0] == front[0] && all[1..] == front[1..] + back;
    hide Child;
    if |front| == 1 {
      assert front[1..] == [] && all[1..] == back;
    } else if found.Some? && IsDirectory(found.value) {
      ResolveJoin(v, found.value.cluster, front[1..], back);
    }
  }

  /** A listed file is found under its dotted name in whatever case, and what is found under a dotted
      name is the first listed entry with that name. */
  lemma FoundUnderDottedName(v: Volume, c: U32, b: string, x: string)
    requires Finite(v, c) && IsBase(b) && IsExtension(x)
    ensures Searchable(v, c, Dotted(b, x))
    ensures Child(v, c, Dotted(b, x)) == Lookup(Listing(v, c), Upper(Pad(b, 8) + Pad(x, 3)))
  {
    ChildIsListed(v, c, Dotted(b, x));
    FatNameOfDotted(b, x);
  }
}
