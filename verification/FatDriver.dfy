/** The FAT32 driver as it runs: buffers filled sector by sector, names built in place, cursors over
    directory clusters and paths. */
module FatDriver {
  import opened Bytes
  import opened Text
  import opened FatNames
  import opened Fat32
  import opened FatDirs

  // ----- sectors and clusters -----

  method ReadSector(v: Volume, sector: U32, buffer: array<Byte>, at: nat)
    requires at + SECTOR <= buffer.Length
    modifies buffer
    ensures buffer[at..at + SECTOR] == v.disk(sector)
    ensures buffer[..at] == old(buffer[..at]) && buffer[at + SECTOR..] == old(buffer[at + SECTOR..])
  {
    var data := v.disk(sector);
    forall i | 0 <= i < SECTOR {
      buffer[at + i] := data[i];
    }
  }

  lemma ClusterSectors(v: Volume, cluster: U32, b: seq<Byte>)
    requires b == ClusterBytes(v, cluster)
    ensures forall j | 0 <= j < v.sectorsPerCluster ::
      SectorOf(b, j)
      == v.disk((v.reservedSectors + v.fatsOnMedia * v.sectorsPerFat32 + (cluster - 2) * v.sectorsPerCluster + j) % 0x1_0000_0000)
  {
    hide ClusterBytes;
    hide SectorOf;
    forall j | 0 <= j < v.sectorsPerCluster
      ensures SectorOf(b, j)
        == v.disk((v.reservedSectors + v.fatsOnMedia * v.sectorsPerFat32 + (cluster - 2) * v.sectorsPerCluster + j) % 0x1_0000_0000)
    {
      ClusterSector(v, cluster, j);
    }
  }

  method ReadCluster(v: Volume, cluster: U32, buffer: array<Byte>)
    requires buffer.Length == BytesPerCluster(v)
    modifies buffer
    ensures buffer[..] == ClusterBytes(v, cluster)
    ensures forall j | 0 <= j < v.sectorsPerCluster ::
      SectorOf(buffer[..], j)
      == v.disk((v.reservedSectors + v.fatsOnMedia * v.sectorsPerFat32 + (cluster - 2) * v.sectorsPerCluster + j) % 0x1_0000_0000)
  {
    var firstSector := ClusterToSector(v, cluster);
    for s := 0 to v.sectorsPerCluster
      invariant buffer[..SECTOR * s] == SectorsFrom(v, firstSector, s)
    {
      ReadSector(v, Low32(firstSector + s), buffer, SECTOR * s);
      assert buffer[..SECTOR * (s + 1)] == buffer[..SECTOR * s] + buffer[SECTOR * s..SECTOR * s + SECTOR];
    }
    assert buffer[..SECTOR * v.sectorsPerCluster] == buffer[..];
    ClusterSectors(v, cluster, buffer[..]);
  }

  // ----- reading a file -----

  datatype File = File(cluster: U32, isDirectory: bool, size: U32)

  /** `read`: false for a directory; otherwise the buffer starts with what is to be had of the file's
      first `len` bytes and is unchanged behind that. */
  method Read(v: Volume, f: File, obuf: array<Byte>, len: U32) returns (ok: bool)
    requires len <= obuf.Length
    modifies obuf
    ensures ok == !f.isDirectory
    ensures !ok ==> obuf[..] == old(obuf[..])
    ensures ok ==>
      var data := ReadFrom(v, f.cluster, Min(len, f.size));
      obuf[..|data|] == data && obuf[|data|..] == old(obuf[|data|..])
  {
    if f.isDirectory {
      return false;
    }
    ok := true;
    FollowChain(v, f.cluster, if len < f.size then len else f.size, obuf);
  }

  /** The loop of `read`. */
  method FollowChain(v: Volume, cluster: U32, want: nat, obuf: array<Byte>)
    requires want <= obuf.Length
    modifies obuf
    ensures var data := ReadFrom(v, cluster, want);
      obuf[..|data|] == data && obuf[|data|..] == old(obuf[|data|..])
  {
    hide NextCluster;
    hide ClusterBytes;
    hide ReadFrom;
    var bytesPerCluster := BytesPerCluster(v);
    var clusterBuf := new Byte[bytesPerCluster];
    var bytesRemaining, bytesWritten := want, 0;
    var currentCluster: U32 := cluster;
    ghost var got: seq<Byte> := [];
    ghost var data := ReadFrom(v, cluster, want);
    ReadNothing(v, cluster);
    assert got + data == data;
    while bytesRemaining > 0
      invariant bytesWritten + bytesRemaining == want && clusterBuf.Length == bytesPerCluster && fresh(clusterBuf)
      invariant Placed(obuf[..], old(obuf[..]), got) && |got| == bytesWritten
      invariant got + ReadFrom(v, currentCluster, bytesRemaining) == data
      decreases bytesRemaining
    {
      ReadCluster(v, currentCluster, clusterBuf);
      var chunk := if bytesRemaining < bytesPerCluster then bytesRemaining else bytesPerCluster;
      ReadStep(v, currentCluster, bytesRemaining, got, clusterBuf[..chunk]);
      Copy(clusterBuf, chunk, obuf, bytesWritten, got, old(obuf[..]));
      got := got + clusterBuf[..chunk];
      bytesWritten := bytesWritten + chunk;
      bytesRemaining := bytesRemaining - chunk;
      if bytesRemaining == 0 {
        break;
      }
      var next := NextCluster(v, currentCluster);
      if next >= END_OF_CHAIN {
        break;
      }
      currentCluster := next;
      ReadNothing(v, next);
    }
    assert got == data;
  }

  /** `got` at the front of a buffer that is otherwise as it was. */
  ghost predicate Placed(now: seq<Byte>, was: seq<Byte>, got: seq<Byte>) {
    |now| == |was| && |got| <= |now| && now[..|got|] == got && now[|got|..] == was[|got|..]
  }

  lemma ReadNothing(v: Volume, c: U32)
    ensures ReadFrom(v, c, 0) == []
  {
  }

  lemma ReadStep(v: Volume, c: U32, n: nat, got: seq<Byte>, chunk: seq<Byte>)
    requires n > 0 && chunk == ClusterBytes(v, c)[..Min(n, BytesPerCluster(v))]
    ensures got + ReadFrom(v, c, n)
         == if |chunk| == n || LastInChain(v, c) then got + chunk
            else got + chunk + ReadFrom(v, NextCluster(v, c), n - |chunk|)
  {
    hide NextCluster;
    var here := ClusterBytes(v, c);
    hide ClusterBytes;
    if n > |here| && !LastInChain(v, c) {
      assert chunk == here;
      var more := ReadFrom(v, NextCluster(v, c), n - |here|);
      assert got + (here + more) == got + here + more;
    }
  }

  method Copy(src: array<Byte>, n: nat, dest: array<Byte>, at: nat, ghost got: seq<Byte>, ghost was: seq<Byte>)
    requires n <= src.Length && at + n <= dest.Length && src != dest
    requires Placed(dest[..], was, got) && |got| == at
    modifies dest
    ensures Placed(dest[..], was, got + old(src[..n]))
  {
    ghost var chunk := src[..n];
    for i := 0 to n
      invariant src[..n] == chunk && Placed(dest[..], was, got + chunk[..i])
    {
      ghost var before := dest[..];
      assert before[at + i..][1..] == before[at + i + 1..] && was[at + i..][1..] == was[at + i + 1..];
      dest[at + i] := src[i];
      assert chunk[..i + 1] == chunk[..i] + [src[i]];
      assert dest[..at + i + 1] == before[..at + i] + [src[i]];
      assert dest[at + i + 1..] == before[at + i + 1..];
    }
    assert chunk[..n] == chunk;
  }

  // ----- names -----

  ghost predicate HasNul(s: string) { NUL in s }

  /** A string with its first `i` characters in upper case. */
  function UpperTo(s: string, i: nat): (t: string)
    requires i <= |s|
    ensures |t| == |s| && forall j | 0 <= j < |s| :: t[j] == if j < i then ToUpper(s[j]) else s[j]
  {
    Upper(s[..i]) + s[i..]
  }

  lemma UpperMore(s: string, i: nat)
    requires i < |s|
    ensures UpperTo(s, i + 1) == UpperTo(s, i)[i := ToUpper(s[i])]
  {
    hide ToUpper;
    hide UpperTo;
  }

  lemma UpperNone(s: string)
    ensures UpperTo(s, 0) == s
  {
    hide UpperTo;
  }

  /** `strToUpper`, in place, up to the first NUL. */
  method StrToUpper(s: array<char>)
    requires HasNul(s[..])
    modifies s
    ensures var n := Find(old(s[..]), NUL);
      s[..] == Upper(old(s[..n])) + old(s[n..])
  {
    hide Find;
    hide ToUpper;
    hide UpperTo;
    ghost var was := s[..];
    ghost var n := Find(was, NUL);
    assert n < |was|;
    UpperNone(was);
    var i := 0;
    while s[i] != NUL
      invariant i <= n < s.Length && s[..] == UpperTo(was, i)
      decreases n - i
    {
      assert s[i] == UpperTo(was, i)[i];
      UpperMore(was, i);
      s[i] := ToUpper(s[i]);
      i := i + 1;
    }
    assert s[i] == UpperTo(was, i)[i];
    BeforeNul(was, i);
    UpperToIs(was, n);
  }

  lemma UpperToIs(s: string, i: nat)
    requires i <= |s|
    ensures UpperTo(s, i) == Upper(s[..i]) + s[i..]
  {
  }

  /** `streqi`: whether two C strings are the same but for case. */
  method StrEqI(a: array<char>, b: array<char>) returns (same: bool)
    requires HasNul(a[..]) && HasNul(b[..])
    ensures same == (Upper(a[..Find(a[..], NUL)]) == Upper(b[..Find(b[..], NUL)]))
  {
    ghost var (m, n) := (Find(a[..], NUL), Find(b[..], NUL));
    assert m < a.Length && n < b.Length;
    var i := 0;
    while a[i] != NUL && b[i] != NUL
      invariant i <= m < a.Length && i <= n < b.Length
      invariant forall j | 0 <= j < i :: ToUpper(a[j]) == ToUpper(b[j])
      decreases a.Length - i
    {
      BeforeNul(a[..], i);
      BeforeNul(b[..], i);
      if ToUpper(a[i]) != ToUpper(b[i]) {
        assert Upper(a[..m])[i] != Upper(b[..n])[i];
        return false;
      }
      i := i + 1;
    }
    BeforeNul(a[..], i);
    BeforeNul(b[..], i);
    same := a[i] == b[i];
  }

  lemma BeforeNul(s: string, i: nat)
    requires HasNul(s) && i <= Find(s, NUL)
    ensures Find(s, NUL) < |s| && (s[i] == NUL <==> i == Find(s, NUL))
  {
    var n := Find(s, NUL);
    assert forall j | 0 <= j < n :: s[..n][j] == s[j];
  }

  /** The first half of `makeFatName`: blanks, and the characters before the dot. */
  method PutBase(normalName: string, outbuf: array<char>) returns (ok: bool, i: nat)
    requires outbuf.Length == 12
    modifies outbuf
    ensures ok == (Span(normalName, NAME_STOPS) <= 8)
    ensures ok ==> i == Span(normalName, NAME_STOPS) && outbuf[..] == Pad(normalName[..i], 8) + Pad("", 3) + [NUL]
  {
    forall j | 0 <= j < 11 {
      outbuf[j] := ' ';
    }
    outbuf[11] := NUL;
    i := 0;
    while i < |normalName| && normalName[i] != '/' && normalName[i] != '\\' && normalName[i] != '.'
      invariant i <= |normalName| && i <= 8 && forall j | 0 <= j < i :: normalName[j] !in NAME_STOPS
      invariant outbuf[..i] == normalName[..i] && (forall j | i <= j < 11 :: outbuf[j] == ' ') && outbuf[11] == NUL
    {
      if i >= 8 {
        return false, i;
      }
      outbuf[i] := normalName[i];
      i := i + 1;
    }
    SpanIs(normalName, NAME_STOPS, i);
    ok := true;
  }

  /** The second half: the characters behind the dot. */
  method PutExtension(ext: string, outbuf: array<char>, ghost base: string) returns (ok: bool)
    requires outbuf.Length == 12 && |base| == 8 && outbuf[..] == base + Pad("", 3) + [NUL]
    modifies outbuf
    ensures ok == (Span(ext, SLASHES) <= 3)
    ensures ok ==> outbuf[..] == base + Pad(ext[..Span(ext, SLASHES)], 3) + [NUL]
  {
    var i := 0;
    while i < |ext| && ext[i] != '/' && ext[i] != '\\'
      invariant i <= |ext| && i <= 3 && forall j | 0 <= j < i :: ext[j] !in SLASHES
      invariant outbuf[..8 + i] == base + ext[..i] && (forall j | 8 + i <= j < 11 :: outbuf[j] == ' ') && outbuf[11] == NUL
    {
      if i >= 3 {
        return false;
      }
      outbuf[8 + i] := ext[i];
      i := i + 1;
    }
    SpanIs(ext, SLASHES, i);
    ok := true;
  }

  lemma NoNulInPadded(s: string, t: string, n: nat, m: nat)
    requires NUL !in s && NUL !in t && |s| <= n && |t| <= m
    ensures NUL !in Pad(s, n) + Pad(t, m) && NUL !in Upper(Pad(s, n) + Pad(t, m))
  {
  }

  /** `makeFatName`: fills the buffer of 12 with the padded name and its terminator. */
  method MakeFatName(normalName: string, outbuf: array<char>) returns (ok: bool)
    requires outbuf.Length == 12 && NUL !in normalName
    modifies outbuf
    ensures ok == FatName(normalName).Some?
    ensures ok ==> outbuf[..] == FatName(normalName).value + [NUL] && NUL !in FatName(normalName).value
  {
    hide Upper;
    hide Pad;
    hide Span;
    hide Find;
    var i;
    ok, i := PutBase(normalName, outbuf);
    if !ok || i == 0 {
      return false;
    }
    ghost var base, ext := normalName[..i], "";
    if i < |normalName| && normalName[i] == '.' {
      ext := normalName[i + 1..];
      ok := PutExtension(normalName[i + 1..], outbuf, Pad(base, 8));
      ext := ext[..Span(ext, SLASHES)];
      if !ok {
        return;
      }
    }
    ghost var name := Pad(base, 8) + Pad(ext, 3);
    NoNulInPadded(base, ext, 8, 3);
    FindIs(outbuf[..], NUL, 11);
    assert outbuf[..11] == name && outbuf[11..] == [NUL];
    StrToUpper(outbuf);
  }

  // ----- directories -----

  /** Comparing as C strings is comparing all eleven characters. */
  lemma SameAsMatches(name: string, want: string, onDisk: string, fatName: string)
    requires |name| == |want| == 11 && NUL !in want && Upper(want) == want
    requires fatName == want + [NUL]
    requires var n := Find(name + [NUL], NUL); onDisk == Upper((name + [NUL])[..n]) + (name + [NUL])[n..]
    ensures (Upper(onDisk[..Find(onDisk, NUL)]) == Upper(fatName[..Find(fatName, NUL)])) == (Upper(name) == want)
  {
    var was := name + [NUL];
    var n := Find(was, NUL);
    FindIs(fatName, NUL, 11);
    assert fatName[..11] == want;
    assert was[11] == NUL;
    BeforeNul(was, n);
    assert forall j | 0 <= j < n :: was[..n][j] == was[j];
    FindIs(onDisk, NUL, n);
    assert onDisk[..n] == Upper(was[..n]);
    UpperTwice(was[..n]);
    if n == 11 {
      assert was[..11] == name;
    } else {
      assert Upper(name)[n] == NUL && want[n] in want;
    }
  }

  method IsThatName(e: DirEntry, fatName: array<char>, ghost want: string) returns (same: bool)
    requires IsEntry(e) && |want| == 11 && NUL !in want && Upper(want) == want && fatName[..] == want + [NUL]
    ensures same == Matches(e, want)
  {
    var onDiskName := new char[12](i requires 0 <= i < 12 => if i < 11 then e.name[i] else NUL);
    assert onDiskName[..] == e.name + [NUL];
    assert onDiskName[11] == NUL && fatName[11] == NUL;
    assert HasNul(onDiskName[..]) && HasNul(fatName[..]);
    ghost var n := Find(onDiskName[..], NUL);
    assert onDiskName[..n] == onDiskName[..][..n] && onDiskName[n..] == onDiskName[..][n..];
    StrToUpper(onDiskName);
    SameAsMatches(e.name, want, onDiskName[..], fatName[..]);
    assert HasNul(onDiskName[..]) by {
      assert onDiskName[n] == NUL;
    }
    same := StrEqI(onDiskName, fatName);
  }

  lemma ScanBehind(es: seq<DirEntry>, i: nat, more: seq<DirEntry>, want: string)
    requires i < |es|
    ensures Scan(es[i..] + more, want)
         == if IsEnd(es[i]) then None
            else if Hit(es[i], want) then Some(es[i])
            else Scan(es[i + 1..] + more, want)
    ensures Settled(es[i..], want) == (IsEnd(es[i]) || Hit(es[i], want) || Settled(es[i + 1..], want))
  {
    assert (es[i..] + more)[1..] == es[i + 1..] + more;
    hide Hit;
  }

  /** The scan of one cluster. It stops at an entry that matches or at the end mark. */
  method ScanCluster(clusterBuf: array<Byte>, fatName: array<char>, ghost want: string, ghost more: seq<DirEntry>)
    returns (stop: bool, r: Option<DirEntry>)
    requires clusterBuf.Length % ENTRY_SIZE == 0
    requires |want| == 11 && NUL !in want && Upper(want) == want && fatName[..] == want + [NUL]
    ensures Scan(Entries(clusterBuf[..]) + more, want) == if stop then r else Scan(more, want)
    ensures stop == Settled(Entries(clusterBuf[..]), want)
  {
    ghost var es := Entries(clusterBuf[..]);
    hide Scan;
    hide Settled;
    hide Entries;
    hide EntryAt;
    hide Matches;
    hide Upper;
    var entriesPerCluster := clusterBuf.Length / ENTRY_SIZE;
    assert es[0..] == es;
    for i := 0 to entriesPerCluster
      invariant Scan(es + more, want) == Scan(es[i..] + more, want)
      invariant Settled(es, want) == Settled(es[i..], want)
    {
      EntriesAt(clusterBuf[..], i);
      ScanBehind(es, i, more, want);
      var e := EntryAt(clusterBuf[..], ENTRY_SIZE * i);
      if IsEnd(e) {
        return true, None;
      }
      if !IsDeleted(e) && !IsLongName(e) {
        var same := IsThatName(e, fatName, want);
        if same {
          return true, Some(e);
        }
      }
    }
    assert es[entriesPerCluster..] + more == more;
    assert es[entriesPerCluster..] == [];
    NothingSettled(want);
    return false, None;
  }

  lemma EntriesRead(v: Volume, cluster: U32, b: seq<Byte>)
    requires b == ClusterBytes(v, cluster)
    ensures |b| % ENTRY_SIZE == 0 && Entries(b) == ClusterEntries(v, cluster)
  {
    WholeRecords(v.sectorsPerCluster);
    hide Entries;
    hide SectorsFrom;
  }

  lemma NothingSettled(want: string)
    ensures !Settled([], want) && Scan([], want) == None
  {
  }

  /** `findDirEntryInDir`. It returns wherever the search comes to an end, chain or no chain. */
  method FindDirEntryInDir(v: Volume, startCluster: U32, filename: string) returns (r: Option<DirEntry>)
    requires NUL !in filename && Searchable(v, startCluster, filename)
    ensures r == Child(v, startCluster, filename)
  {
    hide ClusterEntries;
    hide ClusterBytes;
    hide NextCluster;
    hide Scan;
    hide Settled;
    hide Live;
    hide Lookup;
    hide FatName;
    hide Entries;
    hide EntriesWithin;
    var fatName := new char[12];
    var named := MakeFatName(filename, fatName);
    if !named {
      return None;
    }
    ghost var want := FatName(filename).value;
    FatNameIsUpper(filename);
    var bytesPerCluster := BytesPerCluster(v);
    var clusterBuf := new Byte[bytesPerCluster];
    var currentCluster: U32 := startCluster;
    ghost var k: nat :| Stops(v, startCluster, k, want);
    ghost var found := Scan(EntriesWithin(v, startCluster, k), want);
    ChildWithin(v, startCluster, filename, k);
    ScanIsLookup(EntriesWithin(v, startCluster, k), want);
    while true
      invariant Stops(v, currentCluster, k, want) && clusterBuf.Length == bytesPerCluster
      invariant fatName[..] == want + [NUL] && fresh(clusterBuf) && fresh(fatName)
      invariant Scan(EntriesWithin(v, currentCluster, k), want) == found
      decreases k
    {
      EntriesStep(v, currentCluster, k);
      StopsStep(v, currentCluster, k, want);
      ReadCluster(v, currentCluster, clusterBuf);
      EntriesRead(v, currentCluster, clusterBuf[..]);
      var next := NextCluster(v, currentCluster);
      ghost var more := if LastInChain(v, currentCluster) then [] else EntriesWithin(v, next, k - 1);
      var stop;
      stop, r := ScanCluster(clusterBuf, fatName, want, more);
      if stop {
        return;
      }
      if next >= END_OF_CHAIN {
        NothingSettled(want);
        return None;
      }
      currentCluster := next;
      k := k - 1;
    }
  }

  lemma FatNameIsUpper(s: string)
    requires FatName(s).Some?
    ensures Upper(FatName(s).value) == FatName(s).value
  {
  }

  // ----- paths -----

  const COMPONENT_SIZE: nat := 64

  method SkipFrom(path: string, at: nat) returns (p: nat)
    requires at <= |path|
    ensures at <= p <= |path| && path[p..] == SkipSlashes(path[at..])
  {
    p := at;
    while p < |path| && (path[p] == '/' || path[p] == '\\')
      invariant at <= p <= |path| && SkipSlashes(path[p..]) == SkipSlashes(path[at..])
    {
      assert path[p..][1..] == path[p + 1..];
      p := p + 1;
    }
  }

  /** `splitNextPathComponent`: the next component and the position behind it. There is none at the end
      of the path, and one that does not fit the buffer of 64 is refused. */
  method SplitNextPathComponent(path: string, at: nat) returns (has: bool, component: string, p: nat)
    requires at <= |path|
    ensures at <= p <= |path|
    ensures var q := SkipSlashes(path[at..]); var n := Span(q, SLASHES);
      && has == (q != "" && n < 64)
      && (has ==> component == q[..n] && path[p..] == q[n..])
    ensures has ==> p > at && forall i | 0 <= i < |component| :: component[i] in path
  {
    hide SkipSlashes;
    hide Span;
    component := "";
    p := SkipFrom(path, at);
    ghost var start, q := p, path[p..];
    if p == |path| {
      return false, "", p;
    }
    var out := new char[COMPONENT_SIZE];
    var i := 0;
    while p < |path| && path[p] != '/' && path[p] != '\\'
      invariant i < COMPONENT_SIZE && start + i == p <= |path|
      invariant forall j | 0 <= j < i :: out[j] == q[j] && q[j] !in SLASHES
    {
      if i >= COMPONENT_SIZE - 1 {
        SpanAtLeast(q, SLASHES, i + 1);
        return false, "", p;
      }
      out[i] := path[p];
      i := i + 1;
      p := p + 1;
    }
    out[i] := NUL;
    SpanIs(q, SLASHES, i);
    has := true;
    component := out[..i];
    assert forall j | 0 <= j < i :: component[j] == path[start + j];
  }

  lemma SpanAtLeast(s: string, stops: string, n: nat)
    requires n <= |s| && forall i | 0 <= i < n :: s[i] !in stops
    ensures Span(s, stops) >= n
  {
  }

  /** What the driver's buffer cannot hold names nothing anyway. */
  lemma NoComponent(v: Volume, dir: U32, path: string)
    requires Walkable(v, dir, Components(path))
    requires var q := SkipSlashes(path); q == "" || Span(q, SLASHES) >= 64
    ensures Resolve(v, dir, Components(path)) == None
  {
    var q := SkipSlashes(path);
    if q != "" {
      var name := q[..Span(q, SLASHES)];
      assert forall i | 0 <= i < |name| :: name[i] == q[i];
      LongComponentNamesNothing(v, dir, name);
    }
  }

  /** `resolvePath`: what the components of the path name, one after the other. */
  method ResolvePath(v: Volume, fp: string) returns (r: Option<DirEntry>)
    requires NUL !in fp && Walkable(v, v.rootDirCluster, Components(fp))
    ensures r == Resolve(v, v.rootDirCluster, Components(fp))
  {
    hide Child;
    hide Searchable;
    if fp == "" {
      return None;
    }
    var currentDirCluster: U32 := v.rootDirCluster;
    var p := 0;
    assert fp[0..] == fp;
    ghost var total := Resolve(v, v.rootDirCluster, Components(fp));
    while true
      invariant p <= |fp| && Walkable(v, currentDirCluster, Components(fp[p..]))
      invariant Resolve(v, currentDirCluster, Components(fp[p..])) == total
      decreases |fp| - p
    {
      ghost var (q, n) := (SkipSlashes(fp[p..]), Span(SkipSlashes(fp[p..]), SLASHES));
      var hasComponent, component, p1 := SplitNextPathComponent(fp, p);
      if !hasComponent {
        NoComponent(v, currentDirCluster, fp[p..]);
        return None;
      }
      ghost var comps := Components(fp[p..]);
      assert comps == [component] + Components(q[n..]) && comps[1..] == Components(fp[p1..]);
      ComponentsSkip(fp[p1..]);
      hide Components;
      var found := FindDirEntryInDir(v, currentDirCluster, component);
      if found.None? {
        return None;
      }
      p1 := SkipFrom(fp, p1);
      if p1 == |fp| {
        return found;
      }
      if !IsDirectory(found.value) {
        return None;
      }
      currentDirCluster := found.value.cluster;
      p := p1;
    }
  }

  /** `isRootPath` */
  method IsRootPath(fp: string) returns (root: bool)
    ensures root == (Components(fp) == [])
  {
    var p := SkipFrom(fp, 0);
    assert fp[0..] == fp;
    root := p == |fp|;
  }

  function FileOf(e: DirEntry): File { File(e.cluster, IsDirectory(e), e.filesize) }

  /** What opening a path gives: a path without components is the root directory. */
  ghost function Opened(v: Volume, fp: string): Option<File>
    requires Walkable(v, v.rootDirCluster, Components(fp))
  {
    if Components(fp) == [] then Some(File(v.rootDirCluster, true, 0))
    else match Resolve(v, v.rootDirCluster, Components(fp))
      case None => None
      case Some(e) => Some(FileOf(e))
  }

  /** `open` */
  method Open(v: Volume, fp: string) returns (f: Option<File>)
    requires NUL !in fp && Walkable(v, v.rootDirCluster, Components(fp))
    ensures f == Opened(v, fp)
  {
    var root := IsRootPath(fp);
    if root {
      return Some(File(v.rootDirCluster, true, 0));
    }
    var e := ResolvePath(v, fp);
    f := match e case None => None case Some(d) => Some(FileOf(d));
  }
}
