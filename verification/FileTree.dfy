/** Directory trees, '/'-separated paths, and the three ways a path is looked up in a tree:
    component by component (`TreeFile`), as the kernel driver's `open` does it (`TreeOpen`), and as
    its `getDirIt` does it (`TreeDirIt`). */
module FileTree {
  import opened Bytes

  type Name = seq<Byte>

  datatype FileNode = FileNode(name: Name, data: seq<Byte>)
  datatype SubDir = SubDir(name: Name, dir: Dir)
  datatype Dir = Dir(files: seq<FileNode>, subs: seq<SubDir>)

  const SLASH: Byte := 47

  // ----- names and sizes -----

  /** An empty name is the end-of-list marker of the image format, so no entry may carry one. */
  ghost predicate NonEmptyNames(d: Dir) {
    && (forall k | 0 <= k < |d.files| :: d.files[k].name != [])
    && forall k | 0 <= k < |d.subs| :: d.subs[k].name != [] && NonEmptyNames(d.subs[k].dir)
  }

  /** Names a host file system can produce: not empty and without the path separator. */
  ghost predicate ValidNames(d: Dir) {
    && (forall k | 0 <= k < |d.files| :: d.files[k].name != [] && SLASH !in d.files[k].name)
    && forall k | 0 <= k < |d.subs| ::
      d.subs[k].name != [] && SLASH !in d.subs[k].name && ValidNames(d.subs[k].dir)
  }

  /** Every directory has fewer than 65536 files and fewer than 65536 subdirectories. */
  ghost predicate SmallDirs(d: Dir) {
    && |d.files| < TWO16 && |d.subs| < TWO16
    && forall k | 0 <= k < |d.subs| :: SmallDirs(d.subs[k].dir)
  }

  /** No path from `d` down to a directory has more than `n` edges. */
  ghost predicate HeightAtMost(d: Dir, n: nat) {
    forall k | 0 <= k < |d.subs| :: n > 0 && HeightAtMost(d.subs[k].dir, n - 1)
  }

  /** What a reader that trusts the 16-bit counts sees of a tree. */
  function CountedView(d: Dir): Dir {
    Dir(d.files[..Low16(|d.files|)],
        seq(Low16(|d.subs|), k requires 0 <= k < Low16(|d.subs|) =>
              SubDir(d.subs[k].name, CountedView(d.subs[k].dir))))
  }

  /** The 16-bit counts hide nothing exactly when every directory is small. */
  lemma {:induction false} CountedViewIsWhole(d: Dir)
    ensures CountedView(d) == d <==> SmallDirs(d)
  {
    var v := CountedView(d);
    forall k | 0 <= k < |d.subs| ensures CountedView(d.subs[k].dir) == d.subs[k].dir <==> SmallDirs(d.subs[k].dir) {
      CountedViewIsWhole(d.subs[k].dir);
    }
    if SmallDirs(d) {
      assert v.subs == d.subs;
    } else if v == d {
      assert |v.files| == |d.files| && |v.subs| == |d.subs|;
      forall k | 0 <= k < |d.subs| ensures SmallDirs(d.subs[k].dir) {
        assert v.subs[k] == d.subs[k];
      }
    }
  }

  // ----- looking up one name: the first entry wins -----

  function IndexOfFile(files: seq<FileNode>, name: Name): (k: nat)
    ensures k <= |files| && (k < |files| ==> files[k].name == name)
    ensures forall j | 0 <= j < k :: files[j].name != name
  {
    if files == [] then 0
    else if files[0].name == name then 0
    else
      var k := IndexOfFile(files[1..], name);
      assert forall j | 1 <= j < k + 1 :: files[j] == files[1..][j - 1];
      k + 1
  }

  function IndexOfSub(subs: seq<SubDir>, name: Name): (k: nat)
    ensures k <= |subs| && (k < |subs| ==> subs[k].name == name)
    ensures forall j | 0 <= j < k :: subs[j].name != name
  {
    if subs == [] then 0
    else if subs[0].name == name then 0
    else
      var k := IndexOfSub(subs[1..], name);
      assert forall j | 1 <= j < k + 1 :: subs[j] == subs[1..][j - 1];
      k + 1
  }

  function FileNamed(files: seq<FileNode>, name: Name): Option<FileNode> {
    var k := IndexOfFile(files, name);
    if k < |files| then Some(files[k]) else None
  }

  /** The file at a list of components, taking the first match in every directory. */
  function TreeFile(d: Dir, comps: seq<Name>): Option<FileNode>
    decreases |comps|
  {
    if comps == [] then None
    else if |comps| == 1 then FileNamed(d.files, comps[0])
    else
      var k := IndexOfSub(d.subs, comps[0]);
      if k < |d.subs| then TreeFile(d.subs[k].dir, comps[1..]) else None
  }

  function TreeDir(d: Dir, comps: seq<Name>): Option<Dir>
    decreases |comps|
  {
    if comps == [] then Some(d)
    else
      var k := IndexOfSub(d.subs, comps[0]);
      if k < |d.subs| then TreeDir(d.subs[k].dir, comps[1..]) else None
  }

  // ----- paths -----

  /** Number of bytes before the first separator, or the whole length. */
  function SegLen(p: seq<Byte>): (n: nat)
    ensures n <= |p| && SLASH !in p[..n] && (n < |p| ==> p[n] == SLASH)
  {
    if p == [] || p[0] == SLASH then 0
    else
      var n := 1 + SegLen(p[1..]);
      assert p[..n] == [p[0]] + p[1..][..n - 1];
      n
  }

  ghost predicate Components(cs: seq<Name>) {
    forall i | 0 <= i < |cs| :: cs[i] != [] && SLASH !in cs[i]
  }

  /** The non-empty components of a path. */
  function Comps(p: seq<Byte>): (cs: seq<Name>)
    ensures Components(cs)
    decreases |p|
  {
    if p == [] then []
    else if p[0] == SLASH then Comps(p[1..])
    else [p[..SegLen(p)]] + Comps(p[SegLen(p)..])
  }

  function Join(cs: seq<Name>): seq<Byte>
  {
    if cs == [] then []
    else if |cs| == 1 then cs[0]
    else cs[0] + [SLASH] + Join(cs[1..])
  }

  /** A path written the canonical way: one separator before each component and none at the end. */
  ghost predicate Canonical(p: seq<Byte>) {
    Comps(p) != [] && p == [SLASH] + Join(Comps(p))
  }

  /** The driver's `findChar`: the first position of the separator, and 0 when there is none. */
  function FindSlash(s: seq<Byte>): (n: nat)
    ensures n != 0 ==> n < |s| && s[n] == SLASH && SLASH !in s[..n]
    ensures n == 0 ==> SLASH !in s || s[0] == SLASH
  {
    if SegLen(s) < |s| then SegLen(s) else 0
  }

  // ----- what the kernel driver's `open` computes, for every path string -----

  function TreeFindInDir(d: Dir, fn: seq<Byte>, isDir: bool): Option<FileNode>
  {
    var slashPos := FindSlash(fn);
    var hasSlash := slashPos != 0;
    var nameLen := if hasSlash then slashPos else |fn|;
    if !hasSlash && !isDir then FileNamed(d.files, fn)
    else
      var k := IndexOfSub(d.subs, fn[..nameLen]);
      if k == |d.subs| || |fn| <= nameLen + 1 then None
      else
        var remaining := fn[nameLen + 1..];
        TreeFindInDir(d.subs[k].dir, remaining, FindSlash(remaining) != 0)
  }

  function TreeOpen(d: Dir, path: seq<Byte>): Option<FileNode>
  {
    if path == [] || path[0] != SLASH then None
    else
      var parts := Comps(path[1..]);
      if parts == [] then None
      else if |parts| == 1 then FileNamed(d.files, parts[0])
      else
        var k := IndexOfSub(d.subs, parts[0]);
        var firstSlash := FindSlash(path[1..]);
        if k == |d.subs| || firstSlash == 0 then None
        else
          var newFp := path[firstSlash + 2..];
          TreeFindInDir(d.subs[k].dir, newFp, FindSlash(newFp) != 0)
  }

  // ----- lemmas about paths -----

  lemma {:induction false} SegLenOf(seg: seq<Byte>, rest: seq<Byte>)
    requires SLASH !in seg && (rest != [] ==> rest[0] == SLASH)
    ensures SegLen(seg + rest) == |seg|
  {
    if seg == [] {
      assert seg + rest == rest;
    } else {
      assert (seg + rest)[1..] == seg[1..] + rest;
      SegLenOf(seg[1..], rest);
    }
  }

  lemma {:induction false} CompsOfJoin(cs: seq<Name>)
    requires Components(cs)
    ensures Comps(Join(cs)) == cs
  {
    if |cs| >= 1 {
      var rest := if |cs| == 1 then [] else [SLASH] + Join(cs[1..]);
      assert Join(cs) == cs[0] + rest;
      SegLenOf(cs[0], rest);
      assert (cs[0] + rest)[..|cs[0]|] == cs[0] && (cs[0] + rest)[|cs[0]|..] == rest;
      if |cs| > 1 {
        CompsOfJoin(cs[1..]);
        assert rest[1..] == Join(cs[1..]);
      }
    }
  }

  lemma JoinHead(cs: seq<Name>)
    requires Components(cs)
    ensures Join(cs) != [] ==> Join(cs)[0] != SLASH
  {
    if cs != [] {
      assert Join(cs)[0] == cs[0][0];
    }
  }

  lemma Cancel(a: seq<Byte>, x: seq<Byte>, y: seq<Byte>)
    ensures a + x == a + y <==> x == y
  {
    assert (a + x)[|a|..] == x && (a + y)[|a|..] == y;
  }

  lemma CompsSkip(p: seq<Byte>)
    requires p != [] && p[0] == SLASH
    ensures Comps(p) == Comps(p[1..])
  {
  }

  lemma SegLenIs(p: seq<Byte>, n: nat)
    requires n <= |p| && SLASH !in p[..n] && (n < |p| ==> p[n] == SLASH)
    ensures SegLen(p) == n
  {
    assert p == p[..n] + p[n..];
    SegLenOf(p[..n], p[n..]);
  }

  lemma CompsTake(p: seq<Byte>, n: nat)
    requires 0 < n <= |p| && SLASH !in p[..n] && (n < |p| ==> p[n] == SLASH)
    ensures Comps(p) == [p[..n]] + Comps(p[n..])
  {
    hide SegLen;
    SegLenIs(p, n);
    assert p[..n][0] == p[0];
  }

  lemma DropNext(p: seq<Byte>, n: nat)
    requires n < |p|
    ensures p[n..][0] == p[n] && p[n..][1..] == p[n + 1..]
  {
  }

  lemma CompsSplit(p: seq<Byte>, n: nat)
    requires n == SegLen(p) && 0 < n < |p|
    ensures p[..n + 1] == p[..n] + [SLASH]
    ensures Comps(p) == [p[..n]] + Comps(p[n + 1..])
  {
    hide SegLen;
    hide Comps;
    CompsTake(p, n);
    DropNext(p, n);
    CompsSkip(p[n..]);
  }

  /** A path that starts with a component and a separator: how its parts relate to the rest. */
  lemma SplitParts(p: seq<Byte>, n: nat)
    requires n == SegLen(p) && 0 < n < |p|
    ensures p[..n + 1] == p[..n] + [SLASH] && p == p[..n + 1] + p[n + 1..]
    ensures Comps(p) == [p[..n]] + Comps(p[n + 1..])
    ensures Join(Comps(p)) == if Comps(p[n + 1..]) == [] then p[..n] else p[..n + 1] + Join(Comps(p[n + 1..]))
  {
    hide SegLen;
    hide Comps;
    CompsSplit(p, n);
    var cs := Comps(p[n + 1..]);
    assert ([p[..n]] + cs)[1..] == cs;
  }

  lemma SplitFirst(p: seq<Byte>, n: nat)
    requires n == SegLen(p) && 0 < n < |p|
    ensures Comps(p) == [p[..n]] + Comps(p[n + 1..]) && Comps(p)[1..] == Comps(p[n + 1..])
    ensures p == Join(Comps(p)) <==> Comps(p[n + 1..]) != [] && p[n + 1..] == Join(Comps(p[n + 1..]))
  {
    SplitParts(p, n);
    Cancel(p[..n + 1], p[n + 1..], Join(Comps(p[n + 1..])));
  }

  lemma NoSlashInNames(d: Dir, name: Name)
    requires ValidNames(d) && (name == [] || SLASH in name)
    ensures FileNamed(d.files, name) == None
  {
  }

  /** The part of the remainder before its first separator names a directory. */
  lemma FindBelow(d: Dir, fn: seq<Byte>)
    requires 0 < SegLen(fn) < |fn|
    ensures var n := SegLen(fn); var k := IndexOfSub(d.subs, fn[..n]); var rest := fn[n + 1..];
      TreeFindInDir(d, fn, FindSlash(fn) != 0)
      == if k == |d.subs| || rest == [] then None else TreeFindInDir(d.subs[k].dir, rest, FindSlash(rest) != 0)
  {
    hide SegLen;
    hide IndexOfSub;
    hide FileNamed;
    var n := SegLen(fn);
    assert FindSlash(fn) == n;
    hide FindSlash;
    var k := IndexOfSub(d.subs, fn[..n]);
    if k < |d.subs| {
      var rest := fn[n + 1..];
      assert rest == [] <==> |fn| <= n + 1;
    }
  }

  lemma FindLast(d: Dir, fn: seq<Byte>)
    requires SegLen(fn) == 0 || SegLen(fn) == |fn|
    ensures TreeFindInDir(d, fn, FindSlash(fn) != 0) == FileNamed(d.files, fn)
  {
    hide SegLen;
    hide FileNamed;
  }

  /** `open` below the first component: the whole remainder must be canonical. */
  lemma {:induction false} FindInDirMeans(d: Dir, fn: seq<Byte>)
    requires ValidNames(d)
    ensures TreeFindInDir(d, fn, FindSlash(fn) != 0)
         == if fn == Join(Comps(fn)) then TreeFile(d, Comps(fn)) else None
    decreases d
  {
    hide TreeFindInDir;
    hide FindSlash;
    hide FileNamed;
    hide IndexOfSub;
    var n := SegLen(fn);
    hide SegLen;
    if fn == [] {
      FindLast(d, fn);
      NoSlashInNames(d, fn);
    } else if n == 0 {
      FindLast(d, fn);
      NoSlashInNames(d, fn);
      JoinHead(Comps(fn));
    } else if n == |fn| {
      FindLast(d, fn);
      assert fn[n..] == [] && fn[..n] == fn;
      assert Comps(fn) == [fn];
    } else {
      FindBelow(d, fn);
      SplitFirst(fn, n);
      hide Comps;
      hide Join;
      var rest := fn[n + 1..];
      var k := IndexOfSub(d.subs, fn[..n]);
      if rest != [] && k < |d.subs| {
        FindInDirMeans(d.subs[k].dir, rest);
      }
      NoComponents(rest);
    }
  }

  lemma NoComponents(p: seq<Byte>)
    ensures p == [] ==> Comps(p) == []
  {
  }

  /** Which paths `open` resolves, and to what. */
  ghost predicate OpenResolves(path: seq<Byte>) {
    path != [] && path[0] == SLASH && (|Comps(path)| == 1 || Canonical(path))
  }

  /** For every tree and every path string: `open` is component lookup on a path with one component
      or in canonical form, and finds nothing on every other path. */
  lemma OpenMeans(d: Dir, path: seq<Byte>)
    requires ValidNames(d)
    ensures TreeOpen(d, path) == if OpenResolves(path) then TreeFile(d, Comps(path)) else None
  {
    if path != [] && path[0] == SLASH {
      var p := path[1..];
      assert path == [SLASH] + p;
      assert Comps(path) == Comps(p);
      var n := SegLen(p);
      if |Comps(p)| >= 2 {
        if n == 0 {
          JoinHead(Comps(p));
        } else {
          SplitFirst(p, n);
          assert p[n + 1..] == path[n + 2..];
          var k := IndexOfSub(d.subs, p[..n]);
          if k < |d.subs| {
            FindInDirMeans(d.subs[k].dir, p[n + 1..]);
          }
        }
      }
    }
  }

  /** The tree holding exactly one empty file, at the given components. */
  function Chain(cs: seq<Name>): Dir
    requires cs != []
  {
    if |cs| == 1 then Dir([FileNode(cs[0], [])], [])
    else Dir([], [SubDir(cs[0], Chain(cs[1..]))])
  }

  lemma {:induction false} ChainHolds(cs: seq<Name>)
    requires cs != [] && Components(cs)
    ensures ValidNames(Chain(cs)) && TreeFile(Chain(cs), cs) == Some(FileNode(cs[|cs| - 1], []))
  {
    if |cs| > 1 {
      ChainHolds(cs[1..]);
    }
  }

  /** `open` and component lookup agree on a path, over all trees, exactly when the path has no
      component, or is absolute and has one component or is canonical. */
  lemma OpenAgreesExactly(path: seq<Byte>)
    ensures (forall d | ValidNames(d) :: TreeOpen(d, path) == TreeFile(d, Comps(path)))
       <==> Comps(path) == [] || OpenResolves(path)
  {
    forall d | ValidNames(d)
      ensures TreeOpen(d, path) == if OpenResolves(path) then TreeFile(d, Comps(path)) else None
    {
      OpenMeans(d, path);
    }
    if Comps(path) != [] && !OpenResolves(path) {
      ChainHolds(Comps(path));
      assert TreeOpen(Chain(Comps(path)), path) == None;
    }
  }

  /** A directory with 65536 files, all of the same one-letter name. */
  function FullDir(): Dir { Dir(seq(65536, _ => FileNode([97], [])), []) }

  /** Through the counted view it is empty, and what lookup finds in it is not opened. */
  lemma FullDirectoryHidden()
    ensures ValidNames(FullDir()) && CountedView(FullDir()) != FullDir()
    ensures TreeFile(FullDir(), Comps([SLASH, 97])) == Some(FileNode([97], []))
    ensures TreeOpen(CountedView(FullDir()), [SLASH, 97]) == None
  {
    var d, path, name := FullDir(), [SLASH, 97], [97];
    assert |d.files| == 65536 && d.files[0] == FileNode([97], []);
    assert CountedView(d).files == [];
    hide FullDir;
    assert path[1..] == name;
    CompsSkip(path);
    assert name[..1] == name && name[1..] == [];
    assert SLASH !in name[..1];
    CompsTake(name, 1);
    assert Comps(path) == [name];
  }

  // ----- what the kernel driver's `getDirIt` computes -----

  /** Directory lookup that only considers the first `count` entries of every directory. */
  function TreeDirBounded(d: Dir, comps: seq<Name>, count: nat): Option<Dir>
    decreases |comps|
  {
    if comps == [] then Some(d)
    else
      var k := IndexOfSub(d.subs, comps[0]);
      if k < |d.subs| && k < count then TreeDirBounded(d.subs[k].dir, comps[1..], count) else None
  }

  /** `getDirIt` behind the leading separator. `count` is the root's directory count throughout. */
  function TreeWalkDirs(d: Dir, fp: seq<Byte>, count: nat): Option<Dir>
    decreases |fp|
  {
    if fp == [] then Some(d)
    else
      var len := SegLen(fp);
      if len == 0 then None
      else
        var k := IndexOfSub(d.subs, fp[..len]);
        if k < |d.subs| && k < count
        then TreeWalkDirs(d.subs[k].dir, if len < |fp| then fp[len + 1..] else [], count)
        else None
  }

  function TreeDirIt(d: Dir, path: seq<Byte>, count: nat): Option<Dir> {
    if path == [] || path[0] != SLASH then None else TreeWalkDirs(d, path[1..], count)
  }

  /** No doubled separators; one at the end is tolerated. */
  ghost predicate DirCanonical(fp: seq<Byte>) {
    fp == Join(Comps(fp)) || (Comps(fp) != [] && fp == Join(Comps(fp)) + [SLASH])
  }

  lemma SplitFirstDir(p: seq<Byte>, n: nat)
    requires n == SegLen(p) && 0 < n < |p|
    ensures DirCanonical(p) <==> DirCanonical(p[n + 1..])
  {
    hide SegLen;
    hide Comps;
    hide Join;
    SplitFirst(p, n);
    SplitParts(p, n);
    var a, rest := p[..n + 1], p[n + 1..];
    var cs := Comps(rest);
    if cs == [] {
      EmptyJoin();
      assert Join(Comps(p)) + [SLASH] == a + [];
      Cancel(a, rest, []);
    } else {
      assert Join(Comps(p)) + [SLASH] == a + (Join(cs) + [SLASH]);
      Cancel(a, rest, Join(cs) + [SLASH]);
    }
  }

  lemma EmptyJoin()
    ensures Join([]) == []
  {
  }

  lemma {:induction false} WalkDirsMeans(d: Dir, fp: seq<Byte>, count: nat)
    ensures TreeWalkDirs(d, fp, count) == if DirCanonical(fp) then TreeDirBounded(d, Comps(fp), count) else None
    decreases |fp|
  {
    var n := SegLen(fp);
    if fp == [] {
    } else if n == 0 {
      JoinHead(Comps(fp));
    } else if n == |fp| {
      assert fp[n..] == [] && fp[..n] == fp;
      assert Comps(fp) == [fp];
    } else {
      SplitFirst(fp, n);
      SplitFirstDir(fp, n);
      var k := IndexOfSub(d.subs, fp[..n]);
      if k < |d.subs| {
        WalkDirsMeans(d.subs[k].dir, fp[n + 1..], count);
      }
    }
  }

  /** For every path string: `getDirIt` finds nothing on a path with doubled separators, and is
      bounded component lookup otherwise. */
  lemma DirItMeans(d: Dir, path: seq<Byte>, count: nat)
    requires path != [] && path[0] == SLASH
    ensures TreeDirIt(d, path, count)
         == if DirCanonical(path[1..]) then TreeDirBounded(d, Comps(path), count) else None
  {
    WalkDirsMeans(d, path[1..], count);
  }

  /** Every component that exists is among the first `count` entries of its directory. */
  ghost predicate WithinCount(d: Dir, comps: seq<Name>, count: nat)
    decreases |comps|
  {
    comps != [] ==>
      var k := IndexOfSub(d.subs, comps[0]);
      k < |d.subs| ==> k < count && WithinCount(d.subs[k].dir, comps[1..], count)
  }

  /** The root's count is applied in every directory: an existing directory is found exactly when
      that count covers every component. */
  lemma {:induction false} BoundedLookupExactly(d: Dir, comps: seq<Name>, count: nat)
    requires TreeDir(d, comps).Some?
    ensures TreeDirBounded(d, comps, count) == TreeDir(d, comps) <==> WithinCount(d, comps, count)
    decreases |comps|
  {
    if comps != [] {
      var k := IndexOfSub(d.subs, comps[0]);
      BoundedLookupExactly(d.subs[k].dir, comps[1..], count);
    }
  }

  lemma {:induction false} BoundedFindsNoMore(d: Dir, comps: seq<Name>, count: nat)
    ensures TreeDirBounded(d, comps, count).Some? ==> TreeDirBounded(d, comps, count) == TreeDir(d, comps)
    decreases |comps|
  {
    if comps != [] {
      var k := IndexOfSub(d.subs, comps[0]);
      if k < |d.subs| {
        BoundedFindsNoMore(d.subs[k].dir, comps[1..], count);
      }
    }
  }

  /** The smallest failure: `/a/c` exists, but the root has one directory and `c` is second in `a`. */
  lemma StaleCountHides()
    ensures var root := Dir([], [SubDir([97], Dir([], [SubDir([98], Dir([], [])), SubDir([99], Dir([], []))]))]);
      && TreeDir(root, [[97], [99]]) == Some(Dir([], []))
      && TreeDirBounded(root, [[97], [99]], |root.subs|) == None
  {
    var a := Dir([], [SubDir([98], Dir([], [])), SubDir([99], Dir([], []))]);
    var root := Dir([], [SubDir([97], a)]);
    var cs: seq<Name> := [[97], [99]];
    assert IndexOfSub(a.subs, [99]) == 1;
    assert cs[1..] == [[99]];
    assert TreeDir(root, cs) == TreeDir(a, [[99]]);
    assert TreeDir(a, [[99]]) == TreeDir(Dir([], []), []);
  }
}
