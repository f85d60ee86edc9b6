/** The kernel's reader: walks the same image by entry counts and a path string, with no bounds
    checks of its own. Addresses inside the image are written as offsets; the handles it returns are
    absolute, as in the driver. */
module RivFsDriver {
  import opened Bytes
  import opened FileTree
  import opened RivLayout

  datatype File = File(startPos: U32, contsSvPos: U32)
  datatype FileData = FileData(filename: Name, file: File)
  datatype DirData = DirData(dirname: Name, startPos: nat, constPos: nat)
  datatype FilePart = FilePart(sv: Name, isDir: bool)

  /** A position in the two lists of a directory. The ghost fields name the directory and say how
      many entries have been handed out. */
  class DirIterator {
    var dirPos: nat
    var filePos: nat
    var dirsRemaining: U16
    var filesRemaining: U16
    ghost var dir: Dir
    ghost var at: BuiltDir
    ghost var dirsDone: nat
    ghost var filesDone: nat

    constructor (b: BuiltDir, ghost d: Dir)
      ensures dirPos == b.dirstart && filePos == b.fstart
      ensures dirsRemaining == b.dirHdrAm && filesRemaining == b.fAm
      ensures dir == d && at == b && dirsDone == 0 && filesDone == 0
    {
      dirPos, filePos, dirsRemaining, filesRemaining := b.dirstart, b.fstart, b.dirHdrAm, b.fAm;
      dir, at, dirsDone, filesDone := d, b, 0, 0;
    }

    ghost predicate Valid(img: seq<Byte>)
      reads this
    {
      && Readable(img, at, dir)
      && dirsDone + dirsRemaining == Low16(|dir.subs|) && filesDone + filesRemaining == Low16(|dir.files|)
      && dirPos == at.dirstart + DirOff(dir.subs, dirsDone)
      && filePos == at.fstart + FileOff(dir.files, filesDone)
    }
  }

  lemma FirstFile(files: seq<FileNode>, k: nat, name: Name)
    requires k <= |files| && (forall j | 0 <= j < k :: files[j].name != name) && (k < |files| ==> files[k].name == name)
    ensures IndexOfFile(files, name) == k
  {
  }

  lemma NoFirstFile(files: seq<FileNode>, k: nat, name: Name)
    requires k <= |files| && forall j | 0 <= j < k :: files[j].name != name
    ensures IndexOfFile(files, name) >= k
  {
  }

  lemma FirstSub(subs: seq<SubDir>, k: nat, name: Name)
    requires k <= |subs| && (forall j | 0 <= j < k :: subs[j].name != name) && (k < |subs| ==> subs[k].name == name)
    ensures IndexOfSub(subs, name) == k
  {
  }

  lemma NoFirstSub(subs: seq<SubDir>, k: nat, name: Name)
    requires k <= |subs| && forall j | 0 <= j < k :: subs[j].name != name
    ensures IndexOfSub(subs, name) >= k
  {
  }

  // ----- lookups cut short by a count -----

  lemma FileNamedUpTo(files: seq<FileNode>, n: nat, name: Name)
    requires n <= |files|
    ensures var k := IndexOfFile(files, name);
      FileNamed(files[..n], name) == if k < n then Some(files[k]) else None
  {
    var k, j := IndexOfFile(files, name), IndexOfFile(files[..n], name);
    assert forall i | 0 <= i < n :: files[..n][i] == files[i];
  }

  lemma SubNamedUpTo(d: Dir, name: Name)
    ensures var k, n, v := IndexOfSub(d.subs, name), Low16(|d.subs|), CountedView(d);
      IndexOfSub(v.subs, name) == if k < n then k else n
  {
    var k, j := IndexOfSub(d.subs, name), IndexOfSub(CountedView(d).subs, name);
    if j < Low16(|d.subs|) {
      assert CountedView(d).subs[j].name == d.subs[j].name;
    }
    if k < Low16(|d.subs|) {
      assert CountedView(d).subs[k].name == d.subs[k].name;
    }
  }

  /** A handle points at the record of a file. */
  ghost predicate HandleOf(base: nat, img: seq<Byte>, f: File, node: FileNode) {
    && base <= f.startPos && FileRecAt(img, f.startPos - base, node)
    && f.contsSvPos == f.startPos + 4 + |node.name|
  }

  /** A lookup answers with a handle exactly when the tree has the file. */
  ghost predicate Answers(base: nat, img: seq<Byte>, r: Option<File>, want: Option<FileNode>) {
    && (r.Some? <==> want.Some?)
    && (r.Some? ==> HandleOf(base, img, r.value, want.value))
  }

  /** Compares a stored name with a wanted one, byte by byte. */
  method SameName(img: seq<Byte>, off: nat, len: nat, wanted: Name) returns (same: bool)
    requires off + len <= |img|
    ensures same <==> img[off..off + len] == wanted
  {
    if len != |wanted| {
      return false;
    }
    for j := 0 to len
      invariant forall i | 0 <= i < j :: img[off + i] == wanted[i]
    {
      if img[off + j] != wanted[j] {
        assert img[off..off + len][j] != wanted[j];
        return false;
      }
    }
    return true;
  }

  lemma StoredName(img: seq<Byte>, off: nat, name: Name)
    requires NameAt(img, off, name)
    ensures img[off + 4..off + 4 + U32At(img, off)] == name
  {
  }

  /** What stands in the `k`th record of a file list. */
  lemma FileFacts(img: seq<Byte>, fStart: nat, files: seq<FileNode>, k: nat, pos: nat)
    requires FilesAt(img, fStart, files) && NamedFiles(files) && k < |files| && pos == fStart + FileOff(files, k)
    ensures var (n, c) := (|files[k].name|, |files[k].data|);
      && n > 0 && pos + 8 + n + c <= |img| && U32At(img, pos) == n && U32At(img, pos + 4 + n) == c
      && img[pos + 4..pos + 4 + n] == files[k].name
      && fStart + FileOff(files, k + 1) == pos + 8 + n + c
    ensures FileRecAt(img, pos, files[k])
  {
    hide U32At;
    FileIn(img, fStart, files, k);
    StoredName(img, pos, files[k].name);
  }

  lemma FileFound(base: nat, img: seq<Byte>, files: seq<FileNode>, k: nat, count: nat, wanted: Name, pos: nat)
    requires k < count <= |files| && files[k].name == wanted && forall j | 0 <= j < k :: files[j].name != wanted
    requires FileRecAt(img, pos, files[k]) && base + pos + 4 + |wanted| < TWO32
    ensures Answers(base, img, Some(File(base + pos, base + pos + 4 + |wanted|)), FileNamed(files[..count], wanted))
  {
    hide FileRecAt;
    FileNamedUpTo(files, count, wanted);
    FirstFile(files, k, wanted);
  }

  lemma FileMissing(base: nat, img: seq<Byte>, files: seq<FileNode>, count: nat, wanted: Name)
    requires count <= |files| && forall j | 0 <= j < count :: files[j].name != wanted
    ensures Answers(base, img, None, FileNamed(files[..count], wanted))
  {
    FileNamedUpTo(files, count, wanted);
    NoFirstFile(files, count, wanted);
  }

  /** The scan of a file list: at most `count` records, the first match wins. */
  method FindFile(base: nat, img: seq<Byte>, fStart: nat, count: nat, wanted: Name, ghost files: seq<FileNode>)
    returns (r: Option<File>)
    requires FilesAt(img, fStart, files) && NamedFiles(files) && count <= |files|
    requires base + |img| <= TWO32
    ensures Answers(base, img, r, FileNamed(files[..count], wanted))
  {
    hide FilesAt;
    hide FileRecAt;
    hide NamedFiles;
    hide FileOff;
    hide U32At;
    hide FileNamed;
    hide Answers;
    var currentOffs: nat := fStart;
    NoRecords(files);
    for i := 0 to count
      invariant currentOffs == fStart + FileOff(files, i)
      invariant forall j | 0 <= j < i :: files[j].name != wanted
    {
      FileFacts(img, fStart, files, i, currentOffs);
      var currentSvLen := U32At(img, currentOffs);
      if currentSvLen == 0 {
        return None;
      }
      var same := SameName(img, currentOffs + 4, currentSvLen, wanted);
      if same {
        FileFound(base, img, files, i, count, wanted, currentOffs);
        return Some(File(base + currentOffs, base + currentOffs + 4 + currentSvLen));
      }
      var contsLen := U32At(img, currentOffs + 4 + currentSvLen);
      currentOffs := currentOffs + 4 + currentSvLen + 4 + contsLen;
    }
    FileMissing(base, img, files, count, wanted);
    return None;
  }

  lemma NoRecords(files: seq<FileNode>)
    ensures FileOff(files, 0) == 0
  {
  }

  lemma NameReadable(img: seq<Byte>, off: nat, name: Name)
    requires NameAt(img, off, name)
    ensures off + 4 <= |img| && U32At(img, off) == |name|
  {
  }

  lemma SubReadable(img: seq<Byte>, dirStart: nat, subs: seq<SubDir>, i: nat)
    requires SubListAt(img, dirStart, subs) && i <= |subs|
    ensures dirStart + DirOff(subs, i) + 4 <= |img|
    ensures U32At(img, dirStart + DirOff(subs, i)) == if i < |subs| then |subs[i].name| else 0
    ensures i < |subs| ==> subs[i].name != []
  {
    hide DirOff;
    hide NameAt;
    hide U32At;
    if i < |subs| {
      SubIn(img, dirStart, subs, |subs|, i);
      NameReadable(img, dirStart + DirOff(subs, i), subs[i].name);
    }
  }

  lemma NoSubRecords(subs: seq<SubDir>)
    ensures DirOff(subs, 0) == 0
  {
  }

  lemma SubNameFacts(img: seq<Byte>, dirStart: nat, subs: seq<SubDir>, k: nat, pos: nat)
    requires SubListAt(img, dirStart, subs) && k < |subs| && pos == dirStart + DirOff(subs, k)
    ensures var n := |subs[k].name|;
      && pos + 4 + n <= |img| && U32At(img, pos) == n && img[pos + 4..pos + 4 + n] == subs[k].name
      && dirStart + DirOff(subs, k + 1) == pos + 4 + n + FPH_SIZE
  {
    hide U32At;
    SubIn(img, dirStart, subs, |subs|, k);
    NameReadable(img, pos, subs[k].name);
    StoredName(img, pos, subs[k].name);
    hide NameAt;
  }

  /** The scan of a directory list: at most `count` records and never past the end marker. */
  method FindSub(img: seq<Byte>, dirStart: nat, count: nat, wanted: Name, ghost subs: seq<SubDir>)
    returns (found: bool, entry: nat)
    requires SubListAt(img, dirStart, subs)
    ensures found <==> IndexOfSub(subs, wanted) < |subs| && IndexOfSub(subs, wanted) < count
    ensures found ==> entry == dirStart + DirOff(subs, IndexOfSub(subs, wanted))
  {
    hide DirOff;
    hide SubListAt;
    hide U32At;
    hide IndexOfSub;
    entry := dirStart;
    NoSubRecords(subs);
    for i := 0 to count
      invariant i <= |subs| && entry == dirStart + DirOff(subs, i)
      invariant forall j | 0 <= j < i :: subs[j].name != wanted
    {
      SubReadable(img, dirStart, subs, i);
      var currentSvLen := U32At(img, entry);
      if currentSvLen == 0 {
        NoFirstSub(subs, i, wanted);
        return false, entry;
      }
      SubNameFacts(img, dirStart, subs, i, entry);
      var same := SameName(img, entry + 4, currentSvLen, wanted);
      if same {
        FirstSub(subs, i, wanted);
        return true, entry;
      }
      entry := entry + 4 + currentSvLen + FPH_SIZE;
    }
    NoFirstSub(subs, count, wanted);
    return false, entry;
  }

  // ----- what an encoded directory offers the scans -----

  ghost predicate Readable(img: seq<Byte>, b: BuiltDir, d: Dir) {
    exists lo: nat :: Encodes(img, lo, b, d) && NonEmptyNames(d)
  }

  lemma ReadableLists(img: seq<Byte>, b: BuiltDir, d: Dir)
    requires Readable(img, b, d)
    ensures FilesAt(img, b.fstart, d.files) && NamedFiles(d.files) && SubListAt(img, b.dirstart, d.subs)
    ensures b.dirHdrAm == Low16(|d.subs|) && b.fAm == Low16(|d.files|)
  {
  }

  lemma SubsNonEmpty(d: Dir, k: nat)
    requires NonEmptyNames(d) && k < |d.subs|
    ensures d.subs[k].name != [] && NonEmptyNames(d.subs[k].dir)
  {
  }

  lemma SubEnd(subs: seq<SubDir>, k: nat)
    requires k < |subs|
    ensures DirOff(subs, k + 1) == DirOff(subs, k) + 4 + |subs[k].name| + FPH_SIZE
  {
  }

  lemma SubRecord(img: seq<Byte>, off: nat, subs: seq<SubDir>, k: nat)
    requires k < |subs| && SubNameAt(img, off, subs, k)
    ensures DirRecAt(img, off + DirOff(subs, k), subs[k].name, SubAt(img, off, subs, k))
  {
    hide NameAt;
    hide FixedPartAt;
    SubEnd(subs, k);
    hide DirOff;
  }

  lemma ReadableSub(img: seq<Byte>, b: BuiltDir, d: Dir, k: nat)
    requires Readable(img, b, d) && k < |d.subs|
    ensures SubNameAt(img, b.dirstart, d.subs, k) && b.dirstart + DirOff(d.subs, k + 1) <= |img|
    ensures DirRecAt(img, b.dirstart + DirOff(d.subs, k), d.subs[k].name, SubAt(img, b.dirstart, d.subs, k))
    ensures Readable(img, SubAt(img, b.dirstart, d.subs, k), d.subs[k].dir)
  {
    hide Encodes;
    hide SubAt;
    hide DirOff;
    hide NonEmptyNames;
    hide DirRecAt;
    hide NameAt;
    var lo: nat :| Encodes(img, lo, b, d);
    EncodedSub(img, lo, b, d, k);
    SubsNonEmpty(d, k);
    SubRecord(img, b.dirstart, d.subs, k);
  }

  /** What stands in the `k`th record of a directory list. */
  lemma SubFacts(img: seq<Byte>, b: BuiltDir, d: Dir, k: nat, pos: nat)
    requires Readable(img, b, d) && k < |d.subs| && pos == b.dirstart + DirOff(d.subs, k)
    ensures var n := |d.subs[k].name|;
      && n > 0 && pos + 4 + n + FPH_SIZE <= |img| && U32At(img, pos) == n
      && img[pos + 4..pos + 4 + n] == d.subs[k].name
      && b.dirstart + DirOff(d.subs, k + 1) == pos + 4 + n + FPH_SIZE
      && Readable(img, FixedPartAt(img, pos + 4 + n), d.subs[k].dir)
  {
    ReadableLists(img, b, d);
    ReadableSub(img, b, d, k);
    hide Readable;
    hide U32At;
    hide SubListAt;
    RecordFields(img, pos, d.subs[k].name, SubAt(img, b.dirstart, d.subs, k));
    StoredName(img, pos, d.subs[k].name);
    SubReadable(img, b.dirstart, d.subs, k);
  }

  lemma CountedSub(d: Dir, k: nat)
    requires k < Low16(|d.subs|)
    ensures k < |CountedView(d).subs| && CountedView(d).subs[k] == SubDir(d.subs[k].name, CountedView(d.subs[k].dir))
  {
  }

  lemma RecordFields(img: seq<Byte>, off: nat, name: Name, b: BuiltDir)
    requires DirRecAt(img, off, name, b)
    ensures off + 4 + |name| + FPH_SIZE <= |img| && U32At(img, off) == |name|
    ensures FixedPartAt(img, off + 4 + |name|) == b
  {
  }

  /** `findInDir` on the counted view, in terms of the directory itself. */
  lemma FindFileStep(d: Dir, fn: seq<Byte>)
    requires FindSlash(fn) == 0
    ensures TreeFindInDir(CountedView(d), fn, false) == FileNamed(d.files[..Low16(|d.files|)], fn)
  {
  }

  lemma FindSubStep(d: Dir, fn: seq<Byte>, isDir: bool)
    requires FindSlash(fn) != 0 || isDir
    ensures var nameLen := if FindSlash(fn) != 0 then FindSlash(fn) else |fn|;
      var k := IndexOfSub(d.subs, fn[..nameLen]);
      TreeFindInDir(CountedView(d), fn, isDir) ==
      if k < Low16(|d.subs|) && |fn| > nameLen + 1
      then TreeFindInDir(CountedView(d.subs[k].dir), fn[nameLen + 1..], FindSlash(fn[nameLen + 1..]) != 0)
      else None
  {
    var nameLen := if FindSlash(fn) != 0 then FindSlash(fn) else |fn|;
    SubNamedUpTo(d, fn[..nameLen]);
    var k := IndexOfSub(d.subs, fn[..nameLen]);
    if k < Low16(|d.subs|) {
      CountedSub(d, k);
    }
  }

  lemma NotAbsolute(d: Dir, path: seq<Byte>)
    requires path == [] || path[0] != SLASH
    ensures TreeOpen(CountedView(d), path) == None
  {
  }

  /** `open` of an absolute path on the counted view, in terms of the directory itself. */
  lemma OpenStep(d: Dir, path: seq<Byte>)
    requires path != [] && path[0] == SLASH
    ensures var parts, fs := Comps(path[1..]), FindSlash(path[1..]);
      TreeOpen(CountedView(d), path) ==
      if parts == [] then None
      else if |parts| == 1 then FileNamed(d.files[..Low16(|d.files|)], parts[0])
      else
        var k := IndexOfSub(d.subs, parts[0]);
        if k < Low16(|d.subs|) && fs != 0
        then TreeFindInDir(CountedView(d.subs[k].dir), path[fs + 2..], FindSlash(path[fs + 2..]) != 0)
        else None
  {
    hide Comps;
    hide TreeFindInDir;
    var parts := Comps(path[1..]);
    if |parts| > 1 {
      SubNamedUpTo(d, parts[0]);
      var k := IndexOfSub(d.subs, parts[0]);
      if k < Low16(|d.subs|) {
        CountedSub(d, k);
      }
    }
  }

  lemma DirItStart(d: Dir, path: seq<Byte>, count: nat)
    ensures TreeDirIt(d, path, count)
         == if path == [] || path[0] != SLASH then None else TreeWalkDirs(d, path[1..], count)
  {
  }

  lemma WalkDirsStep(d: Dir, fp: seq<Byte>, count: nat)
    requires fp != []
    ensures var len := SegLen(fp);
      var k := IndexOfSub(d.subs, fp[..len]);
      TreeWalkDirs(d, fp, count) ==
      if len > 0 && k < |d.subs| && k < count
      then TreeWalkDirs(d.subs[k].dir, if len < |fp| then fp[len + 1..] else fp[len..], count)
      else None
    ensures SegLen(fp) < |fp| ==> fp[SegLen(fp)] == SLASH
  {
  }

  lemma WalkDirsDone(d: Dir, count: nat)
    ensures TreeWalkDirs(d, [], count) == Some(d)
  {
  }

  /** `findChar` for the separator: 0 both when it comes first and when it is missing. */
  method FindChar(str: seq<Byte>) returns (pos: nat)
    ensures pos == FindSlash(str)
  {
    for i := 0 to |str|
      invariant SLASH !in str[..i]
    {
      if str[i] == SLASH {
        assert str == str[..i] + str[i..];
        SegLenOf(str[..i], str[i..]);
        return i;
      }
    }
    assert str == str[..|str|];
    return 0;
  }

  class RivFs {
    const rawFsMemloc: nat
    const img: seq<Byte>
    var fph: nat  // offset of the file position header, 0 while unchecked

    constructor (memloc: nat, data: seq<Byte>)
      ensures rawFsMemloc == memloc && img == data && fph == 0
    {
      rawFsMemloc, img, fph := memloc, data, 0;
    }

    /** A checked image of the tree `d` lies in memory. */
    ghost predicate Holds(d: Dir)
      reads this
    {
      ImageOf(img, d) && NonEmptyNames(d) && rawFsMemloc + |img| <= TWO32 && fph == HEADER_SIZE
    }

    /** Every built image passes the check, and then the driver holds its tree. */
    method CheckCorrectness() returns (ok: bool)
      requires |img| >= HEADER_SIZE && U32At(img, 9) + FPH_SIZE <= |img|
      modifies this
      ensures var f := FixedPartAt(img, U32At(img, 9));
        ok <==> (img[..5] == MAGIC && U32At(img, 5) == FPH_SIZE && U32At(img, 9) != 0 && U32At(img, 15) % 2 == 1
                 && f.dirstart != 0 && f.fstart != 0)
      ensures forall d | ImageOf(img, d) && NonEmptyNames(d) && rawFsMemloc + |img| <= TWO32 :: ok && Holds(d)
    {
      if img[..5] != MAGIC {
        return false;
      }
      if U32At(img, 5) != FPH_SIZE {
        return false;
      }
      var fphPos := U32At(img, 9);
      if fphPos == 0 {
        return false;
      }
      if U32At(img, 15) % 2 == 0 {
        return false;
      }
      fph := fphPos;
      return FixedPartAt(img, fph).dirstart != 0 && FixedPartAt(img, fph).fstart != 0;
    }

    /** Looks a remaining path up below the directory whose record is at `dirEntry`. */
    method FindInDir(dirEntry: nat, fn: seq<Byte>, isDir: bool, ghost name: Name, ghost b: BuiltDir, ghost d: Dir)
      returns (r: Option<File>)
      requires rawFsMemloc + |img| <= TWO32
      requires DirRecAt(img, dirEntry, name, b) && Readable(img, b, d)
      ensures Answers(rawFsMemloc, img, r, TreeFindInDir(CountedView(d), fn, isDir))
      decreases d
    {
      hide *;
      RecordFields(img, dirEntry, name, b);
      var slashPos := FindChar(fn);
      var hasSlash := slashPos != 0;
      var nameLen := if hasSlash then slashPos else |fn|;
      var needed := fn[..nameLen];
      var latter := FixedPartAt(img, dirEntry + 4 + U32At(img, dirEntry));
      ReadableLists(img, b, d);
      if !hasSlash && !isDir {
        FindFileStep(d, fn);
        assert needed == fn;
        r := FindFile(rawFsMemloc, img, latter.fstart, latter.fAm, needed, d.files);
      } else {
        FindSubStep(d, fn, isDir);
        var found, childDirEntry := FindSub(img, latter.dirstart, latter.dirHdrAm, needed, d.subs);
        if !found {
          return NotFound();
        }
        var consumed := nameLen + 1;
        if |fn| <= consumed {
          return NotFound();
        }
        var remaining := fn[consumed..];
        var remainingSlash := FindChar(remaining);
        ghost var k := IndexOfSub(d.subs, needed);
        ReadableSub(img, b, d, k);
        r := FindInDir(childDirEntry, remaining, remainingSlash != 0, d.subs[k].name,
                       SubAt(img, b.dirstart, d.subs, k), d.subs[k].dir);
      }
    }

    function NotFound(): (r: Option<File>)
      ensures Answers(rawFsMemloc, img, r, None)
    {
      None
    }

    /** Splits a path into its non-empty components, each marked when a separator follows it. */
    method SplitPath(fp: seq<Byte>) returns (parts: seq<FilePart>)
      ensures |parts| == |Comps(fp)| && forall i | 0 <= i < |parts| :: parts[i].sv == Comps(fp)[i]
      ensures |parts| > 1 ==> parts[0].isDir
    {
      hide *;
      parts := [];
      ghost var names: seq<Name> := [];
      var p := 0;
      while p < |fp|
        invariant p <= |fp| && |parts| == |names| && Comps(fp) == names + Comps(fp[p..])
        invariant forall i | 0 <= i < |parts| :: parts[i].sv == names[i]
        invariant |parts| > 0 && !parts[0].isDir ==> |parts| == 1 && p == |fp|
      {
        var len := 0;
        while p + len < |fp| && fp[p + len] != SLASH
          invariant p + len <= |fp| && SLASH !in fp[p..p + len]
        {
          len := len + 1;
        }
        if len == 0 {
          SkipSlash(fp, p);
          p := p + 1;
        } else {
          TakeComp(names, fp, p, len);
          names := names + [fp[p..p + len]];
          parts := parts + [FilePart(fp[p..p + len], p + len < |fp|)];
          p := p + len;
          if p < |fp| && fp[p] == SLASH {
            SkipSlash(fp, p);
            p := p + 1;
          }
        }
      }
      NoComps();
      assert fp[p..] == [];
    }

    lemma SameSlice(fp: seq<Byte>, p: nat, len: nat)
      requires p + len <= |fp|
      ensures fp[p..][..len] == fp[p..p + len] && fp[p..][len..] == fp[p + len..]
    {
    }

    lemma SkipSlash(fp: seq<Byte>, p: nat)
      requires p < |fp| && fp[p] == SLASH
      ensures Comps(fp[p..]) == Comps(fp[p + 1..])
    {
      CompsSkip(fp[p..]);
      SameSlice(fp, p, 1);
      hide Comps;
    }

    lemma TakeComp(names: seq<Name>, fp: seq<Byte>, p: nat, len: nat)
      requires 0 < len && p + len <= |fp| && SLASH !in fp[p..p + len] && (p + len < |fp| ==> fp[p + len] == SLASH)
      ensures names + Comps(fp[p..]) == names + [fp[p..p + len]] + Comps(fp[p + len..])
    {
      hide Comps;
      SameSlice(fp, p, len);
      CompsTake(fp[p..], len);
      assert names + ([fp[p..p + len]] + Comps(fp[p + len..])) == names + [fp[p..p + len]] + Comps(fp[p + len..]);
    }

    lemma NoComps()
      ensures Comps([]) == []
    {
    }

    /** `open`, for every path string: the answer `TreeOpen` gives on what the counts let the driver
        see of the tree. */
    method Open(path: seq<Byte>, ghost d: Dir) returns (r: Option<File>)
      requires Holds(d)
      ensures Answers(rawFsMemloc, img, r, TreeOpen(CountedView(d), path))
    {
      hide *;
      RootReadable(d);
      if path == [] || path[0] != SLASH {
        NotAbsolute(d, path);
        return NotFound();
      }
      var fp := path[1..];
      var svArr := SplitPath(fp);
      if |svArr| == 0 {
        OpenStep(d, path);
        return NotFound();
      }
      var root := FixedPartAt(img, fph);
      ReadableLists(img, root, d);
      OpenStep(d, path);
      if |svArr| == 1 {
        r := FindFile(rawFsMemloc, img, root.fstart, root.fAm, svArr[0].sv, d.files);
      } else if svArr[0].isDir {
        var found, newDirEntry := FindSub(img, root.dirstart, root.dirHdrAm, svArr[0].sv, d.subs);
        if !found {
          return NotFound();
        }
        var firstSlash := FindChar(fp);
        if firstSlash == 0 {
          return NotFound();
        }
        var newFp := path[firstSlash + 2..];
        var remainingSlash := FindChar(newFp);
        ghost var k := IndexOfSub(d.subs, svArr[0].sv);
        ReadableSub(img, root, d, k);
        r := FindInDir(newDirEntry, newFp, remainingSlash != 0, d.subs[k].name,
                       SubAt(img, root.dirstart, d.subs, k), d.subs[k].dir);
      } else {
        r := NotFound();
      }
    }

    lemma RootReadable(d: Dir)
      requires Holds(d)
      ensures fph == HEADER_SIZE && fph + FPH_SIZE <= |img| && rawFsMemloc + |img| <= TWO32
      ensures Readable(img, FixedPartAt(img, fph), d)
    {
    }

    method Filesize(f: File, ghost node: FileNode) returns (n: U32)
      requires HandleOf(rawFsMemloc, img, f, node)
      ensures n == |node.data|
    {
      n := U32At(img, f.contsSvPos - rawFsMemloc);
    }

    /** Copies a file's bytes and one terminating zero, which needs a byte more than the file. */
    method Read(f: File, obuf: array<Byte>, ghost node: FileNode)
      requires HandleOf(rawFsMemloc, img, f, node) && obuf.Length > |node.data|
      modifies obuf
      ensures obuf[..|node.data|] == node.data && obuf[|node.data|] == 0
      ensures obuf[|node.data| + 1..] == old(obuf[|node.data| + 1..])
    {
      var start := f.startPos - rawFsMemloc;
      var src := start + U32At(img, start) + 8;
      var len := Filesize(f, node);
      ghost var was := obuf[..];
      assert img[src..src + len] == node.data;
      for i := 0 to len
        invariant obuf[..i] == node.data[..i] && obuf[i..] == was[i..]
      {
        assert img[src..src + len][i] == img[src + i];
        assert obuf[i + 1..] == obuf[i..][1..] == was[i..][1..] == was[i + 1..];
        obuf[i] := img[src + i];
        assert node.data[..i + 1] == node.data[..i] + [img[src + i]];
      }
      assert obuf[len + 1..] == obuf[len..][1..] == was[len + 1..];
      obuf[len] := 0;
      assert node.data[..len] == node.data;
    }

    /** `strlenSpecChar` for the separator. */
    method StrlenSpecChar(str: seq<Byte>) returns (len: nat)
      ensures len == SegLen(str)
    {
      len := 0;
      while len < |str| && str[len] != SLASH
        invariant len <= |str| && SLASH !in str[..len]
      {
        len := len + 1;
      }
      SegLenIs(str, len);
    }

    /** An iterator over the directory that `TreeDirIt` finds with the root's count. */
    method GetDirIt(fp: seq<Byte>, ghost d: Dir) returns (r: DirIterator?)
      requires Holds(d)
      ensures r != null <==> TreeDirIt(d, fp, Low16(|d.subs|)).Some?
      ensures r != null ==> fresh(r) && r.Valid(img) && r.dir == TreeDirIt(d, fp, Low16(|d.subs|)).value
      ensures r != null ==> r.dirsDone == 0 && r.filesDone == 0
    {
      hide *;
      RootReadable(d);
      DirItStart(d, fp, Low16(|d.subs|));
      if fp == [] || fp[0] != SLASH {
        return null;
      }
      var latter := FixedPartAt(img, fph);
      ReadableLists(img, latter, d);
      ghost var cur := d;
      var dirCount := latter.dirHdrAm;
      var p := 1;
      while p < |fp|
        invariant p <= |fp| && Readable(img, latter, cur)
        invariant TreeWalkDirs(cur, fp[p..], dirCount) == TreeDirIt(d, fp, Low16(|d.subs|))
      {
        var rest := fp[p..];
        var len := StrlenSpecChar(rest);
        WalkDirsStep(cur, rest, dirCount);
        if len == 0 {
          return null;
        }
        ReadableLists(img, latter, cur);
        var found, entry := FindSub(img, latter.dirstart, dirCount, rest[..len], cur.subs);
        if !found {
          return null;
        }
        ghost var k := IndexOfSub(cur.subs, rest[..len]);
        ReadableSub(img, latter, cur, k);
        RecordFields(img, entry, cur.subs[k].name, SubAt(img, latter.dirstart, cur.subs, k));
        latter := FixedPartAt(img, entry + 4 + U32At(img, entry));
        cur := cur.subs[k].dir;
        p := p + len;
        assert rest[len..] == fp[p..];
        if p < |fp| && fp[p] == SLASH {
          p := p + 1;
          assert rest[len + 1..] == fp[p..];
        }
      }
      assert fp[p..] == [];
      WalkDirsDone(cur, dirCount);
      r := NewIterator(latter, cur);
    }

    method NewIterator(b: BuiltDir, ghost d: Dir) returns (r: DirIterator)
      requires Readable(img, b, d)
      ensures fresh(r) && r.Valid(img) && r.dir == d && r.dirsDone == 0 && r.filesDone == 0
    {
      ReadableLists(img, b, d);
      r := new DirIterator(b, d);
    }

    /** Hands out the next subdirectory, or fails when none is left. */
    method DirItGetNextDir(dirit: DirIterator) returns (r: Option<DirData>)
      requires dirit.Valid(img)
      modifies dirit
      ensures dirit.Valid(img) && dirit.dir == old(dirit.dir) && dirit.at == old(dirit.at)
      ensures dirit.filesDone == old(dirit.filesDone)
      ensures var n := old(dirit.dirsDone);
        if n < Low16(|dirit.dir.subs|)
        then r.Some? && r.value.dirname == dirit.dir.subs[n].name && dirit.dirsDone == n + 1
             && RecordFor(r.value, dirit.dir.subs[n])
        else r.None? && dirit.dirsDone == n
    {
      hide Readable;
      hide DirOff;
      hide FileOff;
      hide U32At;
      hide FixedPartAt;
      if dirit.dirsRemaining > 0 {
        SubFacts(img, dirit.at, dirit.dir, dirit.dirsDone, dirit.dirPos);
        dirit.dirsRemaining := dirit.dirsRemaining - 1;
        var svLen := U32At(img, dirit.dirPos);
        if svLen == 0 {
          assert false;  // the end marker: never reached, the counts of a built image are not too high
        }
        var startPos := dirit.dirPos;
        dirit.dirPos := dirit.dirPos + 4;
        var dirname := img[dirit.dirPos..dirit.dirPos + svLen];
        dirit.dirPos := dirit.dirPos + svLen;
        var constPos := dirit.dirPos;
        dirit.dirPos := dirit.dirPos + FPH_SIZE;
        dirit.dirsDone := dirit.dirsDone + 1;
        return Some(DirData(dirname, startPos, constPos));
      }
      return None;
    }

    /** The fixed part behind the name leads to the lists of the directory. */
    ghost predicate RecordFor(dd: DirData, s: SubDir) {
      && dd.constPos + FPH_SIZE <= |img|
      && Readable(img, FixedPartAt(img, dd.constPos), s.dir)
    }

    /** Calling until it fails hands out every name the count covers, in build order, and leaves an
        iterator on which further calls fail too. */
    method DrainDirs(dirit: DirIterator) returns (names: seq<Name>)
      requires dirit.Valid(img) && dirit.dirsDone == 0
      modifies dirit
      ensures dirit.Valid(img) && dirit.dir == old(dirit.dir)
      ensures |names| == Low16(|dirit.dir.subs|) && dirit.dirsDone == |names|
      ensures forall k | 0 <= k < |names| :: names[k] == dirit.dir.subs[k].name
    {
      names := [];
      while true
        invariant dirit.Valid(img) && dirit.dir == old(dirit.dir) && |names| == dirit.dirsDone
        invariant dirit.dirsDone <= Low16(|dirit.dir.subs|)
        invariant forall k | 0 <= k < |names| :: names[k] == dirit.dir.subs[k].name
        decreases Low16(|dirit.dir.subs|) - dirit.dirsDone
      {
        var next := DirItGetNextDir(dirit);
        if next.None? {
          return;
        }
        names := names + [next.value.dirname];
      }
    }

    /** Hands out the next file. Its `startPos` is relative while its `contsSvPos` is absolute, so it
        is a handle like those of `Open` only for an image loaded at address 0. */
    method DirItGetNextFile(dirit: DirIterator) returns (r: Option<FileData>)
      requires dirit.Valid(img) && rawFsMemloc + |img| <= TWO32
      modifies dirit
      ensures dirit.Valid(img) && dirit.dir == old(dirit.dir) && dirit.at == old(dirit.at)
      ensures dirit.dirsDone == old(dirit.dirsDone)
      ensures var n := old(dirit.filesDone);
        if n < Low16(|dirit.dir.files|)
        then r.Some? && r.value.filename == dirit.dir.files[n].name && dirit.filesDone == n + 1
             && FileRecAt(img, r.value.file.startPos, dirit.dir.files[n])
             && r.value.file.contsSvPos == rawFsMemloc + r.value.file.startPos + 4 + |r.value.filename|
             && (HandleOf(rawFsMemloc, img, r.value.file, dirit.dir.files[n]) <==> rawFsMemloc == 0)
        else r.None? && dirit.filesDone == n
    {
      hide Readable;
      hide DirOff;
      hide FileOff;
      hide U32At;
      hide FileRecAt;
      hide FilesAt;
      hide NamedFiles;
      if dirit.filesRemaining > 0 {
        ReadableLists(img, dirit.at, dirit.dir);
        FileFacts(img, dirit.at.fstart, dirit.dir.files, dirit.filesDone, dirit.filePos);
        dirit.filesRemaining := dirit.filesRemaining - 1;
        var svLen := U32At(img, dirit.filePos);
        if svLen == 0 {
          assert false;  // the end marker: never reached, the counts of a built image are not too high
        }
        var startPos := dirit.filePos;
        dirit.filePos := dirit.filePos + 4;
        var filename := img[dirit.filePos..dirit.filePos + svLen];
        dirit.filePos := dirit.filePos + svLen;
        var contsSvPos := rawFsMemloc + dirit.filePos;
        var contsLen := U32At(img, dirit.filePos);
        dirit.filePos := dirit.filePos + 4;
        dirit.filePos := dirit.filePos + contsLen;
        dirit.filesDone := dirit.filesDone + 1;
        return Some(FileData(filename, File(startPos, contsSvPos)));
      }
      return None;
    }

    /** Opens a file of a directory that an iterator handed out. */
    method OpenFileInDirData(dd: DirData, fn: Name, ghost s: SubDir) returns (r: Option<File>)
      requires RecordFor(dd, s) && rawFsMemloc + |img| <= TWO32
      ensures Answers(rawFsMemloc, img, r, FileNamed(CountedView(s.dir).files, fn))
    {
      hide Readable;
      var latter := FixedPartAt(img, dd.constPos);
      ReadableLists(img, latter, s.dir);
      r := FindFile(rawFsMemloc, img, latter.fstart, latter.fAm, fn, s.dir.files);
    }
  }
}
