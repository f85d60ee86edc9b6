/** The reference reader: walks an image by offsets, stopping each list at its end marker, and
    reports any read outside the image. It is total: every byte string is either read as a tree or
    rejected. Names are compared as bytes. */
module RivFsData {
  import opened Bytes
  import opened FileTree
  import opened RivLayout

  datatype Error = Corrupt | RecursionLimit
  datatype Result<+T> = Ok(value: T) | Err(error: Error)

  /** A length-prefixed name, or `None` at an end marker, with the offset behind it. */
  method ReadName(img: seq<Byte>, off: nat) returns (r: Result<(Option<Name>, nat)>)
    ensures r.Ok? && r.value.0.None? ==> EofAt(img, off) && r.value.1 == off + 4
    ensures r.Ok? && r.value.0.Some? ==>
      var n := r.value.0.value;
      n != [] && NameAt(img, off, n) && r.value.1 == off + 4 + |n|
    ensures r.Err? ==> !EofAt(img, off) && forall n: Name | n != [] :: !NameAt(img, off, n)
  {
    if off + 4 > |img| {
      return Err(Corrupt);
    }
    var length := U32At(img, off);
    if length == 0 {
      return Ok((None, off + 4));
    }
    if off + 4 + length > |img| {
      return Err(Corrupt);
    }
    return Ok((Some(img[off + 4..off + 4 + length]), off + 4 + length));
  }

  // ----- lists read record by record -----

  lemma {:induction false} FileOffPrefix(files: seq<FileNode>, f: FileNode, k: nat)
    requires k <= |files|
    ensures FileOff(files + [f], k) == FileOff(files, k)
  {
    if k > 0 {
      FileOffPrefix(files, f, k - 1);
    }
  }

  lemma {:induction false} DirOffPrefix(subs: seq<SubDir>, s: SubDir, k: nat)
    requires k <= |subs|
    ensures DirOff(subs + [s], k) == DirOff(subs, k)
  {
    if k > 0 {
      DirOffPrefix(subs, s, k - 1);
    }
  }

  ghost predicate FilesRead(img: seq<Byte>, start: nat, off: nat, files: seq<FileNode>) {
    && off == start + FileOff(files, |files|)
    && (forall k | 0 <= k < |files| :: FileAt(img, start, files, k))
    && NamedFiles(files)
  }

  lemma NothingRead(img: seq<Byte>, start: nat)
    ensures FilesRead(img, start, start, [])
  {
  }

  lemma ReadOneMore(img: seq<Byte>, start: nat, off: nat, files: seq<FileNode>, f: FileNode)
    requires FilesRead(img, start, off, files) && FileRecAt(img, off, f) && f.name != []
    ensures FilesRead(img, start, off + FileSize(f), files + [f])
  {
    FileOffPrefix(files, f, |files|);
    forall k | 0 <= k < |files + [f]| ensures FileAt(img, start, files + [f], k) {
      if k < |files| {
        FileInPrefix(img, start, files, |files|, k);
        FileOffPrefix(files, f, k);
      }
    }
  }

  /** Wherever a reader stands in a list, the list continues with a record or the end marker. */
  lemma FilesContinue(img: seq<Byte>, start: nat, off: nat, files: seq<FileNode>, all: seq<FileNode>)
    requires FilesRead(img, start, off, files) && FilesAt(img, start, all) && NamedFiles(all)
    ensures EofAt(img, off) || (|files| < |all| && all[|files|].name != [] && FileRecAt(img, off, all[|files|]))
  {
    FilesAgree(img, start, files, all, |files|);
    if |files| < |all| {
      FileIn(img, start, all, |files|);
    }
  }

  method WalkFiles(img: seq<Byte>, fstart: nat) returns (r: Result<seq<FileNode>>)
    ensures r.Ok? ==> FilesAt(img, fstart, r.value) && NamedFiles(r.value)
    ensures r.Err? ==> forall fs: seq<FileNode> | NamedFiles(fs) :: !FilesAt(img, fstart, fs)
  {
    hide U32At;
    hide NamedFiles;
    NothingRead(img, fstart);
    var off := fstart;
    var files: seq<FileNode> := [];
    while true
      invariant FilesRead(img, fstart, off, files)
      decreases |img| - off
    {
      forall fs: seq<FileNode> | NamedFiles(fs) && FilesAt(img, fstart, fs)
        ensures EofAt(img, off) || (|files| < |fs| && fs[|files|].name != [] && FileRecAt(img, off, fs[|files|]))
      {
        FilesContinue(img, fstart, off, files, fs);
      }
      var name := ReadName(img, off);
      if name.Err? {
        return Err(name.error);
      }
      if name.value.0.None? {
        return Ok(files);
      }
      var afterName := name.value.1;
      if afterName + 4 > |img| {
        return Err(Corrupt);
      }
      var filesize := U32At(img, afterName);
      var contentOff := afterName + 4;
      if contentOff + filesize > |img| {
        return Err(Corrupt);
      }
      var f := FileNode(name.value.0.value, img[contentOff..contentOff + filesize]);
      ReadOneMore(img, fstart, off, files, f);
      files := files + [f];
      off := contentOff + filesize;
    }
  }

  // ----- directories -----

  ghost predicate SubsRead(img: seq<Byte>, start: nat, off: nat, subs: seq<SubDir>) {
    && off == start + DirOff(subs, |subs|)
    && (forall k | 0 <= k < |subs| :: SubNameAt(img, start, subs, k))
    && forall k | 0 <= k < |subs| :: subs[k].name != []
  }

  /** What is known of the subtrees read so far. */
  ghost predicate TreesRead(img: seq<Byte>, start: nat, subs: seq<SubDir>, limit: nat) {
    forall k {:trigger SubNameAt(img, start, subs, k)} | 0 <= k < |subs| ::
      && SubNameAt(img, start, subs, k)
      && SubRead(img, SubAt(img, start, subs, k), subs[k].dir, limit)
  }

  ghost predicate SubRead(img: seq<Byte>, b: BuiltDir, d: Dir, limit: nat) {
    TreeAt(img, b, d) && NonEmptyNames(d) && limit > 0 && HeightAtMost(d, limit - 1)
  }

  lemma EarlierSub(img: seq<Byte>, start: nat, subs: seq<SubDir>, s: SubDir, limit: nat, k: nat)
    requires k < |subs| && TreesRead(img, start, subs, limit) && SubNameAt(img, start, subs, k)
    ensures SubNameAt(img, start, subs + [s], k)
    ensures SubRead(img, SubAt(img, start, subs + [s], k), subs[k].dir, limit)
  {
    DirOffPrefix(subs, s, k);
    DirOffPrefix(subs, s, k + 1);
  }

  lemma LastDirOff(subs: seq<SubDir>, s: SubDir)
    ensures DirOff(subs + [s], |subs|) == DirOff(subs, |subs|)
    ensures DirOff(subs + [s], |subs| + 1) == DirOff(subs, |subs|) + DirRecSize(s)
  {
    DirOffPrefix(subs, s, |subs|);
  }

  lemma LastSub(img: seq<Byte>, start: nat, off: nat, subs: seq<SubDir>, s: SubDir)
    requires off == start + DirOff(subs, |subs|)
    requires NameAt(img, off, s.name) && off + DirRecSize(s) <= |img|
    ensures SubNameAt(img, start, subs + [s], |subs|)
    ensures SubAt(img, start, subs + [s], |subs|) == FixedPartAt(img, off + 4 + |s.name|)
  {
    hide NameAt;
    hide DirOff;
    hide FixedPartAt;
    LastDirOff(subs, s);
  }

  lemma ReadOneMoreSub(img: seq<Byte>, start: nat, off: nat, subs: seq<SubDir>, s: SubDir, limit: nat)
    requires SubsRead(img, start, off, subs) && TreesRead(img, start, subs, limit)
    requires NameAt(img, off, s.name) && s.name != [] && off + DirRecSize(s) <= |img|
    requires SubRead(img, FixedPartAt(img, off + 4 + |s.name|), s.dir, limit)
    ensures SubsRead(img, start, off + DirRecSize(s), subs + [s]) && TreesRead(img, start, subs + [s], limit)
  {
    var subs' := subs + [s];
    LastDirOff(subs, s);
    LastSub(img, start, off, subs, s);
    forall k | 0 <= k < |subs'|
      ensures SubNameAt(img, start, subs', k) && SubRead(img, SubAt(img, start, subs', k), subs'[k].dir, limit)
    {
      if k < |subs| {
        SubIn(img, start, subs, |subs|, k);
        EarlierSub(img, start, subs, s, limit, k);
      }
    }
  }

  /** `d` is a tree the walk from `b` has to return. */
  ghost predicate Wanted(img: seq<Byte>, b: BuiltDir, d: Dir, limit: nat) {
    TreeAt(img, b, d) && NonEmptyNames(d) && HeightAtMost(d, limit)
  }

  lemma WantedLists(img: seq<Byte>, b: BuiltDir, d: Dir, limit: nat)
    requires Wanted(img, b, d, limit)
    ensures FilesAt(img, b.fstart, d.files) && NamedFiles(d.files)
    ensures SubListAt(img, b.dirstart, d.subs)
  {
  }

  lemma WantedSub(img: seq<Byte>, b: BuiltDir, d: Dir, limit: nat, k: nat)
    requires Wanted(img, b, d, limit) && k < |d.subs|
    ensures limit > 0 && SubNameAt(img, b.dirstart, d.subs, k) && d.subs[k].name != []
    ensures Wanted(img, SubAt(img, b.dirstart, d.subs, k), d.subs[k].dir, limit - 1)
  {
  }

  /** Wherever the walk stands in a directory list, a wanted tree continues there with the end marker
      or with a record whose subtree is wanted one level down. */
  lemma SubsContinue(img: seq<Byte>, b: BuiltDir, d: Dir, limit: nat, off: nat, subs: seq<SubDir>)
    requires SubsRead(img, b.dirstart, off, subs) && Wanted(img, b, d, limit)
    ensures !EofAt(img, off) ==>
      && limit > 0 && |subs| < |d.subs| && d.subs[|subs|].name != [] && NameAt(img, off, d.subs[|subs|].name)
      && off + DirRecSize(d.subs[|subs|]) <= |img|
      && Wanted(img, FixedPartAt(img, off + 4 + |d.subs[|subs|].name|), d.subs[|subs|].dir, limit - 1)
  {
    WantedLists(img, b, d, limit);
    SubNamesAgree(img, b.dirstart, subs, d.subs, |subs|);
    if |subs| < |d.subs| {
      WantedSub(img, b, d, limit, |subs|);
    }
  }

  lemma ReadIsWanted(img: seq<Byte>, b: BuiltDir, files: seq<FileNode>, subs: seq<SubDir>, limit: nat, off: nat)
    requires FilesAt(img, b.fstart, files) && NamedFiles(files)
    requires SubsRead(img, b.dirstart, off, subs) && TreesRead(img, b.dirstart, subs, limit) && EofAt(img, off)
    ensures Wanted(img, b, Dir(files, subs), limit)
  {
    var d := Dir(files, subs);
    forall k | 0 <= k < |d.subs|
      ensures SubNameAt(img, b.dirstart, d.subs, k)
      ensures SubRead(img, SubAt(img, b.dirstart, d.subs, k), d.subs[k].dir, limit)
    {
      SubIn(img, b.dirstart, subs, |subs|, k);
    }
  }

  /** Reads the directory at `b`. `limit` is how many more nested calls the interpreter allows. The
      walk returns a tree exactly when one is spelled out at `b` that is not nested more deeply, and
      that tree is the only one there. */
  method Walk(img: seq<Byte>, b: BuiltDir, limit: nat) returns (r: Result<Dir>)
    ensures r.Ok? ==> Wanted(img, b, r.value, limit)
    ensures r.Err? ==> forall d :: !Wanted(img, b, d, limit)
    decreases limit
  {
    var fileList := WalkFiles(img, b.fstart);
    if fileList.Err? {
      forall d | Wanted(img, b, d, limit) ensures false {
        WantedLists(img, b, d, limit);
      }
      return Err(fileList.error);
    }
    var off := b.dirstart;
    var subs: seq<SubDir> := [];
    while true
      invariant SubsRead(img, b.dirstart, off, subs) && TreesRead(img, b.dirstart, subs, limit)
      decreases |img| - off
    {
      var name := ReadName(img, off);
      if name.Ok? && name.value.0.None? {
        ReadIsWanted(img, b, fileList.value, subs, limit, off);
        return Ok(Dir(fileList.value, subs));
      }
      forall d | Wanted(img, b, d, limit) && !EofAt(img, off)
        ensures limit > 0 && |subs| < |d.subs| && NameAt(img, off, d.subs[|subs|].name)
        ensures d.subs[|subs|].name != [] && off + DirRecSize(d.subs[|subs|]) <= |img|
        ensures Wanted(img, FixedPartAt(img, off + 4 + |d.subs[|subs|].name|), d.subs[|subs|].dir, limit - 1)
      {
        SubsContinue(img, b, d, limit, off, subs);
      }
      if name.Err? {
        return Err(name.error);
      }
      var afterName := name.value.1;
      if afterName + FPH_SIZE > |img| {
        return Err(Corrupt);
      }
      if limit == 0 {
        return Err(RecursionLimit);
      }
      var fixed := FixedPartAt(img, afterName);
      var sub := Walk(img, fixed, limit - 1);
      if sub.Err? {
        return Err(sub.error);
      }
      var s := SubDir(name.value.0.value, sub.value);
      ReadOneMoreSub(img, b.dirstart, off, subs, s, limit);
      subs := subs + [s];
      off := afterName + FPH_SIZE;
    }
  }

  // ----- the header, and whole images -----

  /** The root's fixed part, if the header is acceptable: the magic, a set read-only flag, and the
      offset of the root record. The declared sizes and versions only cause warnings. */
  function ParseHeader(img: seq<Byte>): (r: Result<BuiltDir>)
    ensures HeaderAt(img) ==> r == Ok(FixedPartAt(img, HEADER_SIZE))
    ensures |img| < HEADER_SIZE || img[..5] != MAGIC || U32At(img, 15) % 2 == 0 ==> r.Err?
  {
    if |img| < HEADER_SIZE then Err(Corrupt)
    else if img[..5] != MAGIC then Err(Corrupt)
    else if U32At(img, 15) % 2 == 0 then Err(Corrupt)
    else
      var pos := U32At(img, 9);
      if pos + FPH_SIZE > |img| then Err(Corrupt) else Ok(FixedPartAt(img, pos))
  }

  /** Opening an image. On every image of a tree the result is that tree, unless it is nested more
      deeply than the interpreter can follow. */
  method ReadImage(img: seq<Byte>, limit: nat) returns (r: Result<Dir>)
    ensures r.Ok? ==> ParseHeader(img).Ok? && Wanted(img, ParseHeader(img).value, r.value, limit)
    ensures r.Err? ==> ParseHeader(img).Err? || forall d :: !Wanted(img, ParseHeader(img).value, d, limit)
    ensures forall d | ImageOf(img, d) && NonEmptyNames(d) && HeightAtMost(d, limit) :: r == Ok(d)
  {
    var header := ParseHeader(img);
    if header.Err? {
      return Err(header.error);
    }
    r := Walk(img, header.value, limit);
    forall d | ImageOf(img, d) && NonEmptyNames(d) && HeightAtMost(d, limit) ensures r == Ok(d) {
      assert Wanted(img, header.value, d, limit);
      TreeUnique(img, header.value, r.value, d);
    }
  }

  /** `find`: the file at the non-empty components of a path. */
  method Find(root: Dir, path: seq<Byte>) returns (r: Option<FileNode>)
    ensures r == TreeFile(root, Comps(path))
  {
    var parts := Comps(path);
    if parts == [] {
      return None;
    }
    var cur := root;
    for i := 0 to |parts| - 1
      invariant TreeFile(cur, parts[i..]) == TreeFile(root, parts)
    {
      var k := 0;
      while k < |cur.subs| && cur.subs[k].name != parts[i]
        invariant k <= |cur.subs| && forall j | 0 <= j < k :: cur.subs[j].name != parts[i]
      {
        k := k + 1;
      }
      assert k == IndexOfSub(cur.subs, parts[i]);
      assert parts[i..][1..] == parts[i + 1..];
      if k == |cur.subs| {
        return None;
      }
      cur := cur.subs[k].dir;
    }
    var target := parts[|parts| - 1];
    assert parts[|parts| - 1..] == [target];
    var k := 0;
    while k < |cur.files| && cur.files[k].name != target
      invariant k <= |cur.files| && forall j | 0 <= j < k :: cur.files[j].name != target
    {
      k := k + 1;
    }
    assert k == IndexOfFile(cur.files, target);
    return if k < |cur.files| then Some(cur.files[k]) else None;
  }
}
