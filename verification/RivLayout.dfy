/** The RivFs image format as a relation between bytes and trees, independent of how either side is
    computed. Offsets are counted from the start of the image. */
module RivLayout {
  import opened Bytes
  import opened FileTree

  /** The fields shared by the file position header and the fixed part of a directory record. */
  datatype BuiltDir = BuiltDir(dirstart: U32, fstart: U32, dirHdrAm: U16, fAm: U16)

  const HEADER_SIZE: nat := 19
  const FPH_SIZE: nat := 16
  const IMAGE_START: nat := 35  // HEADER_SIZE + FPH_SIZE

  // ----- records -----

  /** Reads dirHdrAm, fAm, dirstart, fstart; the four bytes of flags behind them are ignored. */
  function FixedPartAt(img: seq<Byte>, p: nat): BuiltDir
    requires p + FPH_SIZE <= |img|
  {
    BuiltDir(U32At(img, p + 4), U32At(img, p + 8), U16At(img, p), U16At(img, p + 2))
  }

  ghost predicate BytesAt(img: seq<Byte>, off: nat, s: seq<Byte>) {
    off + |s| <= |img| && forall i | 0 <= i < |s| :: s[i] == img[off + i]
  }

  ghost predicate NameAt(img: seq<Byte>, off: nat, name: Name) {
    && off + 4 + |name| <= |img|
    && U32At(img, off) == |name|
    && BytesAt(img, off + 4, name)
  }

  ghost predicate EofAt(img: seq<Byte>, off: nat) {
    off + 4 <= |img| && U32At(img, off) == 0
  }

  ghost predicate FileRecAt(img: seq<Byte>, off: nat, f: FileNode) {
    && NameAt(img, off, f.name)
    && off + 8 + |f.name| + |f.data| <= |img|
    && U32At(img, off + 4 + |f.name|) == |f.data|
    && BytesAt(img, off + 8 + |f.name|, f.data)
  }

  ghost predicate DirRecAt(img: seq<Byte>, off: nat, name: Name, b: BuiltDir) {
    && NameAt(img, off, name)
    && off + 4 + |name| + FPH_SIZE <= |img|
    && FixedPartAt(img, off + 4 + |name|) == b
  }

  // ----- lists: record `k` starts behind the first `k` records -----

  function FileSize(f: FileNode): nat { 8 + |f.name| + |f.data| }

  function DirRecSize(s: SubDir): nat { 20 + |s.name| }

  function FileOff(files: seq<FileNode>, k: nat): (n: nat)
    requires k <= |files|
  {
    if k == 0 then 0 else FileOff(files, k - 1) + FileSize(files[k - 1])
  }

  function DirOff(subs: seq<SubDir>, k: nat): (n: nat)
    requires k <= |subs|
  {
    if k == 0 then 0 else DirOff(subs, k - 1) + DirRecSize(subs[k - 1])
  }

  ghost predicate FileAt(img: seq<Byte>, off: nat, files: seq<FileNode>, k: nat)
    requires k < |files|
  {
    FileRecAt(img, off + FileOff(files, k), files[k])
  }

  ghost predicate FilesAt(img: seq<Byte>, off: nat, files: seq<FileNode>) {
    && (forall k | 0 <= k < |files| :: FileAt(img, off, files, k))
    && EofAt(img, off + FileOff(files, |files|))
  }

  /** The fixed part of the `k`th record of a directory list. */
  function SubAt(img: seq<Byte>, off: nat, subs: seq<SubDir>, k: nat): BuiltDir
    requires k < |subs| && off + DirOff(subs, k + 1) <= |img|
  {
    FixedPartAt(img, off + DirOff(subs, k) + 4 + |subs[k].name|)
  }

  ghost predicate SubNameAt(img: seq<Byte>, off: nat, subs: seq<SubDir>, k: nat)
    requires k < |subs|
  {
    && NameAt(img, off + DirOff(subs, k), subs[k].name)
    && off + DirOff(subs, k + 1) <= |img|
  }

  // ----- whole trees -----

  /** The lists at `b` spell out the tree `d`. This is what a reader that follows offsets and stops
      at end markers sees; the counts play no part in it. */
  ghost predicate TreeAt(img: seq<Byte>, b: BuiltDir, d: Dir)
    decreases d
  {
    && FilesAt(img, b.fstart, d.files)
    && EofAt(img, b.dirstart + DirOff(d.subs, |d.subs|))
    && forall k {:trigger SubNameAt(img, b.dirstart, d.subs, k)} | 0 <= k < |d.subs| ::
      && SubNameAt(img, b.dirstart, d.subs, k)
      && TreeAt(img, SubAt(img, b.dirstart, d.subs, k), d.subs[k].dir)
  }

  /** `b` and every directory record below it hold the true counts, cut to 16 bits. */
  ghost predicate CountsAt(img: seq<Byte>, b: BuiltDir, d: Dir)
    decreases d
  {
    && b.dirHdrAm == Low16(|d.subs|) && b.fAm == Low16(|d.files|)
    && forall k {:trigger SubNameAt(img, b.dirstart, d.subs, k)} | 0 <= k < |d.subs| ::
      && SubNameAt(img, b.dirstart, d.subs, k)
      && CountsAt(img, SubAt(img, b.dirstart, d.subs, k), d.subs[k].dir)
  }

  /** The lists of a directory and of everything below it lie at or behind `lo`, and both lists of a
      subdirectory lie wholly before the list with the record that points to them. */
  ghost predicate OrderedAt(img: seq<Byte>, lo: nat, b: BuiltDir, d: Dir)
    decreases d
  {
    && lo <= b.fstart
    && b.fstart + FileOff(d.files, |d.files|) + 8 <= b.dirstart
    && b.dirstart + DirOff(d.subs, |d.subs|) + 4 <= |img|
    && forall k {:trigger SubNameAt(img, b.dirstart, d.subs, k)} | 0 <= k < |d.subs| ::
      && SubNameAt(img, b.dirstart, d.subs, k)
      && var s := SubAt(img, b.dirstart, d.subs, k);
         && s.dirstart + DirOff(d.subs[k].dir.subs, |d.subs[k].dir.subs|) + 4 <= b.dirstart
         && OrderedAt(img, lo, s, d.subs[k].dir)
  }

  ghost predicate Encodes(img: seq<Byte>, lo: nat, b: BuiltDir, d: Dir) {
    TreeAt(img, b, d) && CountsAt(img, b, d) && OrderedAt(img, lo, b, d)
  }

  const MAGIC: seq<Byte> := [114, 105, 118, 102, 115]  // "rivfs"

  ghost predicate HeaderAt(img: seq<Byte>) {
    && |img| >= IMAGE_START
    && img[..5] == MAGIC
    && U32At(img, 5) == FPH_SIZE && U32At(img, 9) == HEADER_SIZE
    && img[13] == 0 && img[14] == 0
    && U32At(img, 15) == 1
  }

  /** A whole image: what the builder promises and the readers rely on. */
  ghost predicate ImageOf(img: seq<Byte>, d: Dir) {
    HeaderAt(img) && |img| < TWO32 && Encodes(img, IMAGE_START, FixedPartAt(img, HEADER_SIZE), d)
  }

  // ----- the relation survives growth of the image and changes below `lo` -----

  /** `img'` keeps every byte of `img` from `lo` on. */
  ghost predicate Keeps(img: seq<Byte>, img': seq<Byte>, lo: nat) {
    |img| <= |img'| && forall i | lo <= i < |img| :: img'[i] == img[i]
  }

  lemma KeepsFixedPart(img: seq<Byte>, img': seq<Byte>, lo: nat, p: nat)
    requires Keeps(img, img', lo) && lo <= p && p + FPH_SIZE <= |img|
    ensures FixedPartAt(img', p) == FixedPartAt(img, p)
  {
  }

  lemma KeepsName(img: seq<Byte>, img': seq<Byte>, lo: nat, off: nat, name: Name)
    requires Keeps(img, img', lo) && lo <= off && NameAt(img, off, name)
    ensures NameAt(img', off, name)
  {
  }

  lemma KeepsFileRec(img: seq<Byte>, img': seq<Byte>, lo: nat, off: nat, f: FileNode)
    requires Keeps(img, img', lo) && lo <= off && FileRecAt(img, off, f)
    ensures FileRecAt(img', off, f)
  {
    KeepsName(img, img', lo, off, f.name);
  }

  lemma KeepsFiles(img: seq<Byte>, img': seq<Byte>, lo: nat, off: nat, files: seq<FileNode>)
    requires Keeps(img, img', lo) && lo <= off && FilesAt(img, off, files)
    ensures FilesAt(img', off, files)
  {
    forall k | 0 <= k < |files| ensures FileAt(img', off, files, k) {
      assert FileAt(img, off, files, k);
      KeepsFileRec(img, img', lo, off + FileOff(files, k), files[k]);
    }
  }

  lemma KeepsSub(img: seq<Byte>, img': seq<Byte>, lo: nat, off: nat, subs: seq<SubDir>, k: nat)
    requires Keeps(img, img', lo) && lo <= off && k < |subs| && SubNameAt(img, off, subs, k)
    ensures SubNameAt(img', off, subs, k) && SubAt(img', off, subs, k) == SubAt(img, off, subs, k)
  {
    KeepsName(img, img', lo, off + DirOff(subs, k), subs[k].name);
    KeepsFixedPart(img, img', lo, off + DirOff(subs, k) + 4 + |subs[k].name|);
  }

  lemma EncodedSub(img: seq<Byte>, lo: nat, b: BuiltDir, d: Dir, k: nat)
    requires Encodes(img, lo, b, d) && k < |d.subs|
    ensures lo <= b.dirstart && SubNameAt(img, b.dirstart, d.subs, k)
    ensures Encodes(img, lo, SubAt(img, b.dirstart, d.subs, k), d.subs[k].dir)
    ensures SubAt(img, b.dirstart, d.subs, k).dirstart < b.dirstart
  {
    assert SubNameAt(img, b.dirstart, d.subs, k);
  }

  /** Offsets strictly decrease down the tree, so no built tree is nested more deeply than the offset
      of its directory list. */
  lemma {:induction false} NestingBounded(img: seq<Byte>, lo: nat, b: BuiltDir, d: Dir)
    requires Encodes(img, lo, b, d)
    ensures HeightAtMost(d, b.dirstart)
    ensures forall k | 0 <= k < |d.subs| ::
      SubNameAt(img, b.dirstart, d.subs, k) && SubAt(img, b.dirstart, d.subs, k).dirstart < b.dirstart
    decreases d
  {
    forall k | 0 <= k < |d.subs|
      ensures SubNameAt(img, b.dirstart, d.subs, k) && SubAt(img, b.dirstart, d.subs, k).dirstart < b.dirstart
      ensures HeightAtMost(d.subs[k].dir, b.dirstart - 1)
    {
      EncodedSub(img, lo, b, d, k);
      var s := SubAt(img, b.dirstart, d.subs, k);
      NestingBounded(img, lo, s, d.subs[k].dir);
      TallerBound(d.subs[k].dir, s.dirstart, b.dirstart - 1);
    }
  }

  lemma {:induction false} TallerBound(d: Dir, n: nat, m: nat)
    requires n <= m && HeightAtMost(d, n)
    ensures HeightAtMost(d, m)
    decreases d
  {
    forall k | 0 <= k < |d.subs| ensures m > 0 && HeightAtMost(d.subs[k].dir, m - 1) {
      TallerBound(d.subs[k].dir, n - 1, m - 1);
    }
  }

  lemma {:induction false} KeepsEncoding(img: seq<Byte>, img': seq<Byte>, lo: nat, b: BuiltDir, d: Dir)
    requires Keeps(img, img', lo) && Encodes(img, lo, b, d)
    ensures Encodes(img', lo, b, d)
    decreases d
  {
    KeepsFiles(img, img', lo, b.fstart, d.files);
    forall k | 0 <= k < |d.subs|
      ensures SubNameAt(img, b.dirstart, d.subs, k) && SubNameAt(img', b.dirstart, d.subs, k)
      ensures SubAt(img', b.dirstart, d.subs, k) == SubAt(img, b.dirstart, d.subs, k)
      ensures Encodes(img', lo, SubAt(img, b.dirstart, d.subs, k), d.subs[k].dir)
    {
      EncodedSub(img, lo, b, d, k);
      KeepsSub(img, img', lo, b.dirstart, d.subs, k);
      KeepsEncoding(img, img', lo, SubAt(img, b.dirstart, d.subs, k), d.subs[k].dir);
    }
  }

  // ----- an image spells out one tree -----

  lemma SameFileAt(img: seq<Byte>, off: nat, f1: FileNode, f2: FileNode)
    requires FileRecAt(img, off, f1) && FileRecAt(img, off, f2)
    ensures f1 == f2
  {
  }

  lemma FileIn(img: seq<Byte>, off: nat, files: seq<FileNode>, k: nat)
    requires FilesAt(img, off, files) && k < |files|
    ensures FileAt(img, off, files, k)
  {
  }

  lemma FileInPrefix(img: seq<Byte>, off: nat, files: seq<FileNode>, n: nat, k: nat)
    requires k < n <= |files| && forall j | 0 <= j < n :: FileAt(img, off, files, j)
    ensures FileAt(img, off, files, k)
  {
  }

  lemma NotAtEnd(img: seq<Byte>, off: nat, gs: seq<FileNode>, m: nat, f: FileNode)
    requires FilesAt(img, off, gs) && m <= |gs|
    requires FileRecAt(img, off + FileOff(gs, m), f) && f.name != []
    ensures m != |gs|
  {
  }

  lemma NextFile(img: seq<Byte>, off: nat, gs: seq<FileNode>, m: nat, f: FileNode)
    requires FilesAt(img, off, gs) && m <= |gs|
    requires FileRecAt(img, off + FileOff(gs, m), f) && f.name != []
    ensures m < |gs| && gs[m] == f
  {
    NotAtEnd(img, off, gs, m, f);
    FileIn(img, off, gs, m);
    SameFileAt(img, off + FileOff(gs, m), f, gs[m]);
  }

  /** The first `n` records read from a file list are the first `n` records of any list there. */
  lemma {:induction false} FilesAgree(img: seq<Byte>, off: nat, fs: seq<FileNode>, gs: seq<FileNode>, n: nat)
    requires n <= |fs| && forall k | 0 <= k < n :: FileAt(img, off, fs, k)
    requires forall k | 0 <= k < n :: fs[k].name != []
    requires FilesAt(img, off, gs)
    ensures n <= |gs| && fs[..n] == gs[..n] && FileOff(fs, n) == FileOff(gs, n)
  {
    if n > 0 {
      FilesAgree(img, off, fs, gs, n - 1);
      FileInPrefix(img, off, fs, n, n - 1);
      NextFile(img, off, gs, n - 1, fs[n - 1]);
    }
  }

  lemma SubIn(img: seq<Byte>, off: nat, ss: seq<SubDir>, n: nat, k: nat)
    requires k < n <= |ss| && forall j | 0 <= j < n :: SubNameAt(img, off, ss, j)
    ensures SubNameAt(img, off, ss, k)
  {
  }

  lemma NextSub(img: seq<Byte>, off: nat, ts: seq<SubDir>, m: nat, name: Name)
    requires EofAt(img, off + DirOff(ts, |ts|)) && forall k | 0 <= k < |ts| :: SubNameAt(img, off, ts, k)
    requires m <= |ts| && NameAt(img, off + DirOff(ts, m), name) && name != []
    ensures m < |ts| && ts[m].name == name
  {
    assert m < |ts|;
    SubIn(img, off, ts, |ts|, m);
  }

  /** The `n`th name read from a directory list is the `n`th name of any list there. */
  lemma {:induction false} SubNamesAgree(img: seq<Byte>, off: nat, ss: seq<SubDir>, ts: seq<SubDir>, n: nat)
    requires n <= |ss| && forall k | 0 <= k < n :: SubNameAt(img, off, ss, k)
    requires forall k | 0 <= k < n :: ss[k].name != []
    requires EofAt(img, off + DirOff(ts, |ts|)) && forall k | 0 <= k < |ts| :: SubNameAt(img, off, ts, k)
    ensures n <= |ts| && DirOff(ss, n) == DirOff(ts, n)
    ensures n > 0 ==> ss[n - 1].name == ts[n - 1].name
  {
    if n > 0 {
      SubNamesAgree(img, off, ss, ts, n - 1);
      SubIn(img, off, ss, n, n - 1);
      NextSub(img, off, ts, n - 1, ss[n - 1].name);
    }
  }

  lemma SubTree(img: seq<Byte>, b: BuiltDir, d: Dir, k: nat)
    requires TreeAt(img, b, d) && k < |d.subs|
    ensures SubNameAt(img, b.dirstart, d.subs, k)
    ensures TreeAt(img, SubAt(img, b.dirstart, d.subs, k), d.subs[k].dir)
  {
  }

  ghost predicate NamedFiles(fs: seq<FileNode>) {
    forall k | 0 <= k < |fs| :: fs[k].name != []
  }

  lemma FilesUnique(img: seq<Byte>, off: nat, fs: seq<FileNode>, gs: seq<FileNode>)
    requires FilesAt(img, off, fs) && FilesAt(img, off, gs) && NamedFiles(fs) && NamedFiles(gs)
    ensures fs == gs
  {
    FilesAgree(img, off, fs, gs, |fs|);
    FilesAgree(img, off, gs, fs, |gs|);
  }

  ghost predicate SubListAt(img: seq<Byte>, off: nat, ss: seq<SubDir>) {
    && EofAt(img, off + DirOff(ss, |ss|))
    && (forall k | 0 <= k < |ss| :: SubNameAt(img, off, ss, k))
    && forall k | 0 <= k < |ss| :: ss[k].name != []
  }

  lemma SubCountUnique(img: seq<Byte>, off: nat, ss: seq<SubDir>, ts: seq<SubDir>)
    requires SubListAt(img, off, ss) && SubListAt(img, off, ts)
    ensures |ss| == |ts|
  {
    SubNamesAgree(img, off, ss, ts, |ss|);
    SubNamesAgree(img, off, ts, ss, |ts|);
  }

  lemma SubUnique(img: seq<Byte>, off: nat, ss: seq<SubDir>, ts: seq<SubDir>, k: nat)
    requires SubListAt(img, off, ss) && SubListAt(img, off, ts) && k < |ss|
    ensures k < |ts| && ss[k].name == ts[k].name
    ensures SubNameAt(img, off, ss, k) && SubNameAt(img, off, ts, k)
    ensures SubAt(img, off, ss, k) == SubAt(img, off, ts, k)
  {
    SubNamesAgree(img, off, ss, ts, k);
    SubNamesAgree(img, off, ss, ts, k + 1);
    SubIn(img, off, ss, |ss|, k);
    SubIn(img, off, ts, |ts|, k);
  }

  /** An image spells out at most one tree at a given place. */
  lemma {:induction false} TreeUnique(img: seq<Byte>, b: BuiltDir, d1: Dir, d2: Dir)
    requires TreeAt(img, b, d1) && TreeAt(img, b, d2) && NonEmptyNames(d1) && NonEmptyNames(d2)
    ensures d1 == d2
    decreases d1
  {
    FilesUnique(img, b.fstart, d1.files, d2.files);
    SubCountUnique(img, b.dirstart, d1.subs, d2.subs);
    forall k | 0 <= k < |d1.subs| ensures d1.subs[k] == d2.subs[k] {
      SubUnique(img, b.dirstart, d1.subs, d2.subs, k);
      SubTree(img, b, d1, k);
      SubTree(img, b, d2, k);
      TreeUnique(img, SubAt(img, b.dirstart, d1.subs, k), d1.subs[k].dir, d2.subs[k].dir);
    }
  }
}
