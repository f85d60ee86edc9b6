/** The image builder: appends a directory tree, children first, to one growing byte vector. */
module GenFs {
  import opened Bytes
  import opened FileTree
  import opened RivLayout

  /** The byte vector every builder function appends to. */
  class Buffer {
    var bytes: seq<Byte>

    constructor (n: nat)
      ensures bytes == seq(n, _ => 0)
    {
      bytes := seq(n, _ => 0);
    }
  }

  method PushU16LE(out: Buffer, value: U16)
    modifies out
    ensures out.bytes == old(out.bytes) + Le16(value)
  {
    out.bytes := out.bytes + [value % 0x100];
    out.bytes := out.bytes + [value / 0x100 % 0x100];
  }

  method PushU32LE(out: Buffer, value: U32)
    modifies out
    ensures out.bytes == old(out.bytes) + Le32(value)
  {
    out.bytes := out.bytes + [value % 0x100];
    out.bytes := out.bytes + [value / 0x100 % 0x100];
    out.bytes := out.bytes + [value / 0x1_0000 % 0x100];
    out.bytes := out.bytes + [value / 0x100_0000 % 0x100];
  }

  lemma NameBytes(name: Name)
    requires |name| < TWO32
    ensures NameAt(Le32(|name|) + name, 0, name)
  {
    var s := Le32(|name|) + name;
    assert s[0..4] == Le32(|name|) && s[4..] == name;
    Le32At(s, 0, |name|);
    assert forall i | 0 <= i < |name| :: name[i] == s[4..][i];
  }

  lemma FixedPartBytes(pre: seq<Byte>, b: BuiltDir, rest: seq<Byte>)
    requires |rest| >= 4
    ensures FixedPartAt(pre + Le16(b.dirHdrAm) + Le16(b.fAm) + Le32(b.dirstart) + Le32(b.fstart) + rest, |pre|) == b
  {
    var s := pre + Le16(b.dirHdrAm) + Le16(b.fAm) + Le32(b.dirstart) + Le32(b.fstart) + rest;
    var p := |pre|;
    assert s[p..p + 2] == Le16(b.dirHdrAm) && s[p + 2..p + 4] == Le16(b.fAm);
    assert s[p + 4..p + 8] == Le32(b.dirstart) && s[p + 8..p + 12] == Le32(b.fstart);
    Le16At(s, p, b.dirHdrAm);
    Le16At(s, p + 2, b.fAm);
    Le32At(s, p + 4, b.dirstart);
    Le32At(s, p + 8, b.fstart);
  }

  lemma DirRecBytes(rec: seq<Byte>, dn: Name, b: BuiltDir, flags: seq<Byte>)
    requires |dn| < TWO32 && |flags| == 4
    requires rec == Le32(|dn|) + dn + Le16(b.dirHdrAm) + Le16(b.fAm) + Le32(b.dirstart) + Le32(b.fstart) + flags
    ensures DirRecAt(rec, 0, dn, b)
  {
    NameBytes(dn);
    KeepsName(Le32(|dn|) + dn, rec, 0, 0, dn);
    FixedPartBytes(Le32(|dn|) + dn, b, flags);
  }

  lemma FileRecBytes(rec: seq<Byte>, f: FileNode)
    requires |f.name| < TWO32 && |f.data| < TWO32
    requires rec == Le32(|f.name|) + f.name + Le32(|f.data|) + f.data
    ensures FileRecAt(rec, 0, f)
  {
    NameBytes(f.name);
    KeepsName(Le32(|f.name|) + f.name, rec, 0, 0, f.name);
    var p := 4 + |f.name|;
    assert rec[p..p + 4] == Le32(|f.data|) && rec[p + 4..] == f.data;
    Le32At(rec, p, |f.data|);
    assert forall i | 0 <= i < |f.data| :: f.data[i] == rec[p + 4..][i];
  }

  /** The bytes of a directory record. Its flags were never given a value, so they are arbitrary. */
  method WithName(de: BuiltDir, dn: Name) returns (ret: seq<Byte>)
    ensures |ret| == 20 + |dn|
    ensures |dn| < TWO32 ==> DirRecAt(ret, 0, dn, de)
  {
    var flgs: U32 := *;
    hide Le16;
    hide Le32;
    var out := new Buffer(0);
    assert out.bytes == [];
    PushU32LE(out, Low32(|dn|));
    out.bytes := out.bytes + dn;
    PushU16LE(out, de.dirHdrAm);
    PushU16LE(out, de.fAm);
    PushU32LE(out, de.dirstart);
    PushU32LE(out, de.fstart);
    PushU32LE(out, flgs);
    ret := out.bytes;
    if |dn| < TWO32 {
      assert ret == Le32(|dn|) + dn + Le16(de.dirHdrAm) + Le16(de.fAm) + Le32(de.dirstart) + Le32(de.fstart) + Le32(flgs);
      DirRecBytes(ret, dn, de, Le32(flgs));
    }
  }

  method GenF(conts: seq<Byte>, fn: Name) returns (ret: seq<Byte>)
    ensures |ret| == 8 + |fn| + |conts|
    ensures |ret| < TWO32 ==> FileRecAt(ret, 0, FileNode(fn, conts))
  {
    hide Le32;
    var out := new Buffer(0);
    assert out.bytes == [];
    PushU32LE(out, Low32(|fn|));
    out.bytes := out.bytes + fn;
    PushU32LE(out, Low32(|conts|));
    out.bytes := out.bytes + conts;
    ret := out.bytes;
    if |ret| < TWO32 {
      assert ret == Le32(|fn|) + fn + Le32(|conts|) + conts;
      FileRecBytes(ret, FileNode(fn, conts));
    }
  }

  // ----- appending a record to the end of a buffer -----

  lemma AppendedU32(pre: seq<Byte>, rec: seq<Byte>, off: nat)
    requires off + 4 <= |rec|
    ensures U32At(pre + rec, |pre| + off) == U32At(rec, off)
  {
  }

  lemma AppendedName(pre: seq<Byte>, rec: seq<Byte>, name: Name)
    requires NameAt(rec, 0, name)
    ensures NameAt(pre + rec, |pre|, name)
  {
    AppendedU32(pre, rec, 0);
  }

  lemma AppendedFileRec(pre: seq<Byte>, rec: seq<Byte>, f: FileNode)
    requires FileRecAt(rec, 0, f)
    ensures FileRecAt(pre + rec, |pre|, f)
  {
    AppendedName(pre, rec, f.name);
    AppendedU32(pre, rec, 4 + |f.name|);
  }

  lemma AppendedDirRec(pre: seq<Byte>, rec: seq<Byte>, name: Name, b: BuiltDir)
    requires DirRecAt(rec, 0, name, b)
    ensures DirRecAt(pre + rec, |pre|, name, b)
  {
    AppendedName(pre, rec, name);
    var p := 4 + |name|;
    AppendedU32(pre, rec, p + 4);
    AppendedU32(pre, rec, p + 8);
    assert U16At(pre + rec, |pre| + p) == U16At(rec, p);
    assert U16At(pre + rec, |pre| + p + 2) == U16At(rec, p + 2);
  }

  // ----- file lists -----

  /** The first `n` records of a file list have been written. */
  ghost predicate FilesSoFar(img: seq<Byte>, off: nat, files: seq<FileNode>, n: nat)
    requires n <= |files|
  {
    && |img| == off + FileOff(files, n)
    && forall k | 0 <= k < n :: FileAt(img, off, files, k)
  }

  lemma MoreFiles(img: seq<Byte>, rec: seq<Byte>, off: nat, files: seq<FileNode>, n: nat)
    requires n < |files| && FilesSoFar(img, off, files, n) && FileRecAt(rec, 0, files[n])
    requires |rec| == FileSize(files[n])
    ensures FilesSoFar(img + rec, off, files, n + 1)
  {
    forall k | 0 <= k < n + 1 ensures FileAt(img + rec, off, files, k) {
      if k < n {
        FileInPrefix(img, off, files, n, k);
        KeepsFileRec(img, img + rec, 0, off + FileOff(files, k), files[k]);
      } else {
        AppendedFileRec(img, rec, files[n]);
      }
    }
  }

  lemma AllFiles(img: seq<Byte>, off: nat, files: seq<FileNode>)
    requires FilesSoFar(img, off, files, |files|)
    ensures FilesAt(img + Le32(0) + Le32(0), off, files)
  {
    var img' := img + Le32(0) + Le32(0);
    forall k | 0 <= k < |files| ensures FileAt(img', off, files, k) {
      FileInPrefix(img, off, files, |files|, k);
      KeepsFileRec(img, img', 0, off + FileOff(files, k), files[k]);
    }
    assert img'[|img|..|img| + 4] == Le32(0);
    Le32At(img', |img|, 0);
  }

  /** Appends the files of one directory and the end marker. */
  method WriteFileList(buf: Buffer, files: seq<FileNode>) returns (fstart: U32, fAmOut: U16)
    modifies buf
    ensures Keeps(old(buf.bytes), buf.bytes, 0)
    ensures |buf.bytes| == |old(buf.bytes)| + FileOff(files, |files|) + 8
    ensures fAmOut == Low16(|files|)
    ensures |buf.bytes| < TWO32 ==> fstart == |old(buf.bytes)| && FilesAt(buf.bytes, fstart, files)
  {
    ghost var start := |buf.bytes|;
    fstart := Low32(|buf.bytes|);
    fAmOut := 0;
    for i := 0 to |files|
      invariant Keeps(old(buf.bytes), buf.bytes, 0)
      invariant |buf.bytes| == start + FileOff(files, i)
      invariant fAmOut == Low16(i)
      invariant |buf.bytes| < TWO32 ==> FilesSoFar(buf.bytes, start, files, i)
    {
      ghost var before := buf.bytes;
      var bytes := GenF(files[i].data, files[i].name);
      buf.bytes := buf.bytes + bytes;
      fAmOut := Low16(fAmOut + 1);
      if |buf.bytes| < TWO32 {
        MoreFiles(before, bytes, start, files, i);
      }
    }
    ghost var before := buf.bytes;
    PushU32LE(buf, 0);
    PushU32LE(buf, 0);
    if |buf.bytes| < TWO32 {
      AllFiles(before, start, files);
    }
  }

  // ----- directories -----

  datatype Pending = Pending(name: Name, sub: BuiltDir)

  /** The first `n` subdirectories are built; nothing below them reaches into `img[..lo]`. */
  ghost predicate SubsBuilt(img: seq<Byte>, lo: nat, subs: seq<SubDir>, pending: seq<Pending>, n: nat)
  {
    && n <= |subs| && |pending| == n
    && forall k | 0 <= k < n :: SubBuilt(img, lo, subs[k], pending[k])
  }

  ghost predicate SubBuilt(img: seq<Byte>, lo: nat, s: SubDir, p: Pending) {
    p.name == s.name && Encodes(img, lo, p.sub, s.dir)
  }

  /** Both lists of every built subdirectory end at or before `end`. */
  ghost predicate EndBy(end: nat, subs: seq<SubDir>, pending: seq<Pending>) {
    |pending| <= |subs| && forall k | 0 <= k < |pending| :: ListsEndBy(end, subs[k].dir, pending[k].sub)
  }

  ghost predicate ListsEndBy(end: nat, d: Dir, b: BuiltDir) {
    b.dirstart + DirOff(d.subs, |d.subs|) + 4 <= end
  }

  /** The first `n` records of a directory list have been written. */
  ghost predicate RecsSoFar(img: seq<Byte>, off: nat, subs: seq<SubDir>, pending: seq<Pending>, n: nat)
    requires n <= |subs| == |pending|
  {
    && |img| == off + DirOff(subs, n)
    && forall k | 0 <= k < n :: RecAt(img, off, subs, pending, k)
  }

  ghost predicate RecAt(img: seq<Byte>, off: nat, subs: seq<SubDir>, pending: seq<Pending>, k: nat)
    requires k < |subs| == |pending|
  {
    DirRecAt(img, off + DirOff(subs, k), subs[k].name, pending[k].sub)
  }

  lemma KeepsRec(img: seq<Byte>, img': seq<Byte>, off: nat, name: Name, b: BuiltDir)
    requires Keeps(img, img', 0) && DirRecAt(img, off, name, b)
    ensures DirRecAt(img', off, name, b)
  {
    KeepsName(img, img', 0, off, name);
    KeepsFixedPart(img, img', 0, off + 4 + |name|);
  }

  lemma MoreRecs(img: seq<Byte>, rec: seq<Byte>, off: nat, subs: seq<SubDir>, pending: seq<Pending>, n: nat)
    requires n < |subs| == |pending| && RecsSoFar(img, off, subs, pending, n)
    requires DirRecAt(rec, 0, subs[n].name, pending[n].sub) && |rec| == DirRecSize(subs[n])
    ensures RecsSoFar(img + rec, off, subs, pending, n + 1)
  {
    forall k | 0 <= k < n + 1 ensures RecAt(img + rec, off, subs, pending, k) {
      if k < n {
        assert RecAt(img, off, subs, pending, k);
        KeepsRec(img, img + rec, off + DirOff(subs, k), subs[k].name, pending[k].sub);
      } else {
        AppendedDirRec(img, rec, subs[n].name, pending[n].sub);
      }
    }
  }

  lemma KeepsSubs(img: seq<Byte>, img': seq<Byte>, lo: nat, subs: seq<SubDir>, pending: seq<Pending>, n: nat)
    requires Keeps(img, img', lo) && SubsBuilt(img, lo, subs, pending, n)
    ensures SubsBuilt(img', lo, subs, pending, n)
  {
    forall k | 0 <= k < n ensures SubBuilt(img', lo, subs[k], pending[k]) {
      assert SubBuilt(img, lo, subs[k], pending[k]);
      KeepsEncoding(img, img', lo, pending[k].sub, subs[k].dir);
    }
  }

  lemma OneSub(img: seq<Byte>, lo: nat, off: nat, subs: seq<SubDir>, pending: seq<Pending>, k: nat)
    requires k < |subs| == |pending| && RecAt(img, off, subs, pending, k)
    requires SubBuilt(img, lo, subs[k], pending[k])
    ensures SubNameAt(img, off, subs, k)
    ensures SubAt(img, off, subs, k) == pending[k].sub
    ensures Encodes(img, lo, SubAt(img, off, subs, k), subs[k].dir)
  {
  }

  lemma EncodingEnds(img: seq<Byte>, lo: nat, b: BuiltDir, d: Dir)
    requires Encodes(img, lo, b, d)
    ensures ListsEndBy(|img|, d, b)
  {
  }

  lemma {:induction false} LowerStart(img: seq<Byte>, lo: nat, lo': nat, b: BuiltDir, d: Dir)
    requires lo <= lo' && Encodes(img, lo', b, d)
    ensures Encodes(img, lo, b, d)
    decreases d
  {
    forall k | 0 <= k < |d.subs|
      ensures SubNameAt(img, b.dirstart, d.subs, k)
      ensures OrderedAt(img, lo, SubAt(img, b.dirstart, d.subs, k), d.subs[k].dir)
    {
      assert SubNameAt(img, b.dirstart, d.subs, k);
      LowerStart(img, lo, lo', SubAt(img, b.dirstart, d.subs, k), d.subs[k].dir);
    }
  }

  lemma AllRecs(img: seq<Byte>, off: nat, subs: seq<SubDir>, pending: seq<Pending>)
    requires |subs| == |pending| && RecsSoFar(img, off, subs, pending, |subs|)
    ensures forall k | 0 <= k < |subs| :: RecAt(img + Le32(0), off, subs, pending, k)
    ensures EofAt(img + Le32(0), off + DirOff(subs, |subs|))
  {
    var img' := img + Le32(0);
    forall k | 0 <= k < |subs| ensures RecAt(img', off, subs, pending, k) {
      assert RecAt(img, off, subs, pending, k);
      KeepsRec(img, img', off + DirOff(subs, k), subs[k].name, pending[k].sub);
    }
    assert img'[|img|..|img| + 4] == Le32(0);
    Le32At(img', |img|, 0);
  }

  /** Appends the records of the built subdirectories and the end marker. */
  method WriteDirList(buf: Buffer, subdirs: seq<Pending>, ghost subs: seq<SubDir>) returns (dirstart: U32)
    requires |subdirs| == |subs| && forall k | 0 <= k < |subs| :: subdirs[k].name == subs[k].name
    modifies buf
    ensures Keeps(old(buf.bytes), buf.bytes, 0)
    ensures |buf.bytes| == |old(buf.bytes)| + DirOff(subs, |subs|) + 4
    ensures |buf.bytes| < TWO32 ==>
      && dirstart == |old(buf.bytes)|
      && (forall k | 0 <= k < |subs| :: RecAt(buf.bytes, dirstart, subs, subdirs, k))
      && EofAt(buf.bytes, dirstart + DirOff(subs, |subs|))
  {
    ghost var start := |buf.bytes|;
    dirstart := Low32(|buf.bytes|);
    for i := 0 to |subdirs|
      invariant Keeps(old(buf.bytes), buf.bytes, 0)
      invariant |buf.bytes| == start + DirOff(subs, i)
      invariant |buf.bytes| < TWO32 ==> RecsSoFar(buf.bytes, start, subs, subdirs, i)
    {
      ghost var before := buf.bytes;
      var bytes := WithName(subdirs[i].sub, subdirs[i].name);
      buf.bytes := buf.bytes + bytes;
      if |buf.bytes| < TWO32 {
        MoreRecs(before, bytes, start, subs, subdirs, i);
      }
    }
    ghost var before := buf.bytes;
    PushU32LE(buf, 0);
    if |buf.bytes| < TWO32 {
      AllRecs(before, start, subs, subdirs);
    }
  }

  lemma OneMoreSub(img: seq<Byte>, img': seq<Byte>, lo: nat, subs: seq<SubDir>, pending: seq<Pending>, i: nat,
                   sub: BuiltDir)
    requires Keeps(img, img', lo) && i < |subs| && lo <= |img|
    requires SubsBuilt(img, lo, subs, pending, i) && EndBy(|img|, subs, pending)
    requires Encodes(img', |img|, sub, subs[i].dir)
    ensures SubsBuilt(img', lo, subs, pending + [Pending(subs[i].name, sub)], i + 1)
    ensures EndBy(|img'|, subs, pending + [Pending(subs[i].name, sub)])
  {
    KeepsSubs(img, img', lo, subs, pending, i);
    EncodingEnds(img', |img|, sub, subs[i].dir);
    LowerStart(img', lo, |img|, sub, subs[i].dir);
  }

  /** A file list, built subdirectories and a directory list make an encoded directory. */
  lemma Assemble(withFiles: seq<Byte>, withSubs: seq<Byte>, img: seq<Byte>, lo: nat, b: BuiltDir, d: Dir,
                 pending: seq<Pending>)
    requires Keeps(withFiles, img, 0) && lo <= b.fstart && FilesAt(withFiles, b.fstart, d.files)
    requires b.fstart + FileOff(d.files, |d.files|) + 8 <= b.dirstart
    requires Keeps(withSubs, img, 0) && SubsBuilt(withSubs, lo, d.subs, pending, |d.subs|)
    requires EndBy(b.dirstart, d.subs, pending)
    requires forall k | 0 <= k < |d.subs| :: RecAt(img, b.dirstart, d.subs, pending, k)
    requires EofAt(img, b.dirstart + DirOff(d.subs, |d.subs|))
    requires b.dirHdrAm == Low16(|d.subs|) && b.fAm == Low16(|d.files|)
    ensures Encodes(img, lo, b, d)
  {
    KeepsFiles(withFiles, img, 0, b.fstart, d.files);
    KeepsSubs(withSubs, img, lo, d.subs, pending, |d.subs|);
    forall k | 0 <= k < |d.subs|
      ensures SubNameAt(img, b.dirstart, d.subs, k)
      ensures SubAt(img, b.dirstart, d.subs, k) == pending[k].sub
      ensures Encodes(img, lo, SubAt(img, b.dirstart, d.subs, k), d.subs[k].dir)
      ensures ListsEndBy(b.dirstart, d.subs[k].dir, pending[k].sub)
    {
      assert RecAt(img, b.dirstart, d.subs, pending, k) && SubBuilt(img, lo, d.subs[k], pending[k]);
      OneSub(img, lo, b.dirstart, d.subs, pending, k);
    }
  }

  /** The loop of `buildDir` over the subdirectories: nothing written before has changed, and the first
      `i` of them are built behind the file list. */
  ghost predicate Building(start: seq<Byte>, withFiles: seq<Byte>, img: seq<Byte>, d: Dir, subdirs: seq<Pending>, i: nat) {
    && Keeps(start, withFiles, 0) && Keeps(withFiles, img, 0)
    && |subdirs| == i <= |d.subs| && (forall k | 0 <= k < i :: subdirs[k].name == d.subs[k].name)
    && (|img| < TWO32 ==> SubsBuilt(img, |start|, d.subs, subdirs, i) && EndBy(|img|, d.subs, subdirs))
  }

  lemma BuildingStarts(start: seq<Byte>, withFiles: seq<Byte>, d: Dir)
    requires Keeps(start, withFiles, 0)
    ensures Building(start, withFiles, withFiles, d, [], 0)
  {
  }

  lemma BuildingOn(start: seq<Byte>, withFiles: seq<Byte>, img: seq<Byte>, img': seq<Byte>, d: Dir, subdirs: seq<Pending>,
                   i: nat, sub: BuiltDir)
    requires Building(start, withFiles, img, d, subdirs, i) && i < |d.subs| && Keeps(img, img', 0)
    requires |img'| < TWO32 ==> Encodes(img', |img|, sub, d.subs[i].dir)
    ensures Building(start, withFiles, img', d, subdirs + [Pending(d.subs[i].name, sub)], i + 1)
  {
    hide Encodes;
    hide SubsBuilt;
    hide EndBy;
    if |img'| < TWO32 {
      OneMoreSub(img, img', |start|, d.subs, subdirs, i, sub);
    }
  }

  lemma BuildingEnds(start: seq<Byte>, withFiles: seq<Byte>, img: seq<Byte>, img': seq<Byte>, d: Dir, subdirs: seq<Pending>,
                     b: BuiltDir)
    requires Building(start, withFiles, img, d, subdirs, |d.subs|) && Keeps(img, img', 0)
    requires |withFiles| == |start| + FileOff(d.files, |d.files|) + 8 && b.fAm == Low16(|d.files|) && b.dirHdrAm == Low16(|d.subs|)
    requires |withFiles| < TWO32 ==> b.fstart == |start| && FilesAt(withFiles, b.fstart, d.files)
    requires |img'| < TWO32 ==>
      && b.dirstart == |img|
      && (forall k | 0 <= k < |d.subs| :: RecAt(img', b.dirstart, d.subs, subdirs, k))
      && EofAt(img', b.dirstart + DirOff(d.subs, |d.subs|))
    ensures Keeps(start, img', 0)
    ensures |img'| < TWO32 ==> Encodes(img', |start|, b, d)
  {
    hide Encodes;
    hide SubsBuilt;
    hide EndBy;
    hide FilesAt;
    hide EofAt;
    hide RecAt;
    hide FileOff;
    hide DirOff;
    if |img'| < TWO32 {
      Assemble(withFiles, img, img', |start|, b, d, subdirs);
    }
  }

  /** Builds a directory: its files, then its subdirectories, then the list of their records. */
  method BuildDir(buf: Buffer, d: Dir) returns (b: BuiltDir)
    modifies buf
    ensures Keeps(old(buf.bytes), buf.bytes, 0)
    ensures |buf.bytes| < TWO32 ==> Encodes(buf.bytes, |old(buf.bytes)|, b, d)
    decreases d
  {
    hide Building;
    hide Encodes;
    hide Keeps;
    hide FilesAt;
    hide EofAt;
    hide RecAt;
    hide FileOff;
    hide DirOff;
    ghost var start := buf.bytes;
    var fstart, fAm := WriteFileList(buf, d.files);
    ghost var withFiles := buf.bytes;
    BuildingStarts(start, withFiles, d);

    var subdirs: seq<Pending> := [];
    for i := 0 to |d.subs|
      invariant Building(start, withFiles, buf.bytes, d, subdirs, i)
    {
      ghost var before := buf.bytes;
      var sub := BuildDir(buf, d.subs[i].dir);
      BuildingOn(start, withFiles, before, buf.bytes, d, subdirs, i, sub);
      subdirs := subdirs + [Pending(d.subs[i].name, sub)];
    }
    ghost var withSubs := buf.bytes;

    AllNamed(start, withFiles, withSubs, d, subdirs);
    var dirstart := WriteDirList(buf, subdirs, d.subs);
    b := BuiltDir(dirstart, fstart, Low16(|subdirs|), fAm);
    BuildingEnds(start, withFiles, withSubs, buf.bytes, d, subdirs, b);
  }

  lemma AllNamed(start: seq<Byte>, withFiles: seq<Byte>, img: seq<Byte>, d: Dir, subdirs: seq<Pending>)
    requires Building(start, withFiles, img, d, subdirs, |d.subs|)
    ensures |subdirs| == |d.subs| && forall k | 0 <= k < |d.subs| :: subdirs[k].name == d.subs[k].name
  {
  }

  function FphBytes(b: BuiltDir): (s: seq<Byte>)
    ensures |s| == FPH_SIZE
  {
    Le16(b.dirHdrAm) + Le16(b.fAm) + Le32(b.dirstart) + Le32(b.fstart) + Le32(0)
  }

  function HeaderBytes(): (s: seq<Byte>)
    ensures |s| == HEADER_SIZE
  {
    MAGIC + Le32(FPH_SIZE) + Le32(HEADER_SIZE) + [0, 0] + Le32(1)
  }

  lemma HeaderWritten(img: seq<Byte>, b: BuiltDir, body: seq<Byte>)
    requires img == HeaderBytes() + FphBytes(b) + body
    ensures HeaderAt(img) && FixedPartAt(img, HEADER_SIZE) == b
  {
    assert img[5..9] == Le32(FPH_SIZE) && img[9..13] == Le32(HEADER_SIZE) && img[15..19] == Le32(1);
    Le32At(img, 5, FPH_SIZE);
    Le32At(img, 9, HEADER_SIZE);
    Le32At(img, 15, 1);
    assert img == HeaderBytes() + Le16(b.dirHdrAm) + Le16(b.fAm) + Le32(b.dirstart) + Le32(b.fstart) + (Le32(0) + body);
    FixedPartBytes(HeaderBytes(), b, Le32(0) + body);
  }

  /** The whole tool, from the listed input directory to the bytes of the output file. The two
      headers are reserved first and filled in once the offsets are known. Every tree whose image
      stays below 4 GiB is encoded. */
  method Generate(root: Dir) returns (img: seq<Byte>)
    ensures |img| < TWO32 ==> ImageOf(img, root)
  {
    var buf := new Buffer(IMAGE_START);
    var b := BuildDir(buf, root);
    ghost var built := buf.bytes;
    buf.bytes := HeaderBytes() + buf.bytes[HEADER_SIZE..];
    buf.bytes := buf.bytes[..HEADER_SIZE] + FphBytes(b) + buf.bytes[IMAGE_START..];
    img := buf.bytes;
    assert img == HeaderBytes() + FphBytes(b) + built[IMAGE_START..];
    HeaderWritten(img, b, built[IMAGE_START..]);
    if |img| < TWO32 {
      KeepsEncoding(built, img, IMAGE_START, b, root);
    }
  }
}
