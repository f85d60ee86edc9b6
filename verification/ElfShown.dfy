/** What a load shows of a file, byte for byte: program headers as the file holds them, and the contents
    of their segments in the new address space. */
module ElfShown {
  import opened Bytes
  import opened Paging
  import opened ElfLoad
  import opened ElfSpace

  // ----- bytes of an address space -----

  /** A directory that translates the address's page to a frame shows that frame's byte. */
  lemma ByteAtIs(s: Space, mem: seq<Byte>, d: nat, x: U32, f: nat)
    requires Inv(s) && d <= POOL && Translate(s, d, x / 4096) == Some(f) && f * 4096 + x % 4096 < |mem|
    ensures ByteAt(s, mem, d, x) == Some(mem[f * 4096 + x % 4096])
  {
    hide Inv;
    hide Translate;
    assert PageOf(x) == x / 4096;
  }

  /** From this address on, a directory shows these bytes. */
  ghost predicate ShowsBytes(l: Memory, d: nat, start: nat, b: seq<Byte>)
    requires Inv(l.space) && d <= POOL && start + |b| <= 0x1_0000_0000
  {
    forall k | 0 <= k < |b| :: ByteAt(l.space, l.bytes, d, start + k) == Some(b[k])
  }

  /** What the file says is in a segment: its part of the file, and zeros up to its size in memory. */
  function Contents(file: seq<Byte>, seg: Segment): (b: seq<Byte>)
    requires seg.filesz <= seg.memsz && seg.offset + seg.filesz <= |file|
    ensures |b| == seg.memsz
  {
    file[seg.offset..seg.offset + seg.filesz] + seq(seg.memsz - seg.filesz, _ => 0)
  }

  lemma WantedInContents(file: seq<Byte>, seg: Segment, k: nat)
    requires ContentsOk(file, seg) && Fits(seg) && k < seg.memsz
    ensures WantedByte(file, seg, seg.vaddr + k) == Contents(file, seg)[k]
  {
  }

  lemma ShownIsContents(l: Memory, d: nat, file: seq<Byte>, seg: Segment)
    requires Inv(l.space) && d <= POOL && ContentsOk(file, seg) && Fits(seg) && Shown(l, d, file, seg)
    ensures ShowsBytes(l, d, seg.vaddr, Contents(file, seg))
  {
    hide Inv;
    hide ByteAt;
    forall k | 0 <= k < seg.memsz ensures ByteAt(l.space, l.bytes, d, seg.vaddr + k) == Some(Contents(file, seg)[k]) {
      WantedInContents(file, seg, k);
      assert InBytes(seg, seg.vaddr + k);
      hide WantedByte;
      hide Contents;
    }
  }

  /** An undisturbed segment's addresses show, in order, the segment's part of the file and then zeros. */
  lemma SegmentShownWhole(l: Memory, total: nat, from: Page, count: nat, file: seq<Byte>, i: nat)
    requires Startable(l, total, from, count) && Loadable(file) && FileLoaded(l, total, from, count, file).Some?
    requires i < SegmentCount(file) && IsLoad(file, i) && Undisturbed(file, i)
    ensures var (seg, l') := (SegmentOf(file, i), FileLoaded(l, total, from, count, file).value);
      && l.space.nextDir < POOL && Inv(l'.space) && seg.vaddr + seg.memsz < 0x1_0000_0000
      && seg.filesz <= seg.memsz && seg.offset + seg.filesz <= |file|
      && ShowsBytes(l', l.space.nextDir + 1, seg.vaddr,
                    file[seg.offset..seg.offset + seg.filesz] + seq(seg.memsz - seg.filesz, _ => 0))
  {
    hide Startable;
    hide Undisturbed;
    hide ShowsBytes;
    hide Inv;
    LoadedBacked(l, total, from, count, file);
    StartableFacts(l, total, from, count);
    UndisturbedIsShown(l, total, from, count, file, i, l.bytes);
    hide FileLoaded;
    hide Shown;
    hide SegmentOf;
    assert l.(bytes := l.bytes) == l;
    var l' := FileLoaded(l, total, from, count, file).value;
    ShownIsContents(l', l.space.nextDir + 1, file, SegmentOf(file, i));
  }

  /** A segment's pages are those that hold one of its bytes; an empty one has a page only if it does not
      start at the beginning of one. */
  lemma PagesExactly(seg: Segment, x: U32)
    requires Fits(seg)
    ensures OnPages(seg, x)
            <==> if seg.memsz == 0 then seg.vaddr % 4096 != 0 && x / 4096 == seg.vaddr / 4096
                 else seg.vaddr / 4096 <= x / 4096 <= (seg.vaddr + seg.memsz - 1) / 4096
  {
  }

  // ----- files as bytes -----

  function EntryBytes(seg: Segment): (b: seq<Byte>)
    ensures |b| == 32
  {
    Le32(seg.kind) + Le32(seg.offset) + Le32(seg.vaddr) + Le32(0) + Le32(seg.filesz) + Le32(seg.memsz) + Le32(0) + Le32(0)
  }

  lemma EntryWords(a: seq<Byte>, b: seq<Byte>, c: seq<Byte>, d: seq<Byte>, e: seq<Byte>, f: seq<Byte>, g: seq<Byte>, h: seq<Byte>)
    requires |a| == |b| == |c| == |d| == |e| == |f| == |g| == |h| == 4
    ensures var s := a + b + c + d + e + f + g + h;
      s[0..4] == a && s[4..8] == b && s[8..12] == c && s[16..20] == e && s[20..24] == f
  {
  }

  lemma EntryRead(pre: seq<Byte>, seg: Segment, post: seq<Byte>)
    ensures SegmentAt(pre + EntryBytes(seg) + post, |pre|) == seg
  {
    var (file, p) := (pre + EntryBytes(seg) + post, |pre|);
    assert file[p..p + 32] == EntryBytes(seg);
    EntryWords(Le32(seg.kind), Le32(seg.offset), Le32(seg.vaddr), Le32(0), Le32(seg.filesz), Le32(seg.memsz), Le32(0), Le32(0));
    hide Le32;
    WordIn(file, p, 0, seg.kind);
    WordIn(file, p, 4, seg.offset);
    WordIn(file, p, 8, seg.vaddr);
    WordIn(file, p, 16, seg.filesz);
    WordIn(file, p, 20, seg.memsz);
    hide U32At;
  }

  lemma WordIn(file: seq<Byte>, p: nat, o: nat, v: U32)
    requires o <= 28 && p + 32 <= |file| && file[p..p + 32][o..o + 4] == Le32(v)
    ensures U32At(file, p + o) == v
  {
    var entry, word := file[p..p + 32], file[p + o..p + o + 4];
    assert forall k | 0 <= k < 4 :: word[k] == file[p + o + k] == entry[o + k] == entry[o..o + 4][k];
    assert word == entry[o..o + 4];
    Le32At(file, p + o, v);
  }

  /** A file header with its `n` program headers, 32 bytes each, right behind it. */
  function HeaderBytes(n: U16): (b: seq<Byte>)
    ensures |b| == 52
  {
    seq(28, _ => 0) + Le32(52) + seq(10, _ => 0) + Le16(32) + Le16(n) + seq(6, _ => 0)
  }

  lemma HeaderFields(n: U16)
    ensures var b := HeaderBytes(n); b[28..32] == Le32(52) && b[42..44] == Le16(32) && b[44..46] == Le16(n)
  {
    var (z, w, y) := (seq(28, _ => 0), seq(10, _ => 0), seq(6, _ => 0));
    var b := z + Le32(52) + w + Le16(32) + Le16(n) + y;
    assert b == HeaderBytes(n);
    assert b[28..32] == Le32(52);
    assert b[42..44] == Le16(32);
    assert b[44..46] == Le16(n);
  }

  /** Where the file's header says its program headers are. */
  lemma HeaderRead(file: seq<Byte>, table: U32, size: U16, n: U16, i: nat)
    requires |file| >= 52
    requires file[28..32] == Le32(table) && file[42..44] == Le16(size) && file[44..46] == Le16(n)
    ensures SegmentCount(file) == n && SegmentPos(file, i) == table + i * size
  {
    Le32At(file, 28, table);
    Le16At(file, 42, size);
    Le16At(file, 44, n);
  }

  lemma HeaderOf(file: seq<Byte>, n: U16)
    requires |file| >= 52 && file[..52] == HeaderBytes(n)
    ensures SegmentCount(file) == n && forall i: nat :: SegmentPos(file, i) == 52 + i * 32
  {
    HeaderFields(n);
    assert file[28..32] == file[..52][28..32] && file[42..44] == file[..52][42..44] && file[44..46] == file[..52][44..46];
    hide HeaderBytes;
    hide SegmentCount;
    hide SegmentPos;
    hide Le16;
    hide Le32;
    HeaderRead(file, 52, 32, n, 0);
    forall i: nat ensures SegmentPos(file, i) == 52 + i * 32 {
      HeaderRead(file, 52, 32, n, i);
    }
  }

  const FIRST: Segment := Segment(PT_LOAD, 0, 0x800_0000, 0, 1)
  const SECOND: Segment := Segment(PT_LOAD, 0, 0x800_0800, 0, 1)

  /** Two segments of one zero byte each, on one page. */
  function OnePageFile(): seq<Byte> { HeaderBytes(2) + EntryBytes(FIRST) + EntryBytes(SECOND) }

  lemma OnePageSegments()
    ensures var file := OnePageFile();
      && HeadersInFile(file) && SegmentCount(file) == 2 && SegmentOf(file, 0) == FIRST && SegmentOf(file, 1) == SECOND
  {
    var file, header := OnePageFile(), HeaderBytes(2);
    hide EntryBytes;
    hide HeaderBytes;
    hide U32At;
    hide U16At;
    assert file[..52] == header;
    HeaderOf(file, 2);
    assert file == header + EntryBytes(FIRST) + EntryBytes(SECOND);
    assert file == (header + EntryBytes(FIRST)) + EntryBytes(SECOND) + [];
    EntryRead(header, FIRST, EntryBytes(SECOND));
    EntryRead(header + EntryBytes(FIRST), SECOND, []);
  }

  /** The second segment's frame hides the first one's. */
  lemma LaterSegmentHides()
    ensures Loadable(OnePageFile()) && SegmentCount(OnePageFile()) == 2 && IsLoad(OnePageFile(), 0)
    ensures !Undisturbed(OnePageFile(), 0)
  {
    OnePageSegments();
    hide OnePageFile;
    hide SegmentOf;
    hide SegmentCount;
    var file := OnePageFile();
    var x: U32 := 0x800_0000;
    LastStep(file, 1, x);
    assert OnPages(SECOND, x);
    hide OnPages;
    hide LastOn;
    assert InBytes(SegmentOf(file, 0), x) && !ShowsThrough(file, 0, x);
  }

  const ONLY: Segment := Segment(1, 84, 0x800_0000, 4, 6)

  /** One segment: four bytes that stand behind the headers, and two more in memory. */
  function OneSegmentFile(): seq<Byte> { HeaderBytes(1) + EntryBytes(ONLY) + [1, 2, 3, 4] }

  lemma OnlySegment()
    ensures var file := OneSegmentFile();
      && HeadersInFile(file) && SegmentCount(file) == 1 && SegmentOf(file, 0) == ONLY
      && |file| == 88 && file[84..88] == [1, 2, 3, 4]
  {
    var file, header := OneSegmentFile(), HeaderBytes(1);
    hide EntryBytes;
    hide HeaderBytes;
    hide U32At;
    hide U16At;
    assert file[..52] == header;
    HeaderOf(file, 1);
    EntryRead(header, ONLY, [1, 2, 3, 4]);
  }

  lemma OnlyLoadable()
    ensures Loadable(OneSegmentFile())
  {
    OnlySegment();
    hide OneSegmentFile;
    hide HeadersInFile;
    hide SegmentOf;
    hide SegmentCount;
  }

  /** Loaded, it shows its bytes and the zeros, not the file's first ones. */
  lemma OneSegmentShown(l: Memory, total: nat, from: Page, count: nat)
    requires Startable(l, total, from, count)
    ensures Backed(l, total) && from + count <= 0x10_0000 && Loadable(OneSegmentFile())
    ensures var r := FileLoaded(l, total, from, count, OneSegmentFile());
      r.Some? ==>
        && l.space.nextDir < POOL && Inv(r.value.space)
        && ShowsBytes(r.value, l.space.nextDir + 1, 0x800_0000, [1, 2, 3, 4, 0, 0])
  {
    OnlySegment();
    OnlyLoadable();
    StartableFacts(l, total, from, count);
    hide OneSegmentFile;
    hide Startable;
    hide FileLoaded;
    hide ShowsBytes;
    hide Inv;
    hide Loadable;
    hide SegmentOf;
    hide SegmentCount;
    var file := OneSegmentFile();
    ApartIsUndisturbed(file, 0);
    hide Undisturbed;
    if FileLoaded(l, total, from, count, file).Some? {
      SegmentShownWhole(l, total, from, count, file, 0);
      assert file[84..88] + seq(2, _ => 0) == [1, 2, 3, 4, 0, 0];
    }
  }
}
