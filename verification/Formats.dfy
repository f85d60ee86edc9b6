/** The formats the program exchanges, written out in bytes and characters. The other modules reason
    with encodings and character classes by name; this one says which they are. */
module Formats {
  import opened Bytes
  import opened Numerals
  import FatNames
  import FileTree
  import LispSyntax
  import MmapRuns
  import Paging
  import PageTables
  import Preemption
  import ProcessStack
  import Frames
  import Rap
  import RivLayout
  import Text

  // ----- words -----

  /** Low byte first. */
  lemma WordBytes()
    ensures Le16(0x0201) == [1, 2] && Le32(0x0403_0201) == [1, 2, 3, 4]
    ensures U16At([9, 1, 2], 1) == 0x0201 && U32At([9, 1, 2, 3, 4], 1) == 0x0403_0201
    ensures Low16(0x5_0007) == 7 && Low32(0x5_0000_0007) == 7
  {
  }

  // ----- numerals -----

  lemma DigitsOf907()
    ensures Digits(907) == "907"
  {
    assert Digits(9) == "9";
    assert Digits(90) == "9" + "0";
  }

  /** Signed numerals are read as they are written, down to the smallest number. */
  lemma NegativeNumerals(n: nat)
    requires n <= 0x8000_0000
    ensures StoiValue("-" + Digits(n)) == -(n as int)
  {
    hide Digits;
    hide Value;
    ValueOfDigits(n);
    var s := Digits(n);
    assert ("-" + s)[1..] == s;
    assert MagnitudeValue(s) == Signed(Low32(n));
    SignedMinus(n);
    hide MagnitudeValue;
  }

  lemma SignedMinus(n: nat)
    requires n <= 0x8000_0000
    ensures Signed(Pattern(-(Signed(Low32(n)) as int))) == -(n as int)
  {
  }

  lemma ForeignCharacter(a: string, c: char, b: string)
    requires !('0' <= c <= '9') && (a == "" ==> c != '-') && (a != "" ==> a[0] != '-')
    ensures StoiValue(a + [c] + b) == 0
  {
    var s := a + [c] + b;
    assert s[|a|] == c && s[0] == if a == "" then c else a[0];
  }

  // ----- 8.3 names -----

  /** Upper case moves the 26 letters behind 97, which is a, to those behind 65, and nothing else. */
  lemma Letters(c: char)
    ensures FatNames.ToUpper(c) == if 97 <= c as int < 97 + 26 then (c as int - 97 + 65) as char else c
  {
  }

  /** The name Ab.c on disk. */
  lemma PaddedName()
    ensures FatNames.FatName("Ab.c") == Some("AB      C  ")
  {
    FatNames.FatNameOfDotted("Ab", "c");
    assert "Ab" + "." + "c" == "Ab.c";
    FatNames.UpperJoin(FatNames.Pad("Ab", 8), FatNames.Pad("c", 3));
    PaddedBase();
    hide FatNames.FatName;
    hide FatNames.Upper;
    hide FatNames.Pad;
    assert "AB      " + "C  " == "AB      C  ";
  }

  lemma PaddedBase()
    ensures FatNames.Upper(FatNames.Pad("Ab", 8)) == "AB      " && FatNames.Upper(FatNames.Pad("c", 3)) == "C  "
  {
    assert FatNames.Spaces(6) == "      " && FatNames.Spaces(2) == "  ";
  }

  // ----- paths -----

  /** The path /a//b. */
  lemma PathBytes()
    ensures FileTree.Comps([47, 97, 47, 47, 98]) == [[97], [98]]
  {
    var p: seq<Byte> := [97, 47, 47, 98];
    assert [47, 97, 47, 47, 98][1..] == p;
    FileTree.SegLenOf([97], [47, 47, 98]);
    assert p == [97] + [47, 47, 98] && p[..1] == [97] && p[1..] == [47, 47, 98];
    assert p[1..][1..] == [47, 98] && [47, 98][1..] == [98];
    FileTree.SegLenOf([98], []);
    assert [98] + [] == [98] && [98][..1] == [98] && [98][1..] == [];
  }

  // ----- the shader language -----

  /** The characters of names, and the white space. */
  lemma NameCharacters(c: char)
    ensures LispSyntax.IsIdent(c)
            <==> 'a' <= c <= 'z' || 'A' <= c <= 'Z' || '0' <= c <= '9'
                 || c == '_' || c == '-' || c == '+' || c == '*' || c == '/' || c == '%' || c == '^' || c == '&'
                 || c == '|' || c == '~'
    ensures LispSyntax.IsSkippable(c) <==> c == ' ' || c == '\n' || c == '\t'
  {
  }

  const ITEMS: seq<LispSyntax.Expr> := [LispSyntax.ExprSymbol("f"), LispSyntax.ExprInt(1), LispSyntax.ExprString("x")]
  const WORDS: seq<LispSyntax.Token> :=
    [LispSyntax.OpenParen, LispSyntax.Ident("f"), LispSyntax.IntLit("1"), LispSyntax.StrLit("x"), LispSyntax.CloseParen]
  const GAPS: seq<string> := ["", " ", "\t", "", ";\n"]

  lemma ShaderTokens()
    ensures LispSyntax.Plain(LispSyntax.ExprList(ITEMS)) && LispSyntax.ExprTokens(LispSyntax.ExprList(ITEMS)) == WORDS
  {
    assert Digits(1) == "1";
    assert LispSyntax.ListTokens(ITEMS[3..]) == [];
    assert ITEMS[1..][1..] == ITEMS[2..] && ITEMS[2..][1..] == ITEMS[3..];
    assert LispSyntax.ListTokens(ITEMS[2..]) == [WORDS[3]];
    assert LispSyntax.ListTokens(ITEMS[1..]) == [WORDS[2]] + [WORDS[3]];
    assert LispSyntax.ListTokens(ITEMS) == [WORDS[1]] + ([WORDS[2]] + [WORDS[3]]);
  }

  lemma ShaderGaps()
    ensures forall i | 0 <= i < 5 :: LispSyntax.IsGap(GAPS[i])
  {
    assert " "[1..] == "" && "\t"[1..] == "";
    Text.FindIs(";\n", '\n', 1);
    assert ";\n"[2..] == "";
  }

  lemma LastRendered(t: LispSyntax.Token, g: string)
    ensures LispSyntax.Render([t], [g]) == LispSyntax.TokenText(t) + g
  {
    hide LispSyntax.TokenText;
    assert LispSyntax.Render([t], [g]) == LispSyntax.TokenText(t) + g + LispSyntax.Render([t][1..], [g][1..]);
    assert LispSyntax.TokenText(t) + g + "" == LispSyntax.TokenText(t) + g;
  }

  lemma NextRendered(ts: seq<LispSyntax.Token>, gaps: seq<string>, k: nat)
    requires k < |ts| == |gaps|
    ensures LispSyntax.Render(ts[k..], gaps[k..])
         == LispSyntax.TokenText(ts[k]) + gaps[k] + LispSyntax.Render(ts[k + 1..], gaps[k + 1..])
  {
    hide LispSyntax.TokenText;
    assert ts[k..][1..] == ts[k + 1..] && gaps[k..][1..] == gaps[k + 1..];
  }

  lemma ShaderRendered()
    ensures LispSyntax.Render(WORDS, GAPS) == "(f 1\t\"x\");\n"
  {
    hide LispSyntax.Render;
    assert WORDS[0..] == WORDS && GAPS[0..] == GAPS;
    ShaderEnd();
    NextRendered(WORDS, GAPS, 0);
    NextRendered(WORDS, GAPS, 1);
    assert "f" + " " + "1\t\"x\");\n" == "f 1\t\"x\");\n";
    assert "(" + "" + "f 1\t\"x\");\n" == "(f 1\t\"x\");\n";
  }

  lemma ShaderEnd()
    ensures LispSyntax.Render(WORDS[2..], GAPS[2..]) == "1\t\"x\");\n"
  {
    hide LispSyntax.Render;
    assert WORDS[4..] == [WORDS[4]] && GAPS[4..] == [GAPS[4]];
    LastRendered(WORDS[4], GAPS[4]);
    NextRendered(WORDS, GAPS, 3);
    NextRendered(WORDS, GAPS, 2);
    assert "\"x\"" + "" + ");\n" == "\"x\");\n";
  }

  /** A text with a comment, as an expression. */
  lemma ShaderText()
    ensures LispSyntax.ReadText("(f 1\t\"x\");\n")
         == Some(LispSyntax.ExprList([LispSyntax.ExprSymbol("f"), LispSyntax.ExprInt(1), LispSyntax.ExprString("x")]))
  {
    ShaderTokens();
    ShaderGaps();
    ShaderRendered();
    hide LispSyntax.Render;
    hide LispSyntax.IsGap;
    hide LispSyntax.ExprTokens;
    hide LispSyntax.ReadText;
    LispSyntax.ReadWritten(LispSyntax.ExprList(ITEMS), GAPS);
  }

  // ----- callable functions -----

  const RUN: Rap.Entry := Rap.Entry("run", [Rap.Param("p", "q")], 907)

  /** The line in which a function with a parameter is published, and one without. */
  lemma PublishedLine()
    ensures Rap.LineText(RUN) == "run(p q )=907\n"
  {
    DigitsOf907();
    assert Rap.ParamsText(RUN.params[1..]) == "";
    assert Rap.ParamsText(RUN.params) == "p" + " " + ("q" + " " + "");
    hide Rap.ParamsText;
    hide Digits;
    assert Rap.CallText(RUN) == "run" + "(" + ("p q " + (")=" + "907"));
  }

  lemma PublishedPlainLine()
    ensures Rap.LineText(Rap.Entry("yield", [], 907)) == "yield( )=907\n"
  {
    DigitsOf907();
    hide Digits;
    assert Rap.CallText(Rap.Entry("yield", [], 907)) == "yield" + "(" + (" " + (")=" + "907"));
  }

  /** The scheduler holds 512 parameters of one function. */
  lemma ParametersThatFit(f: Rap.Entry)
    requires Rap.WellFormed([f]) && Rap.Typed(f.params)
    ensures Rap.UserRap(Rap.Printed([f])) == Some([f]) <==> |f.params| <= 512
  {
    Rap.UserRecoversExactly([f]);
    hide Rap.UserRap;
    hide Rap.Printed;
  }

  // ----- page tables, stacks and the frame bitmap -----

  /** The kernel has 16 tables and 16 directories beside its own, and 128 MiB of memory; heaps start at
      0x50000000. */
  lemma Limits(p: Paging.Space, m: MmapRuns.Machine)
    ensures Paging.Sized(p) ==> |p.dirs| == 17 && |p.tables| == 17
    ensures MmapRuns.FramesKnown(m) ==> m.total * 4096 <= 0x800_0000
    ensures MmapRuns.HEAP_PAGE * 4096 == 0x5000_0000
    ensures MmapRuns.FramesKnown(m.(used := {0}, total := 0x8000))
  {
  }

  /** The processor's walk: ten bits of the address for the directory, ten for the table. */
  lemma Walk(a: U32)
    ensures Paging.Slot(Paging.PageOf(a)) == a / 0x40_0000 && Paging.Entry(Paging.PageOf(a)) == a / 0x1000 % 0x400
  {
  }

  /** A present entry: the page in the upper 20 bits, the flags below, bit 0 set. */
  lemma EntryWord()
    ensures PageTables.Word(0xB_FFF0, 3) == 0xBFFF_0003 && PageTables.DecodePte(0xBFFF_0003) == Paging.Maps(0xB_FFF0, 3)
    ensures PageTables.DecodePte(0xBFFF_0002) == Paging.Unmapped
    ensures PageTables.DecodePde(0x100, 0x10_4003) == Paging.Table(4) && PageTables.DecodePde(0x100, 0x10_4002) == Paging.Absent
    ensures PageTables.OrPresent(6) == 7 && PageTables.OrPresent(3) == 3
  {
  }

  /** A stack is 64 KiB that end with the page of 0xBFFF0000. */
  lemma StackAddresses(i: nat)
    requires i < 16
    ensures ProcessStack.StackPage(i) == 0xB_FFF0 - i && Paging.Slot(ProcessStack.StackPage(i)) == 767
  {
  }

  /** Frame 8 * k + j is bit j of byte k, counted from the low end. */
  lemma BitmapBits(j: nat)
    requires j < 8
    ensures forall b: bv8 :: Frames.Bit(b, j) == ((b >> j) & 1 == 1)
  {
  }

  // ----- a RivFs image -----

  /** A file a with one byte, 7, and an empty directory d. */
  const TREE: FileTree.Dir := FileTree.Dir([FileTree.FileNode([97], [7])], [FileTree.SubDir([100], FileTree.Dir([], []))])

  const HEADER: seq<Byte> := [114, 105, 118, 102, 115, 16, 0, 0, 0, 19, 0, 0, 0, 0, 0, 1, 0, 0, 0]
  const ROOT: seq<Byte> := [1, 0, 1, 0, 65, 0, 0, 0, 35, 0, 0, 0, 0, 0, 0, 0]
  const ROOT_FILES: seq<Byte> := [1, 0, 0, 0, 97, 1, 0, 0, 0, 7, 0, 0, 0, 0, 0, 0, 0, 0]
  const SUB_LISTS: seq<Byte> := [0, 0, 0, 0, 0, 0, 0, 0, 0, 0, 0, 0]
  const ROOT_SUBS: seq<Byte> := [1, 0, 0, 0, 100, 0, 0, 0, 0, 61, 0, 0, 0, 53, 0, 0, 0, 0, 0, 0, 0, 0, 0, 0, 0]

  lemma InPart(img: seq<Byte>, at: nat, part: seq<Byte>, k: nat)
    requires at + |part| <= |img| && img[at..at + |part|] == part
    ensures k < |part| ==> img[at + k] == part[k]
    ensures k + 2 <= |part| ==> U16At(img, at + k) == U16At(part, k)
    ensures k + 4 <= |part| ==> U32At(img, at + k) == U32At(part, k)
  {
    assert forall i | 0 <= i < |part| :: img[at + i] == part[i];
  }

  lemma HeaderSpelled(img: seq<Byte>)
    requires |img| == 90 && img[0..19] == HEADER
    ensures RivLayout.HeaderAt(img)
  {
    InPart(img, 0, HEADER, 5);
    InPart(img, 0, HEADER, 9);
    InPart(img, 0, HEADER, 13);
    InPart(img, 0, HEADER, 14);
    InPart(img, 0, HEADER, 15);
    assert img[..5] == img[0..19][..5] == RivLayout.MAGIC;
  }

  lemma FixedSpelled(img: seq<Byte>, at: nat, part: seq<Byte>, k: nat)
    requires at + |part| <= |img| && img[at..at + |part|] == part && k + 16 <= |part|
    ensures RivLayout.FixedPartAt(img, at + k)
         == RivLayout.BuiltDir(U32At(part, k + 4), U32At(part, k + 8), U16At(part, k), U16At(part, k + 2))
  {
    InPart(img, at, part, k);
    InPart(img, at, part, k + 2);
    InPart(img, at, part, k + 4);
    InPart(img, at, part, k + 8);
    hide U16At;
    hide U32At;
  }

  lemma FilesSpelled(img: seq<Byte>)
    requires |img| == 90 && img[35..53] == ROOT_FILES
    ensures RivLayout.FilesAt(img, 35, TREE.files) && RivLayout.FileOff(TREE.files, 1) == 10
  {
    InPart(img, 35, ROOT_FILES, 0);
    InPart(img, 35, ROOT_FILES, 4);
    InPart(img, 35, ROOT_FILES, 5);
    InPart(img, 35, ROOT_FILES, 9);
    InPart(img, 35, ROOT_FILES, 10);
    assert RivLayout.FileOff(TREE.files, 0) == 0;
    assert RivLayout.NameAt(img, 35, [97]);
    assert RivLayout.FileAt(img, 35, TREE.files, 0);
  }

  lemma EmptySpelled(img: seq<Byte>, sub: RivLayout.BuiltDir)
    requires |img| == 90 && img[53..65] == SUB_LISTS && sub == RivLayout.BuiltDir(61, 53, 0, 0)
    ensures RivLayout.Encodes(img, 35, sub, TREE.subs[0].dir)
  {
    InPart(img, 53, SUB_LISTS, 0);
    InPart(img, 53, SUB_LISTS, 8);
  }

  lemma SubNameSpelled(img: seq<Byte>)
    requires |img| == 90 && img[65..90] == ROOT_SUBS
    ensures RivLayout.DirOff(TREE.subs, 0) == 0 && RivLayout.DirOff(TREE.subs, 1) == 21
    ensures RivLayout.SubNameAt(img, 65, TREE.subs, 0) && RivLayout.EofAt(img, 86)
  {
    InPart(img, 65, ROOT_SUBS, 0);
    InPart(img, 65, ROOT_SUBS, 4);
    InPart(img, 65, ROOT_SUBS, 21);
    assert RivLayout.NameAt(img, 65, [100]);
  }

  lemma TreeSpelled(img: seq<Byte>, root: RivLayout.BuiltDir)
    requires |img| == 90 && root == RivLayout.BuiltDir(65, 35, 1, 1)
    requires img[35..53] == ROOT_FILES && img[53..65] == SUB_LISTS && img[65..90] == ROOT_SUBS
    ensures RivLayout.Encodes(img, 35, root, TREE)
  {
    FilesSpelled(img);
    SubNameSpelled(img);
    FixedSpelled(img, 65, ROOT_SUBS, 5);
    var sub := RivLayout.SubAt(img, 65, TREE.subs, 0);
    assert sub == RivLayout.BuiltDir(61, 53, 0, 0);
    EmptySpelled(img, sub);
    hide RivLayout.FilesAt;
    hide RivLayout.EofAt;
    hide RivLayout.SubNameAt;
    hide RivLayout.SubAt;
  }

  /** Its image: the header, the root's counts and offsets, and the lists, each behind those it points to. */
  lemma ImageBytes(img: seq<Byte>)
    requires |img| == 90 && img[0..19] == HEADER && img[19..35] == ROOT
    requires img[35..53] == ROOT_FILES && img[53..65] == SUB_LISTS && img[65..90] == ROOT_SUBS
    ensures RivLayout.ImageOf(img, TREE)
  {
    hide RivLayout.HeaderAt;
    hide RivLayout.Encodes;
    HeaderSpelled(img);
    RootSpelled(img);
    hide RivLayout.FixedPartAt;
    TreeSpelled(img, RivLayout.FixedPartAt(img, 19));
  }

  lemma RootSpelled(img: seq<Byte>)
    requires |img| == 90 && img[19..35] == ROOT
    ensures RivLayout.FixedPartAt(img, 19) == RivLayout.BuiltDir(65, 35, 1, 1)
  {
    FixedSpelled(img, 19, ROOT, 0);
    hide RivLayout.FixedPartAt;
  }

  // ----- the scheduler's clock -----

  /** Stack pointers and ticks wrap around. */
  lemma WrappingWords()
    ensures Preemption.Down(8, 12) == 0xFFFF_FFFC && Preemption.Down(0x1000, 12) == 0xFF4
    ensures Preemption.Up(0xFFFF_FFFC, 12) == 8 && Preemption.Up(0xFF4, 12) == 0x1000
    ensures Preemption.NextTick(0xFFFF_FFFF_FFFF_FFFF) == 0 && Preemption.NextTick(49) == 50
  {
  }
}
