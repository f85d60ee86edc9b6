/** The text form in which the kernel publishes its callable functions, and what its two readers make
    of such a text: the scheduler's own parser and the kernel's. Both scan for separators without
    checking for the end of the text; a scan that runs off it is `None`. */
module Rap {
  import opened Bytes
  import opened Numerals
  import opened Text

  datatype Param = Param(ty: string, name: string)
  datatype Entry = Entry(name: string, params: seq<Param>, addr: U32)

  const SEPARATORS: string := "()= \n\0"

  /** What the scheduler has room for: it asks for 16 parameters of 8 bytes and is given a page. */
  const PARAM_PLACES: nat := 4096 / 8

  predicate Clean(s: string) { forall i | 0 <= i < |s| :: s[i] !in SEPARATORS }

  predicate CleanParams(ps: seq<Param>) { forall i | 0 <= i < |ps| :: Clean(ps[i].ty) && Clean(ps[i].name) }

  predicate WellFormed(fs: seq<Entry>) {
    forall i | 0 <= i < |fs| :: Clean(fs[i].name) && CleanParams(fs[i].params)
  }

  predicate Typed(ps: seq<Param>) { forall i | 0 <= i < |ps| :: ps[i].ty != "" }

  // ----- the printed form -----

  function ParamsText(ps: seq<Param>): string {
    if ps == [] then "" else ps[0].ty + " " + (ps[0].name + " " + ParamsText(ps[1..]))
  }

  function ParamListText(ps: seq<Param>): string {
    if ps == [] then " " else ParamsText(ps)
  }

  function CallText(f: Entry): string {
    f.name + "(" + (ParamListText(f.params) + (")=" + Digits(f.addr)))
  }

  function LineText(f: Entry): string {
    CallText(f) + "\n"
  }

  function Printed(fs: seq<Entry>): string {
    if fs == [] then "" else LineText(fs[0]) + Printed(fs[1..])
  }

  // ----- scanning -----

  lemma CutAt(s: string, a: string, c: char, rest: string)
    requires s == a + [c] + rest && c !in a
    ensures Find(s, c) == |a| < |s| && s[..|a|] == a && s[|a| + 1..] == rest
  {
    FindIs(s, c, |a|);
  }

  lemma CutClean(s: string, a: string, c: char, rest: string)
    requires s == a + [c] + rest && Clean(a) && c in SEPARATORS
    ensures Find(s, c) == |a| < |s| && s[..|a|] == a && s[|a| + 1..] == rest
  {
    CutAt(s, a, c, rest);
  }

  lemma CountDrop(s: string, k: nat, c: char)
    requires k <= |s|
    ensures Count(s[k..], c) <= Count(s, c)
    ensures c in s[..k] ==> Count(s[k..], c) < Count(s, c)
  {
    assert s == s[..k] + s[k..];
    CountSplit(s[..k], s[k..], c);
    if c in s[..k] {
      CountSome(s[..k], c);
    }
  }

  lemma {:induction false} CountSome(s: string, c: char)
    requires c in s
    ensures Count(s, c) > 0
  {
    if s[0] != c {
      CountSome(s[1..], c);
    }
  }

  // ----- the scheduler's reader -----

  function AddParam(p: Param, r: Option<(seq<Param>, string)>): (q: Option<(seq<Param>, string)>)
    ensures q.Some? == r.Some? && (q.Some? ==> q.value.1 == r.value.1)
  {
    match r
    case None => None
    case Some(x) => Some(([p] + x.0, x.1))
  }

  /** The parameters and the text left, which starts with the closing parenthesis or, where a type of
      length zero stopped the loop, with a blank. */
  function UserParams(s: string, room: nat): (r: Option<(seq<Param>, string)>)
    ensures r.Some? ==> |r.value.1| <= |s|
    decreases |s|
  {
    if s != "" && s[0] == ')' then Some(([], s))
    else
      var n := Find(s, ' ');
      if n == |s| then None
      else if n == 0 then Some(([], s))
      else
        var t := s[n + 1..];
        var m := Find(t, ' ');
        if m == |t| || room == 0 then None
        else AddParam(Param(s[..n], t[..m]), UserParams(t[m + 1..], room - 1))
  }

  /** The address behind the next `=`, which the end of the line ends, and the text behind that. */
  function UserAddress(s: string): (r: Option<(U32, string)>)
    ensures r.Some? ==> |r.value.1| < |s|
  {
    var n := Find(s, '=');
    if n == |s| then None
    else
      var t := s[n + 1..];
      var m := Find(t, '\n');
      if m == |t| then None
      else
        var line := t[..m];
        Some((Low32(Value(line[..DigitRun(line)])), t[m + 1..]))
  }

  /** One entry and the text behind its line. */
  function UserEntry(s: string): (r: Option<(Entry, string)>)
    ensures r.Some? ==> |r.value.1| < |s|
  {
    var n := Find(s, '(');
    if n == |s| then None
    else
      var ps := UserParams(s[n + 1..], PARAM_PLACES);
      if ps.None? then None
      else
        var a := UserAddress(ps.value.1);
        if a.None? then None
        else Some((Entry(s[..n], ps.value.0, a.value.0), a.value.1))
  }

  /** The address behind the first entry of that name; no such entry gives a null pointer. */
  function AddrOf(es: seq<Entry>, name: string): U32 {
    if es == [] then 0 else if es[0].name == name then es[0].addr else AddrOf(es[1..], name)
  }

  function AddEntry(e: Entry, r: Option<seq<Entry>>): Option<seq<Entry>> {
    match r
    case None => None
    case Some(es) => Some([e] + es)
  }

  /** What the scheduler reads from a text. */
  function UserRap(s: string): Option<seq<Entry>>
    decreases |s|
  {
    if s == "" then Some([])
    else
      var e := UserEntry(s);
      if e.None? then None else AddEntry(e.value.0, UserRap(e.value.1))
  }

  /** The text behind the first two words. */
  function BehindTwo(s: string): (r: Option<string>)
    ensures r.Some? ==> |r.value| < |s|
  {
    var n := Find(s, ' ');
    if n == |s| then None
    else
      var t := s[n + 1..];
      var m := Find(t, ' ');
      if m == |t| then None else Some(t[m + 1..])
  }

  lemma BehindTwoKeepsLines(s: string)
    ensures BehindTwo(s).Some? ==> Count(BehindTwo(s).value, '\n') <= Count(s, '\n')
  {
    hide Find;
    hide Count;
    var n := Find(s, ' ');
    if n < |s| {
      CountDrop(s, n + 1, '\n');
      var t := s[n + 1..];
      var m := Find(t, ' ');
      if m < |t| {
        CountDrop(t, m + 1, '\n');
      }
    }
  }

  /** What is left behind the parameters is the text itself, or what is left behind those from the
      second parameter on. */
  lemma UserParamsLeave(s: string, room: nat)
    requires UserParams(s, room).Some?
    ensures UserParams(s, room).value.1 == s
         || (room > 0 && BehindTwo(s).Some? && UserParams(BehindTwo(s).value, room - 1).Some?
             && UserParams(s, room).value.1 == UserParams(BehindTwo(s).value, room - 1).value.1)
  {
    hide Find;
    hide AddParam;
  }

  lemma {:induction false} UserParamsKeepLines(s: string, room: nat)
    ensures UserParams(s, room).Some? ==> Count(UserParams(s, room).value.1, '\n') <= Count(s, '\n')
    decreases room
  {
    hide Count;
    hide BehindTwo;
    hide UserParams;
    if UserParams(s, room).Some? && UserParams(s, room).value.1 != s {
      UserParamsLeave(s, room);
      BehindTwoKeepsLines(s);
      UserParamsKeepLines(BehindTwo(s).value, room - 1);
    }
  }

  lemma UserAddressTakesLine(s: string)
    ensures UserAddress(s).Some? ==> Count(UserAddress(s).value.1, '\n') < Count(s, '\n')
  {
    hide Find;
    hide Count;
    var n := Find(s, '=');
    if n < |s| {
      CountDrop(s, n + 1, '\n');
      var t := s[n + 1..];
      var m := Find(t, '\n');
      if m < |t| {
        assert t[..m + 1][m] == '\n';
        CountDrop(t, m + 1, '\n');
      }
    }
  }

  /** Every entry takes up a line, so that the scheduler never passes the room it made for them. */
  lemma UserEntryTakesLine(s: string)
    ensures UserEntry(s).Some? ==> Count(UserEntry(s).value.1, '\n') < Count(s, '\n')
  {
    hide Find;
    hide Count;
    hide UserParams;
    hide UserAddress;
    var n := Find(s, '(');
    if n < |s| {
      CountDrop(s, n + 1, '\n');
      UserParamsKeepLines(s[n + 1..], PARAM_PLACES);
      var ps := UserParams(s[n + 1..], PARAM_PLACES);
      if ps.Some? {
        UserAddressTakesLine(ps.value.1);
      }
    }
  }

  lemma UserRapStep(s: string)
    ensures UserRap(s) == if s == "" then Some([])
                          else if UserEntry(s).None? then None
                          else AddEntry(UserEntry(s).value.0, UserRap(UserEntry(s).value.1))
  {
    hide UserEntry;
    hide AddEntry;
  }

  /** On every text, well formed or not, there are no more entries than lines. */
  lemma {:induction false} EntriesWithinLines(s: string)
    ensures UserRap(s).Some? ==> |UserRap(s).value| <= Count(s, '\n')
    decreases |s|
  {
    hide Count;
    hide UserEntry;
    hide UserRap;
    UserRapStep(s);
    if s != "" && UserEntry(s).Some? {
      UserEntryTakesLine(s);
      EntriesWithinLines(UserEntry(s).value.1);
    }
  }

  // ----- the kernel's reader -----

  function KernelParams(s: string): (r: Option<(seq<Param>, string)>)
    ensures r.Some? ==> |r.value.1| <= |s|
    decreases |s|
  {
    if s != "" && s[0] == ')' then Some(([], s))
    else
      var n := Find(s, ' ');
      if n == |s| then None
      else
        var t := s[n + 1..];
        var m := Find(t, ' ');
        if m == |t| then None
        else AddParam(Param(s[..n], t[..m]), KernelParams(t[m + 1..]))
  }

  /** One entry, and the text behind its line where the line has an end. */
  function KernelEntry(s: string): (r: Option<(Entry, Option<string>)>)
    ensures r.Some? && r.value.1.Some? ==> |r.value.1.value| < |s|
  {
    var n := Find(s, '(');
    if n == |s| then None
    else
      var ps := KernelParams(s[n + 1..]);
      if ps.None? || |ps.value.1| < 2 then None
      else
        var t := ps.value.1[2..];
        var d := Find(t, '\n');
        Some((Entry(s[..n], ps.value.0, Pattern(StoiValue(t[..d]))),
              if d == |t| then None else Some(t[d + 1..])))
  }

  /** What the kernel reads from the rest `s` of a text of `lines` lines after `done` entries. */
  function KernelRest(s: string, lines: nat, done: nat): Option<seq<Entry>>
    decreases |s|
  {
    var e := KernelEntry(s);
    if e.None? then None
    else if done + 1 >= lines || e.value.1 == Some("") then Some([e.value.0])
    else if e.value.1.None? then None
    else AddEntry(e.value.0, KernelRest(e.value.1.value, lines, done + 1))
  }

  function KernelRap(s: string): Option<seq<Entry>> {
    KernelRest(s, Count(s, '\n'), 0)
  }

  // ----- reading back what was printed -----

  lemma UserParamStep(p: Param, rest: string, room: nat)
    requires Clean(p.ty) && Clean(p.name)
    ensures var s := p.ty + " " + (p.name + " " + rest);
      UserParams(s, room) == if p.ty == "" then Some(([], s)) else if room == 0 then None else AddParam(p, UserParams(rest, room - 1))
  {
    var t := p.name + " " + rest;
    var s := p.ty + " " + t;
    CutClean(s, p.ty, ' ', t);
    CutClean(t, p.name, ' ', rest);
    assert s[0] == if p.ty == "" then ' ' else p.ty[0];
  }

  lemma UserParamsDone(tail: string, room: nat)
    requires tail != "" && tail[0] == ')'
    ensures UserParams(ParamsText([]) + tail, room) == Some(([], tail))
  {
    assert ParamsText([]) + tail == tail;
  }

  lemma Regroup(a: string, b: string, c: string)
    ensures a + b + c == a + (b + c)
  {
  }

  lemma ParamsTextFirst(ps: seq<Param>, tail: string)
    requires ps != []
    ensures ParamsText(ps) + tail == ps[0].ty + " " + (ps[0].name + " " + (ParamsText(ps[1..]) + tail))
  {
    Regroup(ps[0].ty + " ", ps[0].name + " " + ParamsText(ps[1..]), tail);
    Regroup(ps[0].name + " ", ParamsText(ps[1..]), tail);
  }

  lemma {:induction false} UserParamsOfPrinted(ps: seq<Param>, tail: string, room: nat)
    requires CleanParams(ps) && tail != "" && tail[0] == ')'
    ensures var r := UserParams(ParamsText(ps) + tail, room);
      if Typed(ps) && |ps| <= room then r == Some((ps, tail)) else r.Some? ==> |r.value.0| < |ps|
  {
    hide UserParams;
    hide ParamsText;
    hide Clean;
    if ps == [] {
      UserParamsDone(tail, room);
    } else {
      ParamsTextFirst(ps, tail);
      UserParamStep(ps[0], ParamsText(ps[1..]) + tail, room);
      if ps[0].ty != "" && room > 0 {
        UserParamsOfPrinted(ps[1..], tail, room - 1);
      }
      assert Typed(ps) <==> ps[0].ty != "" && Typed(ps[1..]);
      assert ps == [ps[0]] + ps[1..];
    }
  }

  lemma AddressOfPrinted(f: Entry, tail: string)
    ensures UserAddress(")=" + (Digits(f.addr) + "\n" + tail)) == Some((f.addr, tail))
  {
    var t := Digits(f.addr) + "\n" + tail;
    var s := ")=" + t;
    assert s == ")" + "=" + t;
    CutAt(s, ")", '=', t);
    AddressLine(f.addr, tail);
  }

  lemma AddressLine(addr: U32, tail: string)
    ensures var d := Digits(addr); var t := d + "\n" + tail;
      Find(t, '\n') == |d| < |t| && t[..|d|] == d && t[|d| + 1..] == tail && DigitRun(d) == |d| && Value(d[..|d|]) == addr
  {
    var d := Digits(addr);
    var t := d + "\n" + tail;
    NoNewline(d);
    CutAt(t, d, '\n', tail);
    assert d[..|d|] == d;
    DigitRunIs(d, |d|);
    ValueOfDigits(addr);
  }

  lemma NoNewline(d: string)
    requires AllDigits(d)
    ensures '\n' !in d
  {
  }

  lemma UserEntryOfPrinted(f: Entry, tail: string)
    requires Clean(f.name) && CleanParams(f.params)
    ensures Typed(f.params) && |f.params| <= PARAM_PLACES ==> UserEntry(LineText(f) + tail) == Some((f, tail))
    ensures !(Typed(f.params) && |f.params| <= PARAM_PLACES) && UserEntry(LineText(f) + tail).Some? ==>
      && |UserEntry(LineText(f) + tail).value.0.params| < |f.params|
  {
    hide Find;
    hide UserParams;
    hide UserAddress;
    var s := LineText(f) + tail;
    var close := ")=" + (Digits(f.addr) + "\n" + tail);
    LineParts(f, tail);
    CutClean(s, f.name, '(', ParamListText(f.params) + close);
    AddressOfPrinted(f, tail);
    hide LineText;
    hide Digits;
    if f.params == [] {
      assert ParamListText(f.params) + close == " " + close;
      BlankStopsParams(close);
      SkipBlank(close);
    } else {
      UserParamsOfPrinted(f.params, close, PARAM_PLACES);
    }
  }

  lemma BlankStopsParams(close: string)
    ensures UserParams(" " + close, PARAM_PLACES) == Some(([], " " + close))
  {
    FindIs(" " + close, ' ', 0);
  }

  lemma FindBehindBlank(close: string)
    ensures Find(" " + close, '=') == 1 + Find(close, '=')
    ensures var n := Find(close, '='); n < |close| ==> (" " + close)[n + 2..] == close[n + 1..]
  {
    var s := " " + close;
    assert s[1..] == close;
    var n := Find(close, '=');
    hide Find;
    if n < |close| {
      assert s[n + 2..] == close[n + 1..];
    }
  }

  lemma SkipBlank(close: string)
    ensures UserAddress(" " + close) == UserAddress(close)
  {
    FindBehindBlank(close);
    hide Find;
    hide Value;
    hide DigitRun;
  }

  /** A list of functions the scheduler's parser can hold: no more parameters than a page does, and no empty
      type. */
  predicate UserReadable(fs: seq<Entry>) {
    forall i | 0 <= i < |fs| :: Typed(fs[i].params) && |fs[i].params| <= PARAM_PLACES
  }

  /** The scheduler recovers every printed list of functions whose parameters it can hold, and only those. */
  lemma {:induction false} UserRecoversExactly(fs: seq<Entry>)
    requires WellFormed(fs)
    ensures UserRap(Printed(fs)) == Some(fs) <==> UserReadable(fs)
  {
    hide UserEntry;
    hide LineText;
    hide Clean;
    if fs != [] {
      UserEntryOfPrinted(fs[0], Printed(fs[1..]));
      UserRecoversExactly(fs[1..]);
      assert fs == [fs[0]] + fs[1..];
      assert UserReadable(fs) <==> Typed(fs[0].params) && |fs[0].params| <= PARAM_PLACES && UserReadable(fs[1..]);
      LineNotEmpty(fs[0]);
    }
  }

  lemma LineNotEmpty(f: Entry)
    ensures LineText(f) != ""
  {
  }

  // ----- the kernel's reader on the same text -----

  lemma KernelParamStep(p: Param, rest: string)
    requires Clean(p.ty) && Clean(p.name)
    ensures KernelParams(p.ty + " " + (p.name + " " + rest)) == AddParam(p, KernelParams(rest))
  {
    var t := p.name + " " + rest;
    var s := p.ty + " " + t;
    CutClean(s, p.ty, ' ', t);
    CutClean(t, p.name, ' ', rest);
    assert s[0] == if p.ty == "" then ' ' else p.ty[0];
  }

  lemma KernelParamsDone(tail: string)
    requires tail != "" && tail[0] == ')'
    ensures KernelParams(ParamsText([]) + tail) == Some(([], tail))
  {
    assert ParamsText([]) + tail == tail;
  }

  lemma {:induction false} KernelParamsOfPrinted(ps: seq<Param>, tail: string)
    requires CleanParams(ps) && tail != "" && tail[0] == ')'
    ensures KernelParams(ParamsText(ps) + tail) == Some((ps, tail))
  {
    hide KernelParams;
    hide ParamsText;
    hide Clean;
    if ps == [] {
      KernelParamsDone(tail);
    } else {
      ParamsTextFirst(ps, tail);
      KernelParamStep(ps[0], ParamsText(ps[1..]) + tail);
      KernelParamsOfPrinted(ps[1..], tail);
      assert ps == [ps[0]] + ps[1..];
    }
  }

  /** Where a function has no parameters the blank in its place is read as a parameter. */
  lemma KernelReadsBlank(close: string)
    ensures KernelParams(" " + close).Some? ==> KernelParams(" " + close).value.0 != []
  {
    assert (" " + close)[0] == ' ';
  }

  lemma StoiPattern(a: U32)
    ensures Pattern(StoiValue(Digits(a))) == a
  {
    ValueOfDigits(a);
    PatternOfSigned(a);
    assert IsDigit(Digits(a)[0]);
  }

  lemma KernelEntryOfPrinted(f: Entry, tail: string)
    requires Clean(f.name) && CleanParams(f.params)
    ensures f.params != [] ==> KernelEntry(LineText(f) + tail) == Some((f, Some(tail)))
    ensures f.params == [] && KernelEntry(LineText(f) + tail).Some? ==> KernelEntry(LineText(f) + tail).value.0.params != []
  {
    hide Find;
    hide KernelParams;
    var s := LineText(f) + tail;
    var line := Digits(f.addr) + "\n" + tail;
    var close := ")=" + line;
    LineParts(f, tail);
    CutClean(s, f.name, '(', ParamListText(f.params) + close);
    if f.params == [] {
      KernelReadsBlank(close);
    } else {
      KernelParamsOfPrinted(f.params, close);
      assert close[2..] == line;
      AddressLine(f.addr, tail);
      StoiPattern(f.addr);
    }
  }

  lemma LineParts(f: Entry, tail: string)
    ensures LineText(f) + tail == f.name + "(" + (ParamListText(f.params) + (")=" + (Digits(f.addr) + "\n" + tail)))
  {
    var end := "\n" + tail;
    Regroup(CallText(f), "\n", tail);
    Regroup(f.name + "(", ParamListText(f.params) + (")=" + Digits(f.addr)), end);
    Regroup(ParamListText(f.params), ")=" + Digits(f.addr), end);
    Regroup(")=", Digits(f.addr), end);
    Regroup(Digits(f.addr), "\n", tail);
  }

  predicate AllTakeParameters(fs: seq<Entry>) { forall i | 0 <= i < |fs| :: fs[i].params != [] }

  lemma {:induction false} KernelRestOfPrinted(fs: seq<Entry>, done: nat)
    requires WellFormed(fs) && fs != []
    ensures KernelRest(Printed(fs), done + |fs|, done) == Some(fs) <==> AllTakeParameters(fs)
  {
    hide KernelEntry;
    hide LineText;
    hide Clean;
    var tail := Printed(fs[1..]);
    KernelEntryOfPrinted(fs[0], tail);
    assert fs == [fs[0]] + fs[1..];
    assert AllTakeParameters(fs) <==> fs[0].params != [] && AllTakeParameters(fs[1..]);
    if |fs| > 1 {
      KernelRestOfPrinted(fs[1..], done + 1);
      LineNotEmpty(fs[1]);
      assert tail == LineText(fs[1]) + Printed(fs[1..][1..]);
      assert tail != "";
    } else {
      assert fs[1..] == [] && fs == [fs[0]];
    }
  }

  lemma {:induction false} NoNewlineInParams(ps: seq<Param>)
    requires CleanParams(ps)
    ensures '\n' !in ParamsText(ps)
  {
    if ps != [] {
      NoNewlineInParams(ps[1..]);
    }
  }

  lemma OneLine(f: Entry)
    requires Clean(f.name) && CleanParams(f.params)
    ensures Count(LineText(f), '\n') == 1
  {
    NoNewlineInParams(f.params);
    NoNewline(Digits(f.addr));
    CountNone(CallText(f), '\n');
    CountSplit(CallText(f), "\n", '\n');
  }

  /** One line a function: what the scheduler makes room for is exactly what it fills. */
  lemma {:induction false} LinesOfPrinted(fs: seq<Entry>)
    requires WellFormed(fs)
    ensures Count(Printed(fs), '\n') == |fs|
  {
    if fs != [] {
      OneLine(fs[0]);
      LinesOfPrinted(fs[1..]);
      CountSplit(LineText(fs[0]), Printed(fs[1..]), '\n');
    }
  }

  lemma KernelRapOfPrinted(fs: seq<Entry>)
    requires WellFormed(fs) && fs != []
    ensures KernelRap(Printed(fs)) == Some(fs) <==> AllTakeParameters(fs)
  {
    LinesOfPrinted(fs);
    assert KernelRap(Printed(fs)) == KernelRest(Printed(fs), |fs|, 0) by {
      hide KernelRest;
    }
    KernelRestOfPrinted(fs, 0);
    hide *;
  }

  /** The kernel recovers a printed list exactly when it is not empty and every function in it has a
      parameter. Addresses of 2^31 and above come back because the signed arithmetic is taken to wrap. */
  lemma KernelRecoversExactly(fs: seq<Entry>)
    requires WellFormed(fs)
    ensures KernelRap(Printed(fs)) == Some(fs) <==> fs != [] && AllTakeParameters(fs)
  {
    KernelReadsNothing();
    assert Printed([]) == "";
    hide *;
    if fs != [] {
      KernelRapOfPrinted(fs);
    }
  }

  lemma KernelReadsNothing()
    ensures KernelRap("") == None
  {
    assert KernelEntry("") == None;
  }

  /** On the texts the scheduler can read, the two readers agree exactly when every function has a parameter. */
  lemma ReadersAgreeExactly(fs: seq<Entry>)
    requires WellFormed(fs) && UserReadable(fs)
    ensures KernelRap(Printed(fs)) == UserRap(Printed(fs)) <==> fs != [] && AllTakeParameters(fs)
  {
    UserRecoversExactly(fs);
    KernelRecoversExactly(fs);
  }

  lemma {:induction false} PrintedAppend(fs: seq<Entry>, f: Entry)
    ensures Printed(fs + [f]) == Printed(fs) + LineText(f)
  {
    if fs == [] {
      assert [f][1..] == [];
      assert Printed([f]) == LineText(f);
    } else {
      assert (fs + [f])[1..] == fs[1..] + [f];
      PrintedAppend(fs[1..], f);
      Regroup(LineText(fs[0]), Printed(fs[1..]), LineText(f));
    }
  }

  lemma {:induction false} FirstNamed(es: seq<Entry>, i: nat)
    requires i < |es| && forall j | 0 <= j < i :: es[j].name != es[i].name
    ensures AddrOf(es, es[i].name) == es[i].addr
  {
    if i > 0 {
      assert es[0].name != es[i].name;
      FirstNamed(es[1..], i - 1);
    }
  }
}
