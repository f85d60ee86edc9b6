/** The two readers of the function list as they run: cursors moving over the text, the scheduler's
    filling an array it made room for beforehand, the kernel's appending to its mapping. */
module RapReaders {
  import opened Bytes
  import opened Numerals
  import opened Text
  import opened Rap
  import opened RapPrinter

  const MEM_DEF_ALLOCSIZE: nat := 0x1_0000

  /** `countOccurence` */
  method CountOccurence(s: string, c: char) returns (count: nat)
    ensures count == Count(s, c)
  {
    count := 0;
    for i := 0 to |s|
      invariant count + Count(s[i..], c) == Count(s, c)
    {
      assert s[i..][1..] == s[i + 1..];
      if s[i] == c {
        count := count + 1;
      }
    }
  }

  // ----- the scheduler's -----

  function WithParams(ps: seq<Param>, r: Option<(seq<Param>, string)>): Option<(seq<Param>, string)> {
    match r
    case None => None
    case Some(x) => Some((ps + x.0, x.1))
  }

  lemma WithNoParams(r: Option<(seq<Param>, string)>)
    ensures WithParams([], r) == r
  {
    if r.Some? {
      assert [] + r.value.0 == r.value.0;
    }
  }

  lemma WithOneMore(ps: seq<Param>, p: Param, r: Option<(seq<Param>, string)>)
    ensures WithParams(ps, AddParam(p, r)) == WithParams(ps + [p], r)
  {
    if r.Some? {
      assert ps + ([p] + r.value.0) == ps + [p] + r.value.0;
    }
  }

  lemma UserParamsMore(s: string, n: nat, t: string, m: nat, room: nat)
    requires s != "" && s[0] != ')' && n == Find(s, ' ') && 0 < n < |s| && t == s[n + 1..] && m == Find(t, ' ') && m < |t|
    ensures UserParams(s, room)
         == if room == 0 then None else AddParam(Param(s[..n], t[..m]), UserParams(t[m + 1..], room - 1))
  {
    hide Find;
    hide AddParam;
  }

  lemma UserParamsCut(s: string, n: nat, t: string, room: nat)
    requires s != "" && s[0] != ')' && n == Find(s, ' ') && 0 < n < |s| && t == s[n + 1..] && Find(t, ' ') == |t|
    ensures UserParams(s, room) == None
  {
    hide Find;
    hide AddParam;
  }

  /** One step of the scheduler's parameter loop at position `p`. */
  lemma UserParamsAt(text: string, p: nat, n: nat, m: nat, room: nat)
    requires p < n < m <= |text| && text[p] != ')'
    requires n - p == Find(text[p..], ' ') && m - n - 1 == Find(text[n + 1..], ' ')
    ensures UserParams(text[p..], room)
         == if m == |text| || room == 0 then None
            else AddParam(Param(text[p..n], text[n + 1..m]), UserParams(text[m + 1..], room - 1))
  {
    hide Find;
    hide UserParams;
    hide AddParam;
    Slice(text, p, n);
    if m < |text| {
      UserParamsMore(text[p..], n - p, text[n + 1..], m - n - 1, room);
      Slice(text, n + 1, m);
    } else {
      UserParamsCut(text[p..], n - p, text[n + 1..], room);
    }
  }

  lemma UserParamsStop(s: string, room: nat)
    requires s == "" || s[0] != ')'
    ensures Find(s, ' ') == |s| ==> UserParams(s, room) == None
    ensures s != "" && Find(s, ' ') == 0 ==> UserParams(s, room) == Some(([], s))
  {
    hide Find;
  }

  lemma UserParamsClosed(s: string, room: nat)
    requires s != "" && s[0] == ')'
    ensures UserParams(s, room) == Some(([], s))
  {
  }

  lemma Slice(text: string, p: nat, n: nat)
    requires p <= n < |text|
    ensures text[p..][..n - p] == text[p..n] && text[p..][n - p + 1..] == text[n + 1..]
  {
  }

  /** The parameters read so far and those still to be read. */
  lemma UserParamsOn(ps: seq<Param>, text: string, p: nat, n: nat, m: nat, room: nat)
    requires p < n < m < |text| && text[p] != ')' && room > 0
    requires n - p == Find(text[p..], ' ') && m - n - 1 == Find(text[n + 1..], ' ')
    ensures WithParams(ps, UserParams(text[p..], room))
         == WithParams(ps + [Param(text[p..n], text[n + 1..m])], UserParams(text[m + 1..], room - 1))
  {
    hide Find;
    hide UserParams;
    hide WithParams;
    UserParamsAt(text, p, n, m, room);
    WithOneMore(ps, Param(text[p..n], text[n + 1..m]), UserParams(text[m + 1..], room - 1));
  }

  lemma ParamsFail(ps: seq<Param>, r: Option<(seq<Param>, string)>)
    ensures WithParams(ps, r) == None <==> r == None
  {
  }

  lemma ParamsEnd(ps: seq<Param>, s: string)
    ensures WithParams(ps, Some(([], s))) == Some((ps, s))
  {
    assert ps + [] == ps;
  }

  method PutParam(paramArr: array<Param>, paramCount: nat, param: Param)
    requires paramCount < paramArr.Length
    modifies paramArr
    ensures paramArr[..paramCount + 1] == old(paramArr[..paramCount]) + [param]
  {
    paramArr[paramCount] := param;
  }

  method UserParamsFrom(text: string, start: nat) returns (ok: bool, params: seq<Param>, p: nat)
    requires start <= |text|
    ensures p <= |text| && UserParams(text[start..], PARAM_PLACES) == if ok then Some((params, text[p..])) else None
  {
    hide Find;
    hide UserParams;
    hide WithParams;
    var paramArr := new Param[PARAM_PLACES];
    var paramCount := 0;
    p := start;
    params := [];
    WithNoParams(UserParams(text[start..], PARAM_PLACES));
    while p == |text| || text[p] != ')'
      invariant p <= |text| && paramCount <= PARAM_PLACES == paramArr.Length
      invariant WithParams(paramArr[..paramCount], UserParams(text[p..], PARAM_PLACES - paramCount))
             == UserParams(text[start..], PARAM_PLACES)
      decreases |text| - p
    {
      var n := ScanTo(text, p, ' ');
      UserParamsStop(text[p..], PARAM_PLACES - paramCount);
      ParamsFail(paramArr[..paramCount], UserParams(text[p..], PARAM_PLACES - paramCount));
      if n == |text| {
        return false, [], p;
      }
      if n == p {
        break;
      }
      var m := ScanTo(text, n + 1, ' ');
      if m == |text| || paramCount == PARAM_PLACES {
        UserParamsAt(text, p, n, m, PARAM_PLACES - paramCount);
        return false, [], p;
      }
      UserParamsOn(paramArr[..paramCount], text, p, n, m, PARAM_PLACES - paramCount);
      PutParam(paramArr, paramCount, Param(text[p..n], text[n + 1..m]));
      paramCount := paramCount + 1;
      p := m + 1;
    }
    if text[p] == ')' {
      UserParamsClosed(text[p..], PARAM_PLACES - paramCount);
    }
    ParamsEnd(paramArr[..paramCount], text[p..]);
    ok := true;
    params := paramArr[..paramCount];
  }

  method UserAddressFrom(text: string, start: nat) returns (ok: bool, addr: U32, p: nat)
    requires start <= |text|
    ensures p <= |text| && UserAddress(text[start..]) == if ok then Some((addr, text[p..])) else None
  {
    hide Find;
    hide Value;
    hide DigitRun;
    p := start;
    addr := 0;
    var n := ScanTo(text, p, '=');
    if n == |text| {
      return false, 0, p;
    }
    Slice(text, start, n);
    var m := ScanTo(text, n + 1, '\n');
    if m == |text| {
      return false, 0, p;
    }
    Slice(text, n + 1, m);
    addr := Stou(text[n + 1..m]);
    ok := true;
    p := m + 1;
  }

  lemma UserEntryAt(text: string, p: nat, n: nat, ps: Option<(seq<Param>, string)>)
    requires p <= n < |text| && n - p == Find(text[p..], '(') && ps == UserParams(text[n + 1..], PARAM_PLACES)
    ensures UserEntry(text[p..])
         == if ps.None? || UserAddress(ps.value.1).None? then None
            else Some((Entry(text[p..n], ps.value.0, UserAddress(ps.value.1).value.0), UserAddress(ps.value.1).value.1))
  {
    hide Find;
    hide UserParams;
    hide UserAddress;
    Slice(text, p, n);
  }

  lemma UserEntryCut(s: string)
    requires Find(s, '(') == |s|
    ensures UserEntry(s) == None
  {
  }

  /** The body of the scheduler's loop: the entry at position `start` and the position behind its line. */
  method UserEntryFrom(text: string, start: nat) returns (ok: bool, entry: Entry, p: nat)
    requires start <= |text|
    ensures p <= |text| && UserEntry(text[start..]) == if ok then Some((entry, text[p..])) else None
  {
    hide Find;
    hide UserParams;
    hide UserAddress;
    hide UserEntry;
    entry := Entry("", [], 0);
    var n := ScanTo(text, start, '(');
    if n == |text| {
      UserEntryCut(text[start..]);
      return false, entry, start;
    }
    UserEntryAt(text, start, n, UserParams(text[n + 1..], PARAM_PLACES));
    var params, q;
    ok, params, q := UserParamsFrom(text, n + 1);
    if !ok {
      return false, entry, start;
    }
    var addr;
    ok, addr, p := UserAddressFrom(text, q);
    if ok {
      entry := Entry(text[start..n], params, addr);
    }
  }

  function WithEntries(es: seq<Entry>, r: Option<seq<Entry>>): Option<seq<Entry>> {
    match r
    case None => None
    case Some(more) => Some(es + more)
  }

  lemma WithNoEntries(r: Option<seq<Entry>>)
    ensures WithEntries([], r) == r
  {
    if r.Some? {
      assert [] + r.value == r.value;
    }
  }

  lemma WithOneEntry(es: seq<Entry>, e: Entry, r: Option<seq<Entry>>)
    ensures WithEntries(es, AddEntry(e, r)) == WithEntries(es + [e], r)
  {
    if r.Some? {
      assert es + ([e] + r.value) == es + [e] + r.value;
    }
  }

  /** `parseRap` on the text in its buffer. The array has room for one entry a line; those read fill it
      from the front. */
  method ParseRap(text: string) returns (ok: bool, arr: array<Entry>, entryIndex: nat)
    ensures fresh(arr) && arr.Length == Count(text, '\n') && entryIndex <= arr.Length
    ensures UserRap(text) == if ok then Some(arr[..entryIndex]) else None
  {
    hide UserEntry;
    hide Count;
    var rapEntries := CountOccurence(text, '\n');
    arr := new Entry[rapEntries](_ => Entry("", [], 0));
    entryIndex := 0;
    ok := true;
    var p := 0;
    WithNoEntries(UserRap(text));
    assert text[0..] == text && arr[..0] == [];
    while p < |text|
      invariant p <= |text| && entryIndex + Count(text[p..], '\n') <= arr.Length == Count(text, '\n')
      invariant WithEntries(arr[..entryIndex], UserRap(text[p..])) == UserRap(text)
    {
      UserEntryTakesLine(text[p..]);
      var ok1, entry, q := UserEntryFrom(text, p);
      assert UserRap(text[p..]) == if !ok1 then None else AddEntry(entry, UserRap(text[q..]));
      if !ok1 {
        return false, arr, 0;
      }
      ghost var before := arr[..entryIndex];
      WithOneEntry(before, entry, UserRap(text[q..]));
      arr[entryIndex] := entry;
      entryIndex := entryIndex + 1;
      assert arr[..entryIndex] == before + [entry];
      p := q;
    }
    assert arr[..entryIndex] + [] == arr[..entryIndex];
  }

  /** `getRapAddr` */
  method GetRapAddr(arr: array<Entry>, func: string) returns (addr: U32)
    ensures addr == AddrOf(arr[..], func)
  {
    for i := 0 to arr.Length
      invariant AddrOf(arr[..], func) == AddrOf(arr[i..], func)
    {
      assert arr[i..][1..] == arr[i + 1..];
      if arr[i].name == func {
        return arr[i].addr;
      }
    }
    return 0;
  }

  lemma CleanAreStrings(fs: seq<Entry>)
    requires WellFormed(fs)
    ensures forall i | 0 <= i < |fs| :: CStrings(fs[i])
  {
    forall i | 0 <= i < |fs| ensures CStrings(fs[i]) {
      var f := fs[i];
      assert Clean(f.name) && CleanParams(f.params);
    }
  }

  lemma {:induction false} NoNulInParams(ps: seq<Param>)
    requires CleanParams(ps)
    ensures NUL !in ParamsText(ps)
  {
    if ps != [] {
      NoNulInParams(ps[1..]);
    }
  }

  lemma {:induction false} NoNulPrinted(fs: seq<Entry>)
    requires WellFormed(fs)
    ensures NUL !in Printed(fs)
  {
    if fs != [] {
      var f := fs[0];
      assert Clean(f.name) && CleanParams(f.params);
      NoNulInParams(f.params);
      NoNulPrinted(fs[1..]);
      hide ParamsText;
      hide Digits;
    }
  }

  /** Up to its first NUL a zero-filled buffer holds the printed list, if that is shorter than the buffer. */
  lemma TextInBuffer(text: string, now: string, was: string)
    requires |now| == |was| && Filled(now, was, text, |was|) && NUL !in text && forall i | 0 <= i < |was| :: was[i] == NUL
    ensures Find(now, NUL) == if |text| < |now| then |text| else |now|
    ensures |text| < |now| ==> now[..|text|] == text
  {
    if |text| < |now| {
      assert now[|text|] == now[|text|..][0] == was[|text|];
      FindIs(now, NUL, |text|);
    } else {
      assert now == now[..|now|] == text[..|now|];
      FindIs(now, NUL, |now|);
    }
  }

  /** Reading the kernel's file and parsing it. A text that fills the whole buffer has no end, and the
      scan for it runs off; any shorter one gives the scheduler all functions exactly when it can hold
      their parameters, and then there is nothing else in its array. */
  method LoadRap(functions: seq<Entry>) returns (ok: bool, arr: array<Entry>, entryIndex: nat)
    requires WellFormed(functions)
    ensures fresh(arr) && entryIndex <= arr.Length
    ensures |Printed(functions)| >= 0x1_0000 ==> !ok
    ensures |Printed(functions)| < 0x1_0000 ==> (ok && arr[..entryIndex] == functions <==> UserReadable(functions))
    ensures ok && arr[..entryIndex] == functions ==> arr[..] == functions
  {
    hide UserRap;
    hide Printed;
    hide Find;
    hide Count;
    hide WellFormed;
    hide UserReadable;
    hide CStrings;
    var buf := new char[MEM_DEF_ALLOCSIZE](_ => NUL);
    CleanAreStrings(functions);
    NoNulPrinted(functions);
    ghost var was := buf[..];
    Read(functions, buf, MEM_DEF_ALLOCSIZE);
    ghost var text := Printed(functions);
    TextInBuffer(text, buf[..], was);
    var end := ScanTo(buf[..], 0, NUL);
    assert buf[..][0..] == buf[..];
    if end == buf.Length {
      arr := new Entry[0];
      return false, arr, 0;
    }
    assert buf[..end] == buf[..][..end];
    LinesOfPrinted(functions);
    UserRecoversExactly(functions);
    ok, arr, entryIndex := ParseRap(buf[..end]);
    assert arr[..arr.Length] == arr[..];
  }

  // ----- the kernel's -----

  lemma KernelParamsMore(s: string, n: nat, t: string, m: nat)
    requires s != "" && s[0] != ')' && n == Find(s, ' ') && n < |s| && t == s[n + 1..] && m == Find(t, ' ') && m < |t|
    ensures KernelParams(s) == AddParam(Param(s[..n], t[..m]), KernelParams(t[m + 1..]))
  {
    hide Find;
    hide AddParam;
  }

  lemma KernelParamsCut(s: string, n: nat, t: string)
    requires s != "" && s[0] != ')' && n == Find(s, ' ') && n < |s| && t == s[n + 1..] && Find(t, ' ') == |t|
    ensures KernelParams(s) == None
  {
    hide Find;
    hide AddParam;
  }

  /** One step of the kernel's parameter loop at position `p`. */
  lemma KernelParamsAt(text: string, p: nat, n: nat, m: nat)
    requires p <= n < m <= |text| && text[p] != ')'
    requires n - p == Find(text[p..], ' ') && m - n - 1 == Find(text[n + 1..], ' ')
    ensures KernelParams(text[p..])
         == if m == |text| then None else AddParam(Param(text[p..n], text[n + 1..m]), KernelParams(text[m + 1..]))
  {
    hide Find;
    hide KernelParams;
    hide AddParam;
    Slice(text, p, n);
    if m < |text| {
      KernelParamsMore(text[p..], n - p, text[n + 1..], m - n - 1);
      Slice(text, n + 1, m);
    } else {
      KernelParamsCut(text[p..], n - p, text[n + 1..]);
    }
  }

  lemma KernelParamsStop(s: string)
    ensures (s == "" || s[0] != ')') && Find(s, ' ') == |s| ==> KernelParams(s) == None
    ensures s != "" && s[0] == ')' ==> KernelParams(s) == Some(([], s))
  {
    hide Find;
  }

  method KernelParamsFrom(text: string, start: nat) returns (ok: bool, paraml: seq<Param>, p: nat)
    requires start <= |text|
    ensures p <= |text| && KernelParams(text[start..]) == if ok then Some((paraml, text[p..])) else None
    ensures ok ==> p < |text|
  {
    hide Find;
    hide KernelParams;
    hide AddParam;
    paraml := [];
    p := start;
    WithNoParams(KernelParams(text[start..]));
    while p == |text| || text[p] != ')'
      invariant p <= |text| && WithParams(paraml, KernelParams(text[p..])) == KernelParams(text[start..])
      decreases |text| - p
    {
      KernelParamsStop(text[p..]);
      var n := ScanTo(text, p, ' ');
      if n == |text| {
        return false, [], p;
      }
      var m := ScanTo(text, n + 1, ' ');
      KernelParamsAt(text, p, n, m);
      if m == |text| {
        return false, [], p;
      }
      WithOneMore(paraml, Param(text[p..n], text[n + 1..m]), KernelParams(text[m + 1..]));
      paraml := paraml + [Param(text[p..n], text[n + 1..m])];
      p := m + 1;
    }
    KernelParamsStop(text[p..]);
    ok := true;
    assert paraml + [] == paraml;
  }

  lemma KernelEntryAt(text: string, p: nat, n: nat, ps: Option<(seq<Param>, string)>)
    requires p <= n < |text| && n - p == Find(text[p..], '(') && ps == KernelParams(text[n + 1..])
    ensures var e := KernelEntry(text[p..]);
      if ps.None? || |ps.value.1| < 2 then e == None
      else
        var t := ps.value.1[2..];
        var d := Find(t, '\n');
        e == Some((Entry(text[p..n], ps.value.0, Pattern(StoiValue(t[..d]))), if d == |t| then None else Some(t[d + 1..])))
  {
    hide Find;
    hide KernelParams;
    hide StoiValue;
    Slice(text, p, n);
  }

  lemma KernelEntryCut(s: string)
    requires Find(s, '(') == |s|
    ensures KernelEntry(s) == None
  {
  }

  /** The body of the kernel's loop. Without `more` the line has no end and the cursor is behind the
      text's terminator. */
  method KernelEntryFrom(text: string, start: nat) returns (ok: bool, entry: Entry, more: bool, p: nat)
    requires start <= |text|
    ensures p <= |text|
    ensures KernelEntry(text[start..])
         == if ok then Some((entry, if more then Some(text[p..]) else None)) else None
  {
    hide Find;
    hide KernelParams;
    hide KernelEntry;
    hide StoiValue;
    ok, entry, more, p := false, Entry("", [], 0), false, start;
    var n := ScanTo(text, start, '(');
    if n == |text| {
      KernelEntryCut(text[start..]);
      return;
    }
    KernelEntryAt(text, start, n, KernelParams(text[n + 1..]));
    var params, q;
    ok, params, q := KernelParamsFrom(text, n + 1);
    if !ok || q + 2 > |text| {
      return false, entry, false, start;
    }
    assert text[q..][2..] == text[q + 2..];
    var d := ScanTo(text, q + 2, '\n');
    Line(text, q + 2, d);
    var number := Stoi(text[q + 2..d]);
    entry := Entry(text[start..n], params, Pattern(number));
    more := d < |text|;
    p := if more then d + 1 else d;
  }

  lemma Line(text: string, p: nat, d: nat)
    requires p <= d <= |text|
    ensures text[p..][..d - p] == text[p..d]
    ensures d < |text| ==> text[p..][d - p + 1..] == text[d + 1..]
  {
  }

  /** `parseFile`: the entries in the order they were inserted into the mapping. */
  method ParseFile(text: string) returns (ok: bool, mainMapping: seq<Entry>)
    ensures KernelRap(text) == if ok then Some(mainMapping) else None
  {
    hide KernelEntry;
    hide Count;
    var rapEntriesCount := CountOccurence(text, '\n');
    var rapEntriesParsed := 0;
    mainMapping := [];
    var p := 0;
    assert text[0..] == text;
    WithNoEntries(KernelRap(text));
    while true
      invariant p <= |text|
      invariant WithEntries(mainMapping, KernelRest(text[p..], rapEntriesCount, rapEntriesParsed)) == KernelRap(text)
      decreases |text| - p
    {
      var ok1, entry, more, q := KernelEntryFrom(text, p);
      if !ok1 {
        return false, [];
      }
      ghost var before := mainMapping;
      mainMapping := mainMapping + [entry];
      rapEntriesParsed := rapEntriesParsed + 1;
      if rapEntriesParsed >= rapEntriesCount {
        return true, mainMapping;
      }
      if !more {
        return false, [];
      }
      if q == |text| {
        return true, mainMapping;
      }
      assert text[q..] != "";
      WithOneEntry(before, entry, KernelRest(text[q..], rapEntriesCount, rapEntriesParsed));
      p := q;
    }
  }
}
