/** Printing the list of callable functions: the growing string of the kernel library and the driver
    that fills a caller's buffer with the text. */
module RapPrinter {
  import opened Bytes
  import opened Numerals
  import opened Text
  import opened Rap

  const MINIMUM_STR_SIZE: nat := 5

  /** The capacity after doubling until `len` characters and a terminator fit. */
  function Grown(capacity: nat, len: nat): (c: nat)
    requires capacity > 0
    ensures c > len && c >= capacity
    decreases len - capacity
  {
    if len < capacity then capacity else Grown(2 * capacity, len)
  }

  /** Growing one character at a time ends at the same capacity as growing at once. */
  lemma {:induction false} GrownStep(capacity: nat, len: nat)
    requires capacity > 0
    ensures Grown(capacity, len + 1) == Grown(Grown(capacity, len), len + 1)
    decreases len - capacity
  {
    if len >= capacity {
      GrownStep(2 * capacity, len);
    }
  }

  /** A C string that doubles its storage when it runs out of room. */
  class Str {
    var cStr: array<char>
    var len: nat
    var capacity: nat

    ghost predicate Valid()
      reads this, cStr
    {
      && MINIMUM_STR_SIZE <= capacity == cStr.Length
      && len < capacity
      && (forall i | 0 <= i < len :: cStr[i] != NUL)
      && cStr[len] == NUL
    }

    ghost function Contents(): string
      requires Valid()
      reads this, cStr
    {
      cStr[..len]
    }

    constructor ()
      ensures Valid() && Contents() == "" && fresh(cStr)
    {
      cStr := new char[MINIMUM_STR_SIZE](_ => NUL);
      len := 0;
      capacity := MINIMUM_STR_SIZE;
    }

    /** `toCStr`: the string itself. */
    method ToCStr() returns (s: string)
      requires Valid()
      ensures s == Contents() && NUL !in s
    {
      s := cStr[..len];
    }

    /** `strlen`: where the first NUL is. */
    method StrLen() returns (n: nat)
      requires Valid()
      ensures n == len
    {
      n := 0;
      while cStr[n] != NUL
        invariant n <= len
        decreases len - n
      {
        assert cStr[n] != NUL;
        n := n + 1;
      }
    }

    /** Copies the string to storage of twice the size. */
    method Double()
      requires Valid()
      modifies this`cStr, this`capacity
      ensures Valid() && Contents() == old(Contents()) && len == old(len)
      ensures capacity == 2 * old(capacity) && fresh(cStr)
    {
      var newArr := new char[capacity * 2];
      var i := 0;
      while cStr[i] != NUL
        invariant i <= len && Valid() && cStr == old(cStr) && capacity == old(capacity) && newArr.Length == 2 * capacity
        invariant newArr[..i] == cStr[..i] && cStr[..] == old(cStr[..]) && fresh(newArr)
        decreases len - i
      {
        newArr[i] := cStr[i];
        i := i + 1;
      }
      newArr[i] := NUL;
      cStr := newArr;
      capacity := capacity * 2;
    }

    /** `operator+=` with a string. */
    method AddText(s: string)
      requires Valid() && NUL !in s
      modifies this, cStr
      ensures Valid() && Contents() == old(Contents()) + s && capacity == Grown(old(capacity), len)
      ensures cStr == old(cStr) || fresh(cStr)
    {
      while len + |s| >= capacity
        invariant Valid() && Contents() == old(Contents()) && len == old(len)
        invariant Grown(capacity, len + |s|) == Grown(old(capacity), len + |s|)
        invariant cStr == old(cStr) || fresh(cStr)
        decreases len + |s| - capacity
      {
        Double();
      }
      StrAdd(s);
    }

    /** `stradd` of a string that fits, and the new length. */
    method StrAdd(s: string)
      requires Valid() && NUL !in s && len + |s| < capacity
      modifies this`len, cStr
      ensures Valid() && Contents() == old(Contents()) + s
    {
      var end := StrLen();
      ghost var want := Contents() + s;
      assert forall k | 0 <= k < |want| :: want[k] != NUL;
      var i := 0;
      while i < |s|
        invariant i <= |s| && len == end && end + |s| == |want| < capacity == cStr.Length
        invariant cStr[..end + i] == want[..end + i]
      {
        assert want[..end + i + 1] == want[..end + i] + [s[i]];
        cStr[end + i] := s[i];
        i := i + 1;
      }
      cStr[end + i] := NUL;
      len := len + |s|;
      assert want[..len] == want && cStr[..len] == want;
      assert forall k | 0 <= k < len :: cStr[k] == want[k];
    }

    /** `operator+=` with a character. */
    method AddChar(c: char)
      requires Valid() && c != NUL
      modifies this, cStr
      ensures Valid() && Contents() == old(Contents()) + [c] && capacity == Grown(old(capacity), len)
      ensures cStr == old(cStr) || fresh(cStr)
    {
      var curLen := StrLen();
      if len + 1 >= capacity {
        Double();
      }
      cStr[curLen] := c;
      cStr[curLen + 1] := NUL;
      len := len + 1;
    }

    /** `fromu`: the decimal numeral of a number. */
    method FromU(n: U32)
      requires Valid()
      modifies this, cStr
      ensures Valid() && Contents() == Digits(n) && capacity == Grown(old(capacity), len)
      ensures cStr == old(cStr) || fresh(cStr)
    {
      len := 0;
      cStr[0] := NUL;
      if n == 0 {
        AddChar('0');
        return;
      }
      DigitsFit(n);
      var buffer := new char[11];
      var index := TakeDigits(n, buffer);
      EmitDigits(buffer, index, Digits(n));
    }

    /** The first loop of `fromu`: the digits, last one first. */
    static method TakeDigits(n: U32, buffer: array<char>) returns (index: nat)
      requires buffer.Length == 11 && n > 0 && |Digits(n)| <= 10
      modifies buffer
      ensures index == |Digits(n)| && forall j | 0 <= j < index :: buffer[j] == Digits(n)[index - 1 - j]
    {
      ghost var d := Digits(n);
      assert d[..|d|] == d;
      index := 0;
      var rest: nat := n;
      while rest > 0
        invariant index <= |d|
        invariant if rest == 0 then index == |d| else d[..|d| - index] == Digits(rest)
        invariant forall j | 0 <= j < index :: buffer[j] == d[|d| - 1 - j]
      {
        assert d[|d| - index - 1] == d[..|d| - index][|d| - index - 1];
        buffer[index] := DigitChar(rest % 10);
        if rest >= 10 {
          assert d[..|d| - index - 1] == d[..|d| - index][..|d| - index - 1];
        }
        rest := rest / 10;
        index := index + 1;
      }
    }

    /** The second loop of `fromu`: appends the digits in order. */
    method EmitDigits(buffer: array<char>, count: nat, ghost d: string)
      requires Valid() && Contents() == "" && buffer != cStr && |d| == count <= buffer.Length && AllDigits(d)
      requires forall j | 0 <= j < count :: buffer[j] == d[count - 1 - j]
      modifies this, cStr
      ensures Valid() && Contents() == d && capacity == Grown(old(capacity), len)
      ensures cStr == old(cStr) || fresh(cStr)
    {
      var index: nat := count;
      while index > 0
        invariant buffer != cStr && index <= |d| && Valid() && Contents() == d[..|d| - index]
        invariant capacity == Grown(old(capacity), len)
        invariant forall j | 0 <= j < index :: buffer[j] == d[|d| - 1 - j]
        invariant cStr == old(cStr) || fresh(cStr)
      {
        index := index - 1;
        GrownStep(old(capacity), len);
        AddChar(buffer[index]);
      }
      assert d[..|d|] == d;
    }
  }

  /** A 32-bit number has at most ten digits. */
  lemma DigitsFit(n: U32)
    ensures |Digits(n)| <= 10
  {
    DigitsBound(n, 10);
  }

  function Pow10(k: nat): (p: nat)
    ensures p > 0
  {
    if k == 0 then 1 else 10 * Pow10(k - 1)
  }

  lemma {:induction false} DigitsBound(n: nat, k: nat)
    requires k > 0 && n < Pow10(k)
    ensures |Digits(n)| <= k
  {
    if n >= 10 {
      assert k > 1;
      DigitsBound(n / 10, k - 1);
    }
  }

  /** No NUL in any of the strings: they are C strings. */
  predicate CStrings(f: Entry) {
    NUL !in f.name && forall i | 0 <= i < |f.params| :: NUL !in f.params[i].ty && NUL !in f.params[i].name
  }

  function ParamText(p: Param): string { p.ty + " " + (p.name + " ") }

  lemma {:induction false} ParamsTextAppend(ps: seq<Param>, p: Param)
    ensures ParamsText(ps + [p]) == ParamsText(ps) + ParamText(p)
  {
    if ps == [] {
      assert (ps + [p])[1..] == [];
      assert ParamsText(ps + [p]) == p.ty + " " + (p.name + " " + "");
    } else {
      assert (ps + [p])[1..] == ps[1..] + [p];
      ParamsTextAppend(ps[1..], p);
      ParamsTextFirst(ps + [p], "");
      ParamsTextFirst(ps, p.ty + " " + (p.name + " "));
      assert ParamsText(ps + [p]) + "" == ParamsText(ps + [p]);
      assert ParamsText((ps + [p])[1..]) + "" == ParamsText(ps[1..]) + (p.ty + " " + (p.name + " "));
    }
  }

  method AddParamText(p: Param, out: Str)
    requires out.Valid() && CStrings(Entry("", [p], 0))
    modifies out, out.cStr
    ensures out.Valid() && out.Contents() == old(out.Contents()) + ParamText(p)
    ensures out.cStr == old(out.cStr) || fresh(out.cStr)
  {
    hide Str.Valid;
    hide Str.Contents;
    assert [p][0] == p;
    ghost var before := out.Contents();
    out.AddText(p.ty);
    out.AddChar(' ');
    out.AddText(p.name);
    out.AddChar(' ');
  }

  /** The loop of `toStr` over the parameters. */
  method AddParams(ps: seq<Param>, out: Str)
    requires out.Valid() && CStrings(Entry("", ps, 0))
    modifies out, out.cStr
    ensures out.Valid() && out.Contents() == old(out.Contents()) + ParamsText(ps)
    ensures out.cStr == old(out.cStr) || fresh(out.cStr)
  {
    hide Str.Valid;
    hide Str.Contents;
    hide ParamText;
    ghost var before := out.Contents();
    for i := 0 to |ps|
      invariant out.Valid() && out.Contents() == before + ParamsText(ps[..i])
      invariant out.cStr == old(out.cStr) || fresh(out.cStr)
    {
      ParamsTextAppend(ps[..i], ps[i]);
      assert ps[..i + 1] == ps[..i] + [ps[i]];
      hide ParamsText;
      AddParamText(ps[i], out);
      Regroup(before, ParamsText(ps[..i]), ParamText(ps[i]));
    }
    assert ps[..|ps|] == ps;
  }

  lemma CallParts(before: string, f: Entry)
    ensures before + f.name + "(" + ParamListText(f.params) + ")" + "=" + Digits(f.addr) == before + CallText(f)
  {
    var (p, d) := (ParamListText(f.params), Digits(f.addr));
    hide ParamListText;
    hide Digits;
    Regroup(before, f.name, "(");
    Regroup(before, f.name + "(", p);
    Regroup(before, f.name + "(" + p, ")");
    Regroup(before, f.name + "(" + p + ")", "=");
    Regroup(before, f.name + "(" + p + ")" + "=", d);
    Regroup(f.name + "(" + p, ")", "=");
    Regroup(f.name + "(" + p, ")=", d);
    Regroup(f.name + "(", p, ")=" + d);
  }

  /** The end of `toStr`: a number goes through a string of its own. */
  method AddNumber(n: U32, out: Str)
    requires out.Valid()
    modifies out, out.cStr
    ensures out.Valid() && out.Contents() == old(out.Contents()) + Digits(n)
    ensures out.cStr == old(out.cStr) || fresh(out.cStr)
  {
    var tempIntegerStorage := new Str();
    tempIntegerStorage.FromU(n);
    var digits := tempIntegerStorage.ToCStr();
    out.AddText(digits);
  }

  /** `toStr`: appends the text of one function, its line end not included. */
  method ToStr(f: Entry, out: Str)
    requires out.Valid() && CStrings(f)
    modifies out, out.cStr
    ensures out.Valid() && out.Contents() == old(out.Contents()) + CallText(f)
    ensures out.cStr == old(out.cStr) || fresh(out.cStr)
  {
    ghost var before := out.Contents();
    CallParts(before, f);
    hide Digits;
    hide CallText;
    hide Str.Valid;
    hide Str.Contents;
    out.AddText(f.name);
    out.AddChar('(');
    AddParams(f.params, out);
    if |f.params| == 0 {
      assert ParamsText(f.params) == "";
      out.AddChar(' ');
    }
    hide ParamsText;
    assert out.Contents() == before + f.name + "(" + ParamListText(f.params);
    hide ParamListText;
    out.AddChar(')');
    out.AddChar('=');
    AddNumber(f.addr, out);
  }

  /** A buffer holding as much of `text` as fits in `len`, and behind that what it held before. */
  ghost predicate Filled(now: string, was: string, text: string, len: nat)
    requires |now| == |was| && len <= |was|
  {
    var n := Min(len, |text|);
    now[..n] == text[..n] && now[n..] == was[n..]
  }

  /** The copying loop of `read`. */
  method PutText(more: string, obuf: array<char>, len: nat, currentInd: nat, ghost text: string, ghost was: string) returns (ind: nat)
    requires |was| == obuf.Length && len <= obuf.Length
    requires currentInd == Min(len, |text|) && Filled(obuf[..], was, text, len)
    modifies obuf
    ensures ind == Min(len, |text + more|) && Filled(obuf[..], was, text + more, len)
  {
    ind := currentInd;
    var i := 0;
    while i < |more| && ind < len
      invariant i <= |more| && (|text| <= len ==> ind == |text| + i) && currentInd <= ind <= len
      invariant |text| > len ==> ind == len
      invariant obuf[..ind] == (text + more)[..ind] && obuf[ind..] == was[ind..]
    {
      assert obuf[ind + 1..] == obuf[ind..][1..] == was[ind + 1..];
      obuf[ind] := more[i];
      assert (text + more)[..ind + 1] == (text + more)[..ind] + [more[i]];
      assert obuf[..ind + 1] == obuf[..ind] + [more[i]];
      ind := ind + 1;
      i := i + 1;
    }
  }

  lemma FilledNothing(was: string, len: nat)
    requires len <= |was|
    ensures Printed([]) == "" && Filled(was, was, Printed([]), len)
  {
  }

  lemma PrintedOneMore(fs: seq<Entry>, k: nat)
    requires k < |fs|
    ensures Printed(fs[..k + 1]) == Printed(fs[..k]) + CallText(fs[k]) + "\n"
  {
    assert fs[..k + 1] == fs[..k] + [fs[k]];
    PrintedAppend(fs[..k], fs[k]);
    Regroup(Printed(fs[..k]), CallText(fs[k]), "\n");
  }

  /** `read`: the printed list, as much of it as fits. */
  method Read(functions: seq<Entry>, obuf: array<char>, len: nat)
    requires len <= obuf.Length && forall i | 0 <= i < |functions| :: CStrings(functions[i])
    modifies obuf
    ensures Filled(obuf[..], old(obuf[..]), Printed(functions), len)
  {
    hide CallText;
    hide Filled;
    ghost var was := obuf[..];
    FilledNothing(was, len);
    hide Printed;
    var currentInd := 0;
    for k := 0 to |functions|
      invariant currentInd == Min(len, |Printed(functions[..k])|)
      invariant Filled(obuf[..], was, Printed(functions[..k]), len)
    {
      ghost var text := Printed(functions[..k]);
      PrintedOneMore(functions, k);
      var s := new Str();
      ToStr(functions[k], s);
      var cstr := s.ToCStr();
      assert cstr == CallText(functions[k]);
      currentInd := PutText(cstr, obuf, len, currentInd, text, was);
      currentInd := PutText("\n", obuf, len, currentInd, text + cstr, was);
    }
    assert functions[..|functions|] == functions;
  }
}
