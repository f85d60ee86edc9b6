/** 8.3 names and paths of the FAT32 driver. Texts are the contents of C strings. */
module FatNames {
  import opened Bytes

  function ToUpper(c: char): char {
    if 'a' <= c <= 'z' then (c as int - 'a' as int + 'A' as int) as char else c
  }

  function Upper(s: string): (r: string)
    ensures |r| == |s| && forall i | 0 <= i < |s| :: r[i] == ToUpper(s[i])
  {
    seq(|s|, i requires 0 <= i < |s| => ToUpper(s[i]))
  }

  lemma UpperTwice(s: string)
    ensures Upper(Upper(s)) == Upper(s)
  {
  }

  lemma UpperJoin(a: string, b: string)
    ensures Upper(a + b) == Upper(a) + Upper(b)
  {
  }

  /** How many characters come before the first one in `stops`. */
  function Span(s: string, stops: string): (n: nat)
    ensures n <= |s| && (forall i | 0 <= i < n :: s[i] !in stops) && (n < |s| ==> s[n] in stops)
  {
    if s == "" || s[0] in stops then 0 else 1 + Span(s[1..], stops)
  }

  lemma SpanIs(s: string, stops: string, n: nat)
    requires n <= |s| && (forall i | 0 <= i < n :: s[i] !in stops) && (n < |s| ==> s[n] in stops)
    ensures Span(s, stops) == n
  {
  }

  const SLASHES: string := "/\\"
  const NAME_STOPS: string := "/\\."

  function Spaces(n: nat): (s: string)
    ensures |s| == n && forall i | 0 <= i < n :: s[i] == ' '
  {
    seq(n, _ => ' ')
  }

  function Pad(s: string, n: nat): (r: string)
    requires |s| <= n
    ensures |r| == n
  {
    s + Spaces(n - |s|)
  }

  /** A name split at its first dot, padded to 8 + 3 characters and in upper case; nothing for a name
      that has no characters before the dot or too many before or behind it. */
  function FatName(s: string): (r: Option<string>)
    ensures r.Some? ==> |r.value| == 11
  {
    var n := Span(s, NAME_STOPS);
    if n == 0 || n > 8 then None
    else if n < |s| && s[n] == '.' then
      var ext := s[n + 1..];
      var m := Span(ext, SLASHES);
      if m > 3 then None else Some(Upper(Pad(s[..n], 8) + Pad(ext[..m], 3)))
    else Some(Upper(Pad(s[..n], 8) + Pad("", 3)))
  }

  predicate IsBase(b: string) { 1 <= |b| <= 8 && (forall c | c in b :: c !in NAME_STOPS) && b[|b| - 1] != ' ' }

  predicate IsExtension(x: string) { |x| <= 3 && (forall c | c in x :: c !in SLASHES) && (x != "" ==> x[|x| - 1] != ' ') }

  function Dotted(b: string, x: string): string {
    if x == "" then b else b + "." + x
  }

  lemma FatNameOfDotted(b: string, x: string)
    requires IsBase(b) && IsExtension(x)
    ensures FatName(Dotted(b, x)) == Some(Upper(Pad(b, 8) + Pad(x, 3)))
  {
    var s := Dotted(b, x);
    SpanIs(s, NAME_STOPS, |b|);
    assert s[..|b|] == b;
    if x != "" {
      assert s[|b| + 1..] == x;
      SpanIs(x, SLASHES, |x|);
      assert x[..|x|] == x;
    }
  }

  lemma LongerDiffers(a: string, b: string, n: nat)
    requires |a| < |b| <= n && b[|b| - 1] != ' '
    ensures Upper(Pad(a, n)) != Upper(Pad(b, n))
  {
    assert Upper(Pad(a, n))[|b| - 1] == ' ' && Upper(Pad(b, n))[|b| - 1] == ToUpper(b[|b| - 1]);
  }

  lemma PadInjective(a: string, b: string, n: nat)
    requires |a| <= n && |b| <= n && Upper(Pad(a, n)) == Upper(Pad(b, n))
    requires (a != "" ==> a[|a| - 1] != ' ') && (b != "" ==> b[|b| - 1] != ' ')
    ensures Upper(a) == Upper(b)
  {
    var (p, q) := (Upper(Pad(a, n)), Upper(Pad(b, n)));
    if |a| < |b| {
      LongerDiffers(a, b, n);
    } else if |b| < |a| {
      LongerDiffers(b, a, n);
    }
    assert Upper(a) == p[..|a|] && Upper(b) == q[..|b|];
  }

  /** Two dotted names are the same on disk exactly when they differ at most in case. */
  lemma SameNameExactly(b: string, x: string, c: string, y: string)
    requires IsBase(b) && IsExtension(x) && IsBase(c) && IsExtension(y)
    ensures FatName(Dotted(b, x)) == FatName(Dotted(c, y)) <==> Upper(b) == Upper(c) && Upper(x) == Upper(y)
  {
    FatNameOfDotted(b, x);
    FatNameOfDotted(c, y);
    UpperJoin(Pad(b, 8), Pad(x, 3));
    UpperJoin(Pad(c, 8), Pad(y, 3));
    hide FatName;
    hide Upper;
    hide Pad;
    if Upper(Pad(b, 8)) + Upper(Pad(x, 3)) == Upper(Pad(c, 8)) + Upper(Pad(y, 3)) {
      SameFields(b, x, c, y);
    }
    if Upper(b) == Upper(c) && Upper(x) == Upper(y) {
      SamePadded(b, c, 8);
      SamePadded(x, y, 3);
    }
  }

  lemma SameFields(b: string, x: string, c: string, y: string)
    requires IsBase(b) && IsExtension(x) && IsBase(c) && IsExtension(y)
    requires Upper(Pad(b, 8)) + Upper(Pad(x, 3)) == Upper(Pad(c, 8)) + Upper(Pad(y, 3))
    ensures Upper(b) == Upper(c) && Upper(x) == Upper(y)
  {
    var (p, q) := (Upper(Pad(b, 8)) + Upper(Pad(x, 3)), Upper(Pad(c, 8)) + Upper(Pad(y, 3)));
    assert Upper(Pad(b, 8)) == p[..8] == q[..8] == Upper(Pad(c, 8));
    assert Upper(Pad(x, 3)) == p[8..] == q[8..] == Upper(Pad(y, 3));
    PadInjective(b, c, 8);
    PadInjective(x, y, 3);
  }

  lemma SamePadded(a: string, b: string, n: nat)
    requires |a| <= n && |b| <= n && Upper(a) == Upper(b)
    ensures Upper(Pad(a, n)) == Upper(Pad(b, n))
  {
    UpperJoin(a, Spaces(n - |a|));
    UpperJoin(b, Spaces(n - |b|));
  }

  // ----- paths -----

  predicate IsSlash(c: char) { c in SLASHES }

  function SkipSlashes(p: string): (r: string)
    ensures |r| <= |p| && (r != "" ==> !IsSlash(r[0]))
  {
    if p != "" && IsSlash(p[0]) then SkipSlashes(p[1..]) else p
  }

  /** The components of a path: what is left of it between slashes, empty parts dropped. */
  function Components(p: string): (r: seq<string>)
    ensures (r == [] <==> SkipSlashes(p) == "")
    decreases |p|
  {
    var q := SkipSlashes(p);
    if q == "" then []
    else
      var n := Span(q, SLASHES);
      [q[..n]] + Components(q[n..])
  }

  predicate IsComponent(s: string) { s != "" && forall i | 0 <= i < |s| :: !IsSlash(s[i]) }

  function PathOf(cs: seq<string>): string {
    if cs == [] then "" else "/" + cs[0] + PathOf(cs[1..])
  }

  /** Splitting undoes joining. */
  lemma {:induction false} ComponentsOfPath(cs: seq<string>)
    requires forall i | 0 <= i < |cs| :: IsComponent(cs[i])
    ensures Components(PathOf(cs)) == cs
  {
    if cs != [] {
      var p := PathOf(cs);
      var rest := PathOf(cs[1..]);
      assert IsComponent(cs[0]);
      assert p[1..] == cs[0] + rest;
      var q := SkipSlashes(p);
      assert SkipSlashes(p[1..]) == p[1..];
      assert q == cs[0] + rest;
      assert rest != "" ==> rest[0] == '/' && rest[0] in SLASHES;
      SpanIs(q, SLASHES, |cs[0]|);
      assert q[..|cs[0]|] == cs[0] && q[|cs[0]|..] == rest;
      ComponentsOfPath(cs[1..]);
    }
  }

  lemma {:induction false} SkipTwice(p: string)
    ensures SkipSlashes(SkipSlashes(p)) == SkipSlashes(p)
  {
    if p != "" && IsSlash(p[0]) {
      SkipTwice(p[1..]);
    }
  }

  lemma ComponentsSkip(p: string)
    ensures Components(SkipSlashes(p)) == Components(p)
  {
    SkipTwice(p);
  }
}
