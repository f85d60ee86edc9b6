/** Scanning texts for a character. A text is the content of a C string, its terminator not included. */
module Text {
  const NUL: char := '\0'

  /** The position of the first `c`, or the length when there is none. */
  function Find(s: string, c: char): (n: nat)
    ensures n <= |s| && c !in s[..n] && (n < |s| ==> s[n] == c)
  {
    if s == [] || s[0] == c then 0
    else
      var n := 1 + Find(s[1..], c);
      assert s[..n] == [s[0]] + s[1..][..n - 1];
      n
  }

  lemma FindIs(s: string, c: char, n: nat)
    requires n <= |s| && c !in s[..n] && (n < |s| ==> s[n] == c)
    ensures Find(s, c) == n
  {
    var m := Find(s, c);
    assert forall i | 0 <= i < n :: s[..n][i] == s[i];
    assert forall i | 0 <= i < m :: s[..m][i] == s[i];
  }

  function Count(s: string, c: char): (n: nat)
    ensures n <= |s|
  {
    if s == [] then 0 else (if s[0] == c then 1 else 0) + Count(s[1..], c)
  }

  lemma {:induction false} CountSplit(s: string, t: string, c: char)
    ensures Count(s + t, c) == Count(s, c) + Count(t, c)
  {
    if s == [] {
      assert s + t == t;
    } else {
      assert (s + t)[1..] == s[1..] + t;
      CountSplit(s[1..], t, c);
    }
  }

  lemma {:induction false} CountNone(s: string, c: char)
    requires c !in s
    ensures Count(s, c) == 0
  {
    if s != [] {
      CountNone(s[1..], c);
    }
  }

  /** Scans from `from` to the first `c`; `src` has none behind `from` when the end is returned. */
  method ScanTo(src: string, from: nat, c: char) returns (n: nat)
    requires from <= |src|
    ensures from <= n <= |src| && n - from == Find(src[from..], c)
  {
    n := from;
    while n < |src| && src[n] != c
      invariant from <= n <= |src| && c !in src[from..n]
    {
      n := n + 1;
    }
    assert src[from..][..n - from] == src[from..n];
    FindIs(src[from..], c, n - from);
  }
}
