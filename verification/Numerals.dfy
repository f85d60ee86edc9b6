/** Decimal numerals and the conversions between them and 32-bit integers. */
module Numerals {
  import opened Bytes

  type I32 = x: int | -0x8000_0000 <= x < 0x8000_0000

  predicate IsDigit(c: char) { '0' <= c <= '9' }

  function DigitValue(c: char): (d: nat)
    requires IsDigit(c)
    ensures d < 10
  {
    (c - '0') as int
  }

  function DigitChar(d: nat): (c: char)
    requires d < 10
    ensures IsDigit(c) && DigitValue(c) == d
  {
    '0' + d as char
  }

  predicate AllDigits(s: string) { forall i | 0 <= i < |s| :: IsDigit(s[i]) }

  /** The decimal numeral of a number. */
  function Digits(n: nat): (s: string)
    ensures s != [] && AllDigits(s)
  {
    if n < 10 then [DigitChar(n)] else Digits(n / 10) + [DigitChar(n % 10)]
  }

  function Value(s: string): nat
    requires AllDigits(s)
  {
    if s == [] then 0 else 10 * Value(s[..|s| - 1]) + DigitValue(s[|s| - 1])
  }

  lemma {:induction false} ValueOfDigits(n: nat)
    ensures Value(Digits(n)) == n
  {
    if n >= 10 {
      ValueOfDigits(n / 10);
      assert Digits(n)[..|Digits(n)| - 1] == Digits(n / 10);
    } else {
      assert Value([DigitChar(n)]) == 10 * Value([]) + n;
    }
  }

  lemma ValueStep(s: string, i: nat)
    requires i < |s| && AllDigits(s[..i]) && IsDigit(s[i])
    ensures AllDigits(s[..i + 1]) && Value(s[..i + 1]) == 10 * Value(s[..i]) + DigitValue(s[i])
  {
    assert s[..i + 1][..i] == s[..i];
  }

  lemma LowStep(v: nat, d: nat)
    ensures Low32(10 * Low32(v) + d) == Low32(10 * v + d)
  {
    var q := v / 0x1_0000_0000;
    assert v == q * 0x1_0000_0000 + Low32(v);
    assert 10 * v + d == (10 * q) * 0x1_0000_0000 + (10 * Low32(v) + d);
    AddMultiple(10 * Low32(v) + d, 10 * q);
  }

  lemma AddMultiple(a: nat, k: nat)
    ensures Low32(a + k * 0x1_0000_0000) == Low32(a)
  {
  }

  /** The length of the run of digits a text starts with. */
  function DigitRun(s: string): (n: nat)
    ensures n <= |s| && AllDigits(s[..n]) && (n < |s| ==> !IsDigit(s[n]))
  {
    if s == [] || !IsDigit(s[0]) then 0
    else
      var n := 1 + DigitRun(s[1..]);
      assert forall i | 1 <= i < n :: s[i] == s[1..][i - 1];
      n
  }

  lemma DigitRunIs(s: string, n: nat)
    requires n <= |s| && AllDigits(s[..n]) && (n < |s| ==> !IsDigit(s[n]))
    ensures DigitRun(s) == n
  {
    var m := DigitRun(s);
    assert forall i | 0 <= i < n :: s[..n][i] == s[i];
    assert forall i | 0 <= i < m :: s[..m][i] == s[i];
  }

  /** `stou`: the value of the digits a text starts with, in 32 bits. */
  method Stou(s: string) returns (result: U32)
    ensures result == Low32(Value(s[..DigitRun(s)]))
  {
    result := 0;
    var i := 0;
    while i < |s| && IsDigit(s[i])
      invariant i <= |s| && AllDigits(s[..i]) && result == Low32(Value(s[..i]))
    {
      ValueStep(s, i);
      LowStep(Value(s[..i]), DigitValue(s[i]));
      result := Low32(result * 10 + DigitValue(s[i]));
      i := i + 1;
    }
    DigitRunIs(s, i);
  }

  /** A 32-bit pattern read as a signed number. */
  function Signed(u: U32): I32 {
    if u < 0x8000_0000 then u else u - 0x1_0000_0000
  }

  function Pattern(i: int): (u: U32)
    ensures 0 <= i ==> u == Low32(i)
  {
    i % 0x1_0000_0000
  }

  lemma PatternOfSigned(u: U32)
    ensures Pattern(Signed(u)) == u
  {
  }

  /** What `stoi` computes: 0 for a text with any other character in it, else the value with an
      optional minus sign, in signed 32-bit arithmetic taken to wrap around. */
  function StoiValue(str: string): I32 {
    if str != [] && str[0] == '-' then Signed(Pattern(-(MagnitudeValue(str[1..]) as int))) else MagnitudeValue(str)
  }

  function MagnitudeValue(s: string): I32 {
    if AllDigits(s) then Signed(Low32(Value(s))) else 0
  }

  /** Numerals below 2^31 are read as they are written. */
  lemma StoiOfDigits(n: nat)
    requires n < 0x8000_0000
    ensures StoiValue(Digits(n)) == n
  {
    ValueOfDigits(n);
    assert IsDigit(Digits(n)[0]);
  }

  method Stoi(str: string) returns (r: I32)
    ensures r == StoiValue(str)
  {
    if str != [] && str[0] == '-' {
      var n := Magnitude(str[1..]);
      return Signed(Pattern(-(n as int)));
    }
    r := Magnitude(str);
  }

  method Magnitude(s: string) returns (result: I32)
    ensures result == MagnitudeValue(s)
  {
    result := 0;
    assert s[..0] == [];
    for i := 0 to |s|
      invariant AllDigits(s[..i]) && result == Signed(Low32(Value(s[..i])))
    {
      if !IsDigit(s[i]) {
        assert !AllDigits(s);
        return 0;
      }
      NextDigit(s, i);
      hide Signed;
      hide Value;
      result := Signed(Pattern(result * 10 + DigitValue(s[i])));
    }
    assert s[..|s|] == s;
  }

  lemma NextDigit(s: string, i: nat)
    requires i < |s| && AllDigits(s[..i]) && IsDigit(s[i])
    ensures AllDigits(s[..i + 1])
    ensures Pattern(Signed(Low32(Value(s[..i]))) * 10 + DigitValue(s[i])) == Low32(Value(s[..i + 1]))
  {
    ValueStep(s, i);
    SignedStep(Value(s[..i]), DigitValue(s[i]));
  }

  lemma SignedStep(v: nat, d: nat)
    requires d < 10
    ensures Pattern(Signed(Low32(v)) * 10 + d) == Low32(10 * v + d)
  {
    LowStep(v, d);
    var u := Low32(v);
    if u >= 0x8000_0000 {
      assert Signed(u) * 10 + d == (u * 10 + d) - 10 * 0x1_0000_0000;
    }
  }
}
