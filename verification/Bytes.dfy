/** Bytes, fixed-width words and little-endian encoding. Machine words are integers whose range is
    part of their type; every place where the program truncates says so with `%`. */
module Bytes {
  type Byte = x: int | 0 <= x < 0x100
  type U16 = x: int | 0 <= x < 0x1_0000
  type U32 = x: int | 0 <= x < 0x1_0000_0000

  const TWO16: nat := 0x1_0000
  const TWO32: nat := 0x1_0000_0000

  /** A cast to 16 bits. */
  function Low16(n: nat): (r: U16)
    ensures r <= n && (r == n <==> n < TWO16)
  {
    n % 0x1_0000
  }

  /** A cast to 32 bits. */
  function Low32(n: nat): (r: U32)
    ensures r <= n && (r == n <==> n < TWO32)
  {
    n % 0x1_0000_0000
  }

  function Min(a: nat, b: nat): nat { if a < b then a else b }

  datatype Option<+T> = None | Some(value: T)

  function Le16(v: U16): (b: seq<Byte>)
    ensures |b| == 2
  {
    [v % 0x100, v / 0x100]
  }

  function Le32(v: U32): (b: seq<Byte>)
    ensures |b| == 4
  {
    [v % 0x100, v / 0x100 % 0x100, v / 0x1_0000 % 0x100, v / 0x100_0000]
  }

  function U16At(b: seq<Byte>, off: nat): U16
    requires off + 2 <= |b|
  {
    b[off] as int + 0x100 * b[off + 1] as int
  }

  function U32At(b: seq<Byte>, off: nat): U32
    requires off + 4 <= |b|
  {
    b[off] as int + 0x100 * b[off + 1] as int + 0x1_0000 * b[off + 2] as int + 0x100_0000 * b[off + 3] as int
  }

  lemma Quotients(v: U32)
    ensures v / 0x1_0000 == v / 0x100 / 0x100 && v / 0x100_0000 == v / 0x1_0000 / 0x100
  {
  }

  lemma Le32Sum(v: U32)
    ensures v % 0x100 + 0x100 * (v / 0x100 % 0x100) + 0x1_0000 * (v / 0x1_0000 % 0x100) + 0x100_0000 * (v / 0x100_0000) == v
  {
    var a, b := v / 0x100, v / 0x1_0000;
    Quotients(v);
    assert v == 0x100 * a + v % 0x100 && a == 0x100 * (a / 0x100) + a % 0x100 && b == 0x100 * (b / 0x100) + b % 0x100;
  }

  lemma Le32At(b: seq<Byte>, off: nat, v: U32)
    requires off + 4 <= |b| && b[off..off + 4] == Le32(v)
    ensures U32At(b, off) == v
  {
    Le32Sum(v);
    var w := b[off..off + 4];
    assert b[off] == w[0] && b[off + 1] == w[1] && b[off + 2] == w[2] && b[off + 3] == w[3];
  }

  lemma Le16At(b: seq<Byte>, off: nat, v: U16)
    requires off + 2 <= |b| && b[off..off + 2] == Le16(v)
    ensures U16At(b, off) == v
  {
    assert b[off] == b[off..off + 2][0] && b[off + 1] == b[off..off + 2][1];
  }
}
