/** The shader language's integer sine: angles in thousandths, wrapped and approximated by a parabola
    with one correction, all in 32-bit integers with division that truncates. */
module Sine {
  import opened Numerals

  const PI: int := 3141
  const TWO_PI: int := 6283

  /** C's division, which rounds toward zero. */
  function Quot(a: int, b: int): int
    requires b > 0
  {
    if a >= 0 then a / b else -((-a) / b)
  }

  function Abs(a: int): int { if a < 0 then -a else a }

  /** The angle from -PI to PI that differs from `x` by full turns. */
  function Wrapped(x: int): (w: int)
    ensures -PI <= w <= PI
  {
    var m := x % TWO_PI;
    if m > PI then m - TWO_PI else m
  }

  lemma WrappedIs(x: int, w: int, k: int)
    requires -PI <= w <= PI && x == w + k * TWO_PI
    ensures Wrapped(x) == w
  {
    var m := if w < 0 then w + TWO_PI else w;
    var q := if w < 0 then k - 1 else k;
    assert x == m + q * TWO_PI && 0 <= m < TWO_PI;
    Remainder(x, m, q);
  }

  lemma Remainder(x: int, m: int, q: int)
    requires x == m + q * 6283 && 0 <= m < 6283
    ensures x % 6283 == m
  {
  }

  function Parabola(w: int): int {
    Quot(w * (1000 - Quot(Abs(w) * 1000, PI)), 1000)
  }

  function Corrected(y: int): int {
    Quot(225 * (Quot(y * Abs(y), 1000) - y), 1000) + y
  }

  /** `sinInt` computes the corrected parabola of the wrapped angle for every 32-bit input, and no
      intermediate value leaves the 32-bit range. */
  method SinInt(angle: I32) returns (r: I32)
    ensures r == Corrected(Parabola(Wrapped(angle)))
  {
    var x: I32 := angle;
    ghost var k := 0;
    while x > PI
      invariant angle == x + k * TWO_PI && (x >= -PI || x == angle)
      decreases x
    {
      x := x - TWO_PI;
      k := k + 1;
    }
    while x < -PI
      invariant angle == x + k * TWO_PI && x <= PI
      decreases -(x as int)
    {
      x := x + TWO_PI;
      k := k - 1;
    }
    WrappedIs(angle, x, k);
    var a: I32 := if x < 0 then -(x as int) else x;
    var thousands: I32 := a * 1000;
    var q: I32 := Quot(thousands, PI);
    ParabolaBounds(x);
    var product: I32 := x * (1000 - q);
    var y: I32 := Quot(product, 1000);
    CorrectedBounds(y);
    var square: I32 := y * (if y < 0 then -(y as int) else y);
    var inner: I32 := Quot(square, 1000) - y;
    var scaled: I32 := 225 * inner;
    r := Quot(scaled, 1000) + y;
  }

  lemma ParabolaBounds(w: int)
    requires -PI <= w <= PI
    ensures 0 <= Quot(Abs(w) * 1000, PI) <= 1000
    ensures -786_999 <= w * (1000 - Quot(Abs(w) * 1000, PI)) <= 786_999
    ensures w >= 0 ==> w * (1000 - Quot(Abs(w) * 1000, PI)) >= 0
    ensures w <= 0 ==> w * (1000 - Quot(Abs(w) * 1000, PI)) <= 0
    ensures Abs(Parabola(w)) <= 786 && (w >= 0 ==> Parabola(w) >= 0) && (w <= 0 ==> Parabola(w) <= 0)
  {
    var a := Abs(w);
    var q := a * 1000 / 3141;
    assert a * 1000 - 3140 <= 3141 * q <= a * 1000;
    assert 0 <= q <= 1000;
    Peak(a, q);
    if w < 0 {
      assert w * (1000 - q) == -(a * (1000 - q));
    }
  }

  /** The parabola's top: 3141 times the product is at most (3144140 / 2000)^2 * 1000. */
  lemma Peak(a: int, q: int)
    requires 0 <= a <= 3141 && 0 <= q <= 1000 && a * 1000 - 3140 <= 3141 * q
    ensures 0 <= a * (1000 - q) <= 786_999
  {
    assert 3141 * (1000 - q) <= 3144140 - 1000 * a;
    Times(a, 3141 * (1000 - q), 3144140 - 1000 * a);
    assert a * (3141 * (1000 - q)) == 3141 * (a * (1000 - q));
    var t := a - 1572;
    assert t * t >= 0;
    assert a * (3144140 - 1000 * a) == 3144140 * a - 1000 * (a * a);
    assert a * a == t * t + 3144 * a - 1572 * 1572;
  }

  lemma Times(a: int, x: int, y: int)
    requires 0 <= a && x <= y
    ensures a * x <= a * y
  {
  }

  lemma CorrectedBounds(y: int)
    requires -786 <= y <= 786
    ensures Abs(y * Abs(y)) <= 617_796 && Abs(Quot(y * Abs(y), 1000) - y) <= 786
    ensures Abs(Corrected(y)) <= 786 && (y >= 0 ==> Corrected(y) >= 0) && (y <= 0 ==> Corrected(y) <= 0)
  {
    var a := Abs(y);
    Square(a);
    var s := a * a / 1000;
    assert 0 <= s <= a;
    assert y * a == if y < 0 then -(a * a) else a * a;
  }

  lemma Square(a: int)
    requires 0 <= a <= 786
    ensures 0 <= a * a <= 786 * a <= 617_796
  {
    Times(a, a, 786);
    Times(a, 0, a);
  }

  /** The result keeps the sign of the wrapped angle, possibly as zero, and stays within 786. */
  lemma SineBounds(x: int)
    ensures var r := Corrected(Parabola(Wrapped(x)));
      -786 <= r <= 786 && (Wrapped(x) >= 0 ==> r >= 0) && (Wrapped(x) <= 0 ==> r <= 0)
  {
    ParabolaBounds(Wrapped(x));
    CorrectedBounds(Parabola(Wrapped(x)));
  }

  lemma SinePeriodic(x: int, k: int)
    ensures Corrected(Parabola(Wrapped(x + k * TWO_PI))) == Corrected(Parabola(Wrapped(x)))
  {
    var w := Wrapped(x);
    var m := x / TWO_PI + (if x % TWO_PI > PI then 1 else 0);
    assert x == w + m * TWO_PI;
    assert x + k * TWO_PI == w + (m + k) * TWO_PI;
    WrappedIs(x + k * TWO_PI, w, m + k);
  }

  lemma QuotOdd(a: int, b: int)
    requires b > 0
    ensures Quot(-a, b) == -Quot(a, b)
  {
  }

  lemma ParabolaOdd(w: int)
    ensures Parabola(-w) == -Parabola(w)
  {
    var c := 1000 - Quot(Abs(w) * 1000, PI);
    assert (-w) * c == -(w * c);
    QuotOdd(w * c, 1000);
  }

  lemma CorrectedOdd(y: int)
    ensures Corrected(-y) == -Corrected(y)
  {
    assert (-y) * Abs(y) == -(y * Abs(y));
    QuotOdd(y * Abs(y), 1000);
    var inner := Quot(y * Abs(y), 1000) - y;
    QuotOdd(225 * inner, 1000);
    assert 225 * -inner == -(225 * inner);
  }

  lemma Turns(x: int) returns (m: int)
    ensures x == Wrapped(x) + m * TWO_PI
  {
    m := x / TWO_PI + (if x % TWO_PI > PI then 1 else 0);
  }

  lemma SineOdd(x: int)
    ensures Corrected(Parabola(Wrapped(-x))) == -Corrected(Parabola(Wrapped(x)))
  {
    var w := Wrapped(x);
    var m := Turns(x);
    hide Wrapped;
    assert -x == -w + (-m) * TWO_PI;
    WrappedIs(-x, -w, -m);
    hide Parabola;
    hide Corrected;
    ParabolaOdd(w);
    CorrectedOdd(Parabola(w));
  }

  // ----- how close it comes -----

  /** The parabola through 0 and PI with the slope 1 at 0, in thousandths and without rounding. */
  function Arc(w: int): real { (w * (3141 - w)) as real / 3141.0 }

  /** The corrected parabola without rounding. */
  function Curve(p: real): real { p + 0.225 * (p * p / 1000.0 - p) }

  lemma ParabolaNear(w: int)
    requires 0 <= w <= 3141
    ensures Arc(w) - 1.0 < Parabola(w) as real < Arc(w) + 3.2 && 0 <= Parabola(w) <= 786
  {
    var q := w * 1000 / 3141;
    var n := w * (1000 - q);
    ParabolaBounds(w);
    assert 3141 * q <= 1000 * w < 3141 * q + 3141;
    ProductNear(w, q);
    assert n >= 0 && Parabola(w) == n / 1000;
    Rounded(w, n, n / 1000);
  }

  lemma ProductNear(w: int, q: int)
    requires 0 <= w <= 3141 && 3141 * q <= 1000 * w < 3141 * q + 3141
    ensures 1000 * (w * (3141 - w)) <= 3141 * (w * (1000 - q)) <= 1000 * (w * (3141 - w)) + 3141 * w
  {
    var rest := 1000 * w - 3141 * q;
    assert 3141 * (1000 - q) == 1000 * (3141 - w) + rest;
    assert w * (3141 * (1000 - q)) == 3141 * (w * (1000 - q));
    assert w * (1000 * (3141 - w) + rest) == 1000 * (w * (3141 - w)) + w * rest;
    Times(w, 0, rest);
    Times(w, rest, 3141);
  }

  lemma Rounded(w: int, n: int, y: int)
    requires 0 <= w <= 3141 && 1000 * y <= n < 1000 * y + 1000
    requires 1000 * (w * (3141 - w)) <= 3141 * n <= 1000 * (w * (3141 - w)) + 3141 * w
    ensures Arc(w) - 1.0 < y as real < Arc(w) + 3.2
  {
    var a := w * (3141 - w);
    assert 3141 * y > a - 3141;
    assert 1000 * (3141 * y) <= 1000 * a + 3141 * 3141;
    assert (3141 * y) as real > (a - 3141) as real;
  }

  lemma CorrectedNear(y: int)
    requires 0 <= y <= 786
    ensures Curve(y as real) - 0.3 < Corrected(y) as real < Curve(y as real) + 1.0
  {
    var (sq, s) := (y * y, y * y / 1000);
    Square(y);
    assert 1000 * s <= sq < 1000 * s + 1000 && s <= y;
    var inner := 225 * (y - s);
    var t := inner / 1000;
    assert 1000 * t <= inner < 1000 * t + 1000;
    CorrectedIs(y, s, t);
    CurveOf(y, sq, s, t);
  }

  lemma QuotIs(a: int, q: int)
    requires 1000 * q <= a < 1000 * q + 1000 && a >= 0
    ensures Quot(a, 1000) == q && Quot(-a, 1000) == -q
  {
  }

  lemma CorrectedIs(y: int, s: int, t: int)
    requires 0 <= y && 1000 * s <= y * y < 1000 * s + 1000 && 1000 * t <= 225 * (y - s) < 1000 * t + 1000 && s <= y
    ensures Corrected(y) == y - t
  {
    QuotIs(y * y, s);
    QuotIs(225 * (y - s), t);
    assert 225 * (s - y) == -(225 * (y - s));
    hide Quot;
  }

  /** The value at an angle, by its intermediate results. */
  lemma SineAt(w: int, q: int, y: int, s: int, t: int)
    requires 0 <= w <= 3141 && 3141 * q <= 1000 * w < 3141 * q + 3141 && q <= 1000
    requires 1000 * y <= w * (1000 - q) < 1000 * y + 1000 && 0 <= y
    requires 1000 * s <= y * y < 1000 * s + 1000 && 1000 * t <= 225 * (y - s) < 1000 * t + 1000 && s <= y
    ensures Corrected(Parabola(Wrapped(w))) == y - t
  {
    WrappedIs(w, w, 0);
    assert Quot(Abs(w) * 1000, PI) == q;
    Times(w, 0, 1000 - q);
    QuotIs(w * (1000 - q), y);
    CorrectedIs(y, s, t);
    hide Corrected;
    hide Quot;
    hide Wrapped;
  }

  lemma CurveOf(y: int, sq: int, s: int, t: int)
    requires 1000 * s <= sq < 1000 * s + 1000 && 1000 * t <= 225 * (y - s) < 1000 * t + 1000 && sq == y * y
    ensures Curve(y as real) - 0.3 < (y - t) as real < Curve(y as real) + 1.0
  {
    hide Curve;
    SquareOf(y, sq);
    CurveIs(y as real, sq as real);
  }

  lemma SquareOf(y: int, sq: int)
    requires sq == y * y
    ensures sq as real == y as real * y as real
  {
  }

  lemma CurveIs(y: real, sq: real)
    requires sq == y * y
    ensures Curve(y) == y + 0.225 * (sq / 1000.0 - y)
  {
  }

  /** Between two points up to 800 apart from 0 the curve rises by 0.7 to 1.2 times their distance. */
  lemma CurveRises(a: real, b: real)
    requires 0.0 <= a <= b <= 800.0
    ensures 0.0 <= Curve(b) - Curve(a) <= 1.2 * (b - a)
  {
    var d := b - a;
    assert b * b - a * a == d * (a + b);
    assert Curve(b) - Curve(a) == 0.775 * d + 0.000225 * (d * (a + b));
    TimesReal(d, 0.0, a + b);
    TimesReal(d, a + b, 1600.0);
  }

  lemma TimesReal(a: real, x: real, y: real)
    requires 0.0 <= a && x <= y
    ensures a * x <= a * y
  {
  }

  lemma ArcBounds(w: int)
    requires 0 <= w <= 3141
    ensures 0.0 <= Arc(w) <= 786.0
  {
    var t := 2 * w - 3141;
    assert 4 * (w * (3141 - w)) == 3141 * 3141 - t * t;
    assert t * t >= 0;
    Times(w, 0, 3141 - w);
  }

  /** For an angle from 0 to PI the result is within 5 of the corrected parabola computed exactly. */
  lemma SineNear(w: int)
    requires 0 <= w <= 3141
    ensures Curve(Arc(w)) - 2.0 < Corrected(Parabola(Wrapped(w))) as real < Curve(Arc(w)) + 5.0
  {
    var y, p := Parabola(w), Arc(w);
    WrappedIs(w, w, 0);
    ParabolaNear(w);
    ArcBounds(w);
    CorrectedNear(y);
    hide Corrected;
    hide Parabola;
    hide Arc;
    if y as real <= p {
      CurveRises(y as real, p);
    } else {
      CurveRises(p, y as real);
    }
    hide Curve;
  }

  lemma ArcInside(w: int)
    requires 3 <= w <= 3138
    ensures Arc(w) >= 2.99
  {
    var a := w * (3141 - w);
    assert a == 3 * 3138 + (w - 3) * (3138 - w);
    Times(w - 3, 0, 3138 - w);
    assert a as real >= 9414.0;
  }

  /** It is positive everywhere between 0 and PI. */
  lemma SinePositive(w: int)
    requires 0 < w < 3141
    ensures Corrected(Parabola(Wrapped(w))) > 0
  {
    if 3 <= w <= 3138 {
      SineNear(w);
      ArcInside(w);
      ArcBounds(w);
      CurveRises(2.99, Arc(w));
      assert Curve(2.99) > 2.0;
      hide Curve;
      hide Arc;
    } else if w == 1 {
      SineAt(1, 0, 1, 0, 0);
    } else if w == 2 {
      SineAt(2, 0, 2, 0, 0);
    } else {
      SineAt(w, 999, 3, 0, 0);
    }
  }

  /** Its value at a few angles: an eighth, a quarter and half of a turn, and three quarters. */
  lemma SineValues()
    ensures Corrected(Parabola(Wrapped(0))) == 0 && Corrected(Parabola(Wrapped(785))) == 535
    ensures Corrected(Parabola(Wrapped(1570))) == 748 && Corrected(Parabola(Wrapped(3141))) == 0
    ensures Corrected(Parabola(Wrapped(4712))) == -747
  {
    SineAt(0, 0, 0, 0, 0);
    SineAt(785, 249, 589, 346, 54);
    SineAt(1570, 499, 786, 617, 38);
    SineAt(1571, 500, 785, 616, 38);
    SineAt(3141, 1000, 0, 0, 0);
    SinePeriodic(4712, -1);
    SineOdd(1571);
    hide Wrapped;
    hide Parabola;
    hide Corrected;
  }
}
