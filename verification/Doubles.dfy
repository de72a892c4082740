/** Counts that travel as doubles: a count is divided by a scale when it is read, multiplied by the
    scale and truncated when it is written.  Arithmetic is that of binary64 in IEEE Std 754, rounding
    to nearest with ties to even; within the bounds used here there is no overflow and no underflow. */
module Doubles {
  const TWO32 := 0x1_0000_0000
  const TWO52 := 0x10_0000_0000_0000
  const TWO53 := 0x20_0000_0000_0000
  const TWO54 := 0x40_0000_0000_0000

  predicate PowerOfTwo(u: nat) {
    u == 1 || (u > 1 && u % 2 == 0 && PowerOfTwo(u / 2))
  }

  lemma Division(a: nat, b: nat)
    requires b > 0
    ensures a / b >= 0 && a == (a / b) * b + a % b && a % b < b
  {
  }

  lemma ProductIsNat(a: nat, b: nat)
    ensures a * b >= 0
  {
  }

  lemma LessTimes(p: int, q: int, b: nat)
    requires p < q
    ensures p * b + b <= q * b
  {
    assert (q - p - 1) * b >= 0;
    assert q * b == p * b + b + (q - p - 1) * b;
  }

  predicate RoundsUp(q: nat, r: nat, b: nat) {
    2 * r > b || (2 * r == b && q % 2 == 1)
  }

  /** The integer nearest to a / b, the even one of two. */
  function HalfEven(a: nat, b: nat): (j: nat)
    requires b > 0
  {
    Division(a, b);
    if RoundsUp(a / b, a % b, b) then a / b + 1 else a / b
  }

  /** The double m / u. */
  datatype Double = Double(m: nat, u: nat)

  /** The power of two from u up at which a / b gets a significand of 53 bits. */
  function Scale(a: nat, b: nat, u: nat): (v: nat)
    requires a > 0 && u > 0 && PowerOfTwo(u) && a * u < TWO53 * b
    ensures PowerOfTwo(v) && v > 0 && TWO52 * b <= a * v < TWO53 * b
    decreases TWO53 * b - a * u
  {
    if TWO52 * b <= a * u then u
    else
      assert a * (2 * u) == 2 * (a * u);
      Scale(a, b, 2 * u)
  }

  /** The distance of the doubles around an integer of 53 bits or more. */
  function Grid(a: nat): (g: nat)
    requires a >= TWO52
    ensures PowerOfTwo(g) && g > 0 && TWO52 * g <= a < TWO53 * g
  {
    if a < TWO53 then 1 else 2 * Grid(a / 2)
  }

  /** The double nearest to n / d. */
  function Quotient(n: nat, d: nat): (x: Double)
    requires 0 < n < TWO32 && 0 < d < TWO32
    ensures x.u > 0 && TWO52 <= x.m * d
  {
    var u := Scale(n, d, 1);
    RoundedFits(n * u, d);
    Double(HalfEven(n * u, d), u)
  }

  lemma RoundedFits(a: nat, d: nat)
    requires d > 0 && TWO52 * d <= a
    ensures TWO52 <= HalfEven(a, d) * d
  {
    Division(a, d);
    if a / d < TWO52 {
      LessTimes(a / d, TWO52, d);
    }
    if TWO52 < HalfEven(a, d) {
      LessTimes(TWO52, HalfEven(a, d), d);
    }
  }

  /** The double nearest to x times d, cut to an integer. */
  function TruncatedProduct(x: Double, d: nat): nat
    requires TWO52 <= x.m * d && x.u > 0
  {
    var g := Grid(x.m * d);
    var j := HalfEven(x.m * d, g);
    ProductIsNat(j, g);
    Division(j * g, x.u);
    j * g / x.u
  }

  /** What becomes of a count n: divided by d into a double, multiplied by d again and truncated. */
  function Rescaled(n: nat, d: nat): nat
    requires n < TWO32 && 0 < d < TWO32
  {
    if n == 0 then 0 else TruncatedProduct(Quotient(n, d), d)
  }

  /** The least power of two that is not less than n. */
  function Ceiling(n: nat): (c: nat)
    ensures PowerOfTwo(c) && c > 0 && n <= c && (n > 0 ==> c < 2 * n)
  {
    if n <= 1 then 1 else 2 * Ceiling((n + 1) / 2)
  }

  /** The count comes back: its quotient is rounded up, or down by no more than half the distance
      between n and the double below n. */
  predicate Survives(n: nat, d: nat)
    requires n < TWO32 && 0 < d < TWO32
  {
    n == 0 ||
    var u := Scale(n, d, 1);
    ProductIsNat(n, u);
    Division(n * u, d);
    RoundsUp(n * u / d, n * u % d, d) || TWO54 * (n * u % d) <= Ceiling(n) * u
  }

  // ---- Powers of two ----

  /** Of two powers of two the smaller divides the larger. */
  lemma {:induction false} SmallerDivides(x: nat, y: nat) returns (k: nat)
    requires PowerOfTwo(x) && PowerOfTwo(y) && x <= y
    ensures y == x * k && k >= 1 && (x < y ==> k % 2 == 0)
  {
    if x == 1 {
      k := y;
    } else {
      k := SmallerDivides(x / 2, y / 2);
      assert y == 2 * (x / 2 * k) == x * k;
    }
  }

  lemma DoubleIsPower(x: nat)
    requires PowerOfTwo(x)
    ensures PowerOfTwo(2 * x)
  {
  }

  lemma HalfTimes(x: nat, y: nat)
    requires x % 2 == 0
    ensures x * y == 2 * (x / 2 * y)
  {
  }

  lemma {:induction false} ProductIsPower(x: nat, y: nat)
    requires PowerOfTwo(x) && PowerOfTwo(y)
    ensures PowerOfTwo(x * y)
  {
    if x > 1 {
      ProductIsPower(x / 2, y);
      HalfTimes(x, y);
      DoubleIsPower(x / 2 * y);
    }
  }

  lemma Two52IsPower()
    ensures PowerOfTwo(TWO52)
  {
    assert PowerOfTwo(8192);
    ProductIsPower(8192, 8192);
    ProductIsPower(8192 * 8192, 8192);
    ProductIsPower(8192 * 8192 * 8192, 8192);
  }

  /** Of two different powers of two one is at least twice the other. */
  lemma PowersApart(x: nat, y: nat)
    requires PowerOfTwo(x) && PowerOfTwo(y) && x < y
    ensures 2 * x <= y
  {
    var k := SmallerDivides(x, y);
    LessTimes(1, k, x);
  }

  lemma SamePower(x: nat, y: nat, m: nat)
    requires PowerOfTwo(x) && PowerOfTwo(y) && x <= m < 2 * x && y <= m < 2 * y
    ensures x == y
  {
    if x < y {
      PowersApart(x, y);
    } else if y < x {
      PowersApart(y, x);
    }
  }

  // ---- Rounding next to a multiple of the grid ----

  lemma QuotientIs(a: nat, b: nat, q: nat, r: nat)
    requires a == q * b + r && r < b
    ensures a / b == q && a % b == r
  {
    Division(a, b);
    if a / b < q {
      LessTimes(a / b, q, b);
    } else if q < a / b {
      LessTimes(q, a / b, b);
    }
  }

  lemma RoundBelow(a: nat, g: nat, r: nat)
    requires a % 2 == 0 && g > 0 && r <= a * g
    ensures var j := HalfEven(a * g - r, g);
            j <= a && (j == a <==> 2 * r <= g) && j * g >= a * g - r - g
  {
    var m := a * g - r;
    if r == 0 {
      QuotientIs(m, g, a, 0);
    } else {
      assert (a - 1) * g == a * g - g;
      if r < g {
        QuotientIs(m, g, a - 1, g - r);
      } else {
        RoundFarBelow(a, g, r);
      }
    }
  }

  lemma RoundFarBelow(a: nat, g: nat, r: nat)
    requires g > 0 && g <= r <= a * g
    ensures var j := HalfEven(a * g - r, g);
            j < a && j * g >= a * g - r - g
  {
    var q, t := (a * g - r) / g, (a * g - r) % g;
    Division(a * g - r, g);
    assert (q + 1) * g == q * g + g && (a - 1) * g == a * g - g;
    if q >= a {
      LessTimes(a - 1, q, g);
    }
  }

  lemma RoundAbove(a: nat, g: nat, t: nat)
    requires g > 0
    ensures var j := HalfEven(a * g + t, g);
            a <= j && j * g <= a * g + t + g
  {
    var q := (a * g + t) / g;
    Division(a * g + t, g);
    if q < a {
      LessTimes(q, a, g);
    }
    assert (q + 1) * g == q * g + g;
  }

  // ---- The way there and back ----

  /** u scales n / d to 53 bits. */
  ghost predicate Scales(n: nat, d: nat, u: nat) {
    0 < n < TWO32 && 0 < d && PowerOfTwo(u) && u > 0 && TWO52 * d <= n * u
  }

  /** The grid at a product divides the scale evenly, and is much finer. */
  lemma GridDivides(n: nat, d: nat, u: nat, m: nat) returns (c: nat)
    requires Scales(n, d, u) && TWO52 <= m <= n * u + d
    ensures u == c * Grid(m) && c % 2 == 0 && 16 * Grid(m) <= u && 16 * d <= u
  {
    LessTimes(n, TWO32, u);
    c := SmallerDivides(Grid(m), u);
  }

  lemma Reassociate(n: nat, c: nat, g: nat, u: nat)
    requires u == c * g
    ensures n * u == (n * c) * g
  {
  }

  lemma FloorIs(x: nat, u: nat, n: nat)
    requires u > 0
    ensures n * u <= x < n * u + u ==> x / u == n
    ensures n > 0 && n * u - u <= x < n * u ==> x / u == n - 1
  {
    if n * u <= x < n * u + u {
      QuotientIs(x, u, n, x - n * u);
    } else if n > 0 && n * u - u <= x < n * u {
      assert (n - 1) * u == n * u - u;
      QuotientIs(x, u, n - 1, x - (n - 1) * u);
    }
  }

  lemma RoundedUpReturns(n: nat, d: nat, u: nat, t: nat)
    requires Scales(n, d, u) && 2 * t <= d && TWO52 <= n * u + t
    ensures var g := Grid(n * u + t);
            HalfEven(n * u + t, g) * g / u == n
  {
    var g := Grid(n * u + t);
    var c := GridDivides(n, d, u, n * u + t);
    Reassociate(n, c, g, u);
    RoundAbove(n * c, g, t);
    var j := HalfEven(n * u + t, g);
    if n * c < j {
      LessTimes(n * c, j, g);
    }
    FloorIs(j * g, u, n);
  }

  lemma RoundedDownFalls(n: nat, d: nat, u: nat, r: nat)
    requires Scales(n, d, u) && 2 * r <= d && TWO52 <= n * u - r
    ensures var g := Grid(n * u - r);
            HalfEven(n * u - r, g) * g / u == if 2 * r <= g then n else n - 1
  {
    var g := Grid(n * u - r);
    var c := GridDivides(n, d, u, n * u - r);
    Reassociate(n, c, g, u);
    assert (n * c) % 2 == 0 by { EvenTimes(n, c); }
    RoundBelow(n * c, g, r);
    var j := HalfEven(n * u - r, g);
    if j < n * c {
      LessTimes(j, n * c, g);
    }
    ProductIsNat(j, g);
    FloorIs(j * g, u, n);
  }

  lemma EvenTimes(n: nat, c: nat)
    requires c % 2 == 0
    ensures (n * c) % 2 == 0
  {
    assert n * c == 2 * (n * (c / 2));
  }

  lemma TimesTwice(c: nat, v: nat)
    ensures c * (2 * v) == 2 * (c * v)
  {
  }

  lemma HalfBelow(c: nat, n: nat, v: nat, r: nat)
    requires n <= c < 2 * n && 0 < r <= v
    ensures c * v <= n * (2 * v) - r < 2 * (c * v)
  {
    LessTimes(c, 2 * n, v);
    assert 2 * n * v == n * (2 * v) == 2 * (n * v);
    if n < c {
      LessTimes(n, c, v);
    }
  }

  /** The half of Ceiling(n) * u is the power of two at or below a number just below n * u. */
  lemma HalfCeiling(n: nat, u: nat, r: nat) returns (h: nat)
    requires n > 0 && PowerOfTwo(u) && u > 1 && 2 * r <= u && 0 < r
    ensures PowerOfTwo(h) && 2 * h == Ceiling(n) * u && h <= n * u - r < 2 * h
  {
    var c, v := Ceiling(n), u / 2;
    h := c * v;
    assert PowerOfTwo(c * v) by { ProductIsPower(c, v); }
    assert 2 * (c * v) == c * u by { TimesTwice(c, v); }
    HalfBelow(c, n, v, r);
  }

  /** The distance to the double below n, in units of 1 / u. */
  lemma GapBelow(n: nat, d: nat, u: nat, r: nat)
    requires Scales(n, d, u) && 0 < r && 2 * r <= d && TWO52 <= n * u - r
    ensures TWO53 * Grid(n * u - r) == Ceiling(n) * u
  {
    var g := Grid(n * u - r);
    var c := GridDivides(n, d, u, n * u - r);
    var h := HalfCeiling(n, u, r);
    Two52IsPower();
    ProductIsPower(TWO52, g);
    SamePower(TWO52 * g, h, n * u - r);
  }

  lemma RescaledUp(n: nat, d: nat, u: nat, q: nat, r: nat)
    requires Scales(n, d, u) && n * u == q * d + r && r < d && d <= 2 * r
    requires TWO52 <= (q + 1) * d
    ensures TruncatedProduct(Double(q + 1, u), d) == n
  {
    assert (q + 1) * d == n * u + (d - r);
    RoundedUpReturns(n, d, u, d - r);
  }

  lemma RescaledDown(n: nat, d: nat, u: nat, q: nat, r: nat)
    requires Scales(n, d, u) && n * u == q * d + r && 2 * r <= d
    requires TWO52 <= q * d
    ensures TruncatedProduct(Double(q, u), d) == if TWO54 * r <= Ceiling(n) * u then n else n - 1
  {
    assert q * d == n * u - r;
    RoundedDownFalls(n, d, u, r);
    if r > 0 { GapBelow(n, d, u, r); }
    ProductIsNat(Ceiling(n), u);
  }

  /** Exactly which counts come back; all others come back as one less. */
  lemma RescaledIs(n: nat, d: nat)
    requires n < TWO32 && 0 < d < TWO32
    ensures Rescaled(n, d) == if Survives(n, d) then n else n - 1
  {
    if n > 0 {
      var u := Scale(n, d, 1);
      ProductIsNat(n, u);
      Division(n * u, d);
      var q, r := n * u / d, n * u % d;
      RoundedFits(n * u, d);
      if RoundsUp(q, r, d) {
        RescaledUp(n, d, u, q, r);
      } else {
        RescaledDown(n, d, u, q, r);
      }
    }
  }

  // ---- Counts that do not come back ----

  lemma TwiceTimes(a: nat, v: nat, u: nat)
    requires 2 * v <= u
    ensures 2 * (a * v) <= a * u
  {
    assert a * u == 2 * (a * v) + a * (u - 2 * v);
    ProductIsNat(a, u - 2 * v);
  }

  lemma ScaleIs(a: nat, b: nat, u: nat)
    requires a > 0 && PowerOfTwo(u) && u > 0 && TWO52 * b <= a * u < TWO53 * b && a < TWO53 * b
    ensures Scale(a, b, 1) == u
  {
    var v := Scale(a, b, 1);
    if v < u {
      PowersApart(v, u);
      TwiceTimes(a, v, u);
    } else if u < v {
      PowersApart(u, v);
      TwiceTimes(a, u, v);
    }
  }

  lemma CeilingIs(n: nat, c: nat)
    requires PowerOfTwo(c) && 0 < n <= c < 2 * n
    ensures Ceiling(n) == c
  {
    if Ceiling(n) < c {
      PowersApart(Ceiling(n), c);
    } else if c < Ceiling(n) {
      PowersApart(c, Ceiling(n));
    }
  }

  lemma Lost(n: nat, d: nat, u: nat, q: nat, r: nat, c: nat)
    requires 0 < n < TWO32 && 0 < d < TWO32 && PowerOfTwo(u) && TWO52 * d <= n * u < TWO53 * d
    requires n * u == q * d + r && r < d && 2 * r < d
    requires PowerOfTwo(c) && n <= c < 2 * n && TWO54 * r > c * u
    ensures !Survives(n, d) && Rescaled(n, d) == n - 1
  {
    ScaleIs(n, d, u);
    QuotientIs(n * u, d, q, r);
    CeilingIs(n, c);
    RescaledIs(n, d);
  }

  lemma SomePowers()
    ensures PowerOfTwo(256) && PowerOfTwo(1024) && PowerOfTwo(TWO52) && PowerOfTwo(TWO52 * 4096)
  {
    Two52IsPower();
    ProductIsPower(16, 16);
    ProductIsPower(32, 32);
    ProductIsPower(64, 64);
    ProductIsPower(TWO52, 4096);
  }

  /** 1001 thousandths come back as 1000. */
  lemma Frequency1001()
    ensures !Survives(1001, 1000) && Rescaled(1001, 1000) == 1000
  {
    SomePowers();
    Lost(1001, 1000, TWO52, 4508103226997866, 496, 1024);
  }

  /** 249 millionths come back as 248. */
  lemma Fraction249()
    ensures !Survives(249, 1_000_000) && Rescaled(249, 1_000_000) == 248
  {
    SomePowers();
    Lost(249, 1_000_000, TWO52 * 4096, 4593239274353678, 352384, 256);
  }
}
