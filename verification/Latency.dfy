/** network/area.go: the delay between two locations, one millisecond per unit of distance. */
module Latency {
  import opened Rule

  function Square(x: real): real {
    x * x
  }

  function SquaredDistance(x1: real, y1: real, x2: real, y2: real): real {
    Square(x1 - x2) + Square(y1 - y2)
  }

  /** The whole number of units between two locations. */
  predicate IsDistance(m: nat, x1: real, y1: real, x2: real, y2: real) {
    var r := m as real;
    r * r <= (x1 - x2) * (x1 - x2) + (y1 - y2) * (y1 - y2) < (r + 1.0) * (r + 1.0)
  }

  /** `r` is the square root of `d` without its fraction. */
  predicate IsRoot(r: nat, d: real) {
    Square(r as real) <= d < Square((r + 1) as real)
  }

  /** The truncated square root, searched upward. */
  function RootFrom(d: real, r: nat): (root: nat)
    requires Square(r as real) <= d
    ensures IsRoot(root, d)
    decreases d.Floor + 1 - r
  {
    if Square((r + 1) as real) <= d then
      RootBelow(r + 1, d);
      RootFrom(d, r + 1)
    else r
  }

  /** The distance of two locations in whole milliseconds, as nanoseconds. */
  function CalculateLatency(x1: real, y1: real, x2: real, y2: real): (delay: Delay)
    ensures delay.value >= 0 && delay.value % 1_000_000 == 0 && IsDistance(delay.value / 1_000_000, x1, y1, x2, y2)
  {
    var ms := Millis(x1, y1, x2, y2);
    assert ms * 1_000_000 / 1_000_000 == ms;
    Delay(ms * MILLISECOND, 0)
  }

  function Millis(x1: real, y1: real, x2: real, y2: real): (ms: nat)
    ensures IsRoot(ms, SquaredDistance(x1, y1, x2, y2))
    ensures IsDistance(ms, x1, y1, x2, y2)
  {
    SquareNonNegative(x1 - x2);
    SquareNonNegative(y1 - y2);
    RootFrom(SquaredDistance(x1, y1, x2, y2), 0)
  }

  lemma SquareNonNegative(x: real)
    ensures Square(x) >= 0.0
  {
  }

  /** A root is at most the number plus one, which bounds the search. */
  lemma RootBelow(r: nat, d: real)
    requires Square(r as real) <= d
    ensures r <= d.Floor + 1
  {
  }

  lemma SquareLess(a: real, b: real)
    requires 0.0 <= a < b
    ensures Square(a) < Square(b)
  {
    var d := b - a;
    assert b * b == (a + d) * (a + d) == a * a + (2.0 * a * d + d * d);
    assert a * d >= 0.0 && d * d > 0.0;
  }

  lemma SquareLessInverse(a: real, b: real)
    requires 0.0 <= b && Square(a) < Square(b)
    ensures a < b
  {
  }

  lemma DistanceIsUnique(m: nat, n: nat, x1: real, y1: real, x2: real, y2: real)
    requires IsDistance(m, x1, y1, x2, y2) && IsDistance(n, x1, y1, x2, y2)
    ensures m == n
  {
    RootUnique(m, n, SquaredDistance(x1, y1, x2, y2));
  }

  lemma DistanceIsSymmetric(m: nat, x1: real, y1: real, x2: real, y2: real)
    requires IsDistance(m, x1, y1, x2, y2)
    ensures IsDistance(m, x2, y2, x1, y1)
  {
    assert (x1 - x2) * (x1 - x2) == (x2 - x1) * (x2 - x1);
    assert (y1 - y2) * (y1 - y2) == (y2 - y1) * (y2 - y1);
  }

  lemma RootUnique(a: nat, b: nat, d: real)
    requires IsRoot(a, d) && IsRoot(b, d)
    ensures a == b
  {
  }

  /** The delay is the same in both directions. */
  lemma LatencySymmetric(x1: real, y1: real, x2: real, y2: real)
    ensures CalculateLatency(x1, y1, x2, y2) == CalculateLatency(x2, y2, x1, y1)
  {
  }

  /** The inner product is at most the product of the lengths. */
  lemma CauchySchwarz(a: real, b: real, c: real, d: real)
    ensures Square(a * c + b * d) <= (Square(a) + Square(b)) * (Square(c) + Square(d))
  {
    SquareNonNegative(a * d - b * c);
    var p, q := a * d, b * c;
    assert Square(p - q) == p * p - 2.0 * (p * q) + q * q;
    assert (Square(a) + Square(b)) * (Square(c) + Square(d))
           == a * a * (c * c) + a * a * (d * d) + b * b * (c * c) + b * b * (d * d);
    assert p * p == a * a * (d * d) && q * q == b * b * (c * c) && p * q == (a * c) * (b * d);
    assert (a * c) * (a * c) == a * a * (c * c) && (b * d) * (b * d) == b * b * (d * d);
    var u, v := a * c, b * d;
    assert Square(u + v) == u * u + 2.0 * (u * v) + v * v;
  }

  /** Adding two displacements shorter than m and n gives one shorter than m + n. */
  lemma SumIsShorter(a: real, b: real, c: real, d: real, m: real, n: real)
    requires m >= 0.0 && n >= 0.0
    requires Square(a) + Square(b) < Square(m) && Square(c) + Square(d) < Square(n)
    ensures Square(a + c) + Square(b + d) < Square(m + n)
  {
    var p, q, s := Square(a) + Square(b), Square(c) + Square(d), a * c + b * d;
    SquareNonNegative(a); SquareNonNegative(b); SquareNonNegative(c); SquareNonNegative(d);
    CauchySchwarz(a, b, c, d);
    assert p * q <= p * Square(n) <= Square(m) * Square(n);
    assert Square(m) * Square(n) == Square(m * n);
    assert s <= m * n by {
      if s > m * n { SquareLess(m * n, s); }
    }
    assert Square(a + c) == Square(a) + 2.0 * (a * c) + Square(c);
    assert Square(b + d) == Square(b) + 2.0 * (b * d) + Square(d);
    assert Square(m + n) == Square(m) + 2.0 * (m * n) + Square(n);
  }

  /** Truncation costs at most one millisecond of the triangle inequality. */
  lemma LatencyTriangle(ax: real, ay: real, px: real, py: real, cx: real, cy: real)
    ensures Millis(ax, ay, cx, cy) <= Millis(ax, ay, px, py) + Millis(px, py, cx, cy) + 1
  {
    var m, n, k := Millis(ax, ay, px, py) + 1, Millis(px, py, cx, cy) + 1, Millis(ax, ay, cx, cy);
    SumIsShorter(ax - px, ay - py, px - cx, py - cy, m as real, n as real);
    assert ax - px + (px - cx) == ax - cx && ay - py + (py - cy) == ay - cy;
    SquareLessInverse(k as real, (m + n) as real);
  }

  /** The bound is reached: the extra millisecond cannot be dropped. */
  lemma LatencyTriangleTight()
    ensures Millis(0.0, 0.0, 1.8, 0.0) == 1 && Millis(0.0, 0.0, 0.9, 0.0) == 0 && Millis(0.9, 0.0, 1.8, 0.0) == 0
  {
  }
}
