/**
 Per-region geometry: the integer width and height of a detected quadrilateral
 and its truncated centroid (renderer.py).

 `int(np.linalg.norm(v))` is the floor of a Euclidean length, which is the
 integer square root of the squared length; `int(np.mean(...))` of four
 integer coordinates truncates toward zero.
 */
module Geometry {

  datatype Point = Point(x: int, y: int)

  /** The four corners of a detected box, in detection order `box[0..3]`:
      `p0 -> p1` is the reading direction and `p0 -> p3` the text height. */
  datatype Quad = Quad(p0: Point, p1: Point, p2: Point, p3: Point)

  /** The integer square root: the floor of `sqrt(n)`. */
  function Isqrt(n: nat): (r: nat)
    ensures r * r <= n < (r + 1) * (r + 1)
    decreases n
  {
    if n < 2 then n
    else
      var s := Isqrt(n / 4);
      IsqrtStep(n, s);
      var t := 2 * s;
      if (t + 1) * (t + 1) <= n then t + 1 else t
  }

  /** Doubling the root of `n / 4` gives a root of `n` up to one. */
  lemma IsqrtStep(n: nat, s: nat)
    requires s * s <= n / 4 < (s + 1) * (s + 1)
    ensures (2 * s) * (2 * s) <= n < (2 * s + 2) * (2 * s + 2)
  {
    var q := n / 4;
    assert n == 4 * q + n % 4;
    assert (2 * s) * (2 * s) == 4 * (s * s);
    assert (2 * s + 2) * (2 * s + 2) == 4 * ((s + 1) * (s + 1));
    assert q + 1 <= (s + 1) * (s + 1);
  }

  lemma SquareMono(a: nat, b: nat)
    requires a <= b
    ensures a * a <= b * b
  {
    assert b * b - a * a == (b - a) * (b + a);
  }

  /** `Isqrt(n)` is the largest `m` with `m * m <= n`: exactly the floor of the norm. */
  lemma IsqrtLargest(n: nat, m: nat)
    ensures m * m <= n <==> m <= Isqrt(n)
  {
    var r := Isqrt(n);
    if m <= r {
      SquareMono(m, r);
    } else {
      SquareMono(r + 1, m);
    }
  }

  /** Any `r` squeezed as `r * r <= n < (r + 1) * (r + 1)` is `Isqrt(n)`. */
  lemma IsqrtUnique(n: nat, r: nat)
    requires r * r <= n < (r + 1) * (r + 1)
    ensures r == Isqrt(n)
  {
    IsqrtLargest(n, r);
    IsqrtLargest(n, r + 1);
  }

  function SquaredDistance(a: Point, b: Point): nat {
    var dx, dy := b.x - a.x, b.y - a.y;
    dx * dx + dy * dy
  }

  /** The length of the edge from `a` to `b`, truncated to an integer. */
  function EdgeLength(a: Point, b: Point): nat {
    Isqrt(SquaredDistance(a, b))
  }

  /** `width`: the length of the reading edge `box[1] - box[0]`. */
  function Width(q: Quad): (w: nat)
    ensures w * w <= SquaredDistance(q.p0, q.p1) < (w + 1) * (w + 1)
    ensures w == 0 <==> q.p0 == q.p1
  {
    EdgeLengthZero(q.p0, q.p1);
    EdgeLength(q.p0, q.p1)
  }

  /** `height`: the length of the side edge `box[3] - box[0]`. */
  function Height(q: Quad): (h: nat)
    ensures h * h <= SquaredDistance(q.p0, q.p3) < (h + 1) * (h + 1)
    ensures h == 0 <==> q.p0 == q.p3
  {
    EdgeLengthZero(q.p0, q.p3);
    EdgeLength(q.p0, q.p3)
  }

  /** An edge has length 0 exactly when its two ends coincide. */
  lemma EdgeLengthZero(a: Point, b: Point)
    ensures EdgeLength(a, b) == 0 <==> a == b
  {
    var dx, dy := b.x - a.x, b.y - a.y;
    var d := SquaredDistance(a, b);
    IsqrtLargest(d, 1);
    if dx != 0 {
      assert dx * dx >= 1 by {
        if dx > 0 { SquareMono(1, dx); } else { SquareMono(1, -dx); }
      }
    }
    if dy != 0 {
      assert dy * dy >= 1 by {
        if dy > 0 { SquareMono(1, dy); } else { SquareMono(1, -dy); }
      }
    }
  }

  /** An axis-parallel edge of `k` pixels has length exactly `k`. */
  lemma AxisEdgeLength(a: Point, k: nat)
    ensures EdgeLength(a, Point(a.x + k, a.y)) == k
    ensures EdgeLength(a, Point(a.x, a.y + k)) == k
  {
    var d := k * k;
    assert SquaredDistance(a, Point(a.x + k, a.y)) == d by {
      assert (a.x + k) - a.x == k && a.y - a.y == 0;
    }
    assert SquaredDistance(a, Point(a.x, a.y + k)) == d by {
      assert a.x - a.x == 0 && (a.y + k) - a.y == k;
    }
    assert (k + 1) * (k + 1) == d + 2 * k + 1;
    IsqrtUnique(d, k);
  }

  /** `int(a / n)` for a positive `n`: division truncating toward zero, as
      Python's `int()` of a float does (Dafny's `/` is Euclidean). */
  function TruncDiv(a: int, n: int): (q: int)
    requires n > 0
    ensures a >= 0 ==> q * n <= a < q * n + n
    ensures a < 0 ==> q * n - n < a <= q * n
  {
    if a >= 0 then a / n else -((-a) / n)
  }

  /** The rendering centre: the mean of the four x and of the four y
      coordinates, each truncated toward zero. */
  function Centroid(q: Quad): (c: Point)
    ensures var sx := q.p0.x + q.p1.x + q.p2.x + q.p3.x;
            && (sx >= 0 ==> 4 * c.x <= sx < 4 * c.x + 4)
            && (sx < 0 ==> 4 * c.x - 4 < sx <= 4 * c.x)
    ensures var sy := q.p0.y + q.p1.y + q.p2.y + q.p3.y;
            && (sy >= 0 ==> 4 * c.y <= sy < 4 * c.y + 4)
            && (sy < 0 ==> 4 * c.y - 4 < sy <= 4 * c.y)
  {
    Point(TruncDiv(q.p0.x + q.p1.x + q.p2.x + q.p3.x, 4),
          TruncDiv(q.p0.y + q.p1.y + q.p2.y + q.p3.y, 4))
  }

  function Min4(a: int, b: int, c: int, d: int): int {
    var ab := if a <= b then a else b;
    var cd := if c <= d then c else d;
    if ab <= cd then ab else cd
  }

  function Max4(a: int, b: int, c: int, d: int): int {
    var ab := if a >= b then a else b;
    var cd := if c >= d then c else d;
    if ab >= cd then ab else cd
  }

  /** Truncating the mean of four integers stays within their range. */
  lemma TruncMeanBetween(a: int, b: int, c: int, d: int)
    ensures Min4(a, b, c, d) <= TruncDiv(a + b + c + d, 4) <= Max4(a, b, c, d)
  {
  }

  /** The centroid lies inside the box's bounding rectangle. */
  lemma CentroidInsideBounds(q: Quad)
    ensures var c := Centroid(q);
            Min4(q.p0.x, q.p1.x, q.p2.x, q.p3.x) <= c.x <= Max4(q.p0.x, q.p1.x, q.p2.x, q.p3.x)
            && Min4(q.p0.y, q.p1.y, q.p2.y, q.p3.y) <= c.y <= Max4(q.p0.y, q.p1.y, q.p2.y, q.p3.y)
  {
    TruncMeanBetween(q.p0.x, q.p1.x, q.p2.x, q.p3.x);
    TruncMeanBetween(q.p0.y, q.p1.y, q.p2.y, q.p3.y);
  }

  /** The axis-aligned rectangle with top-left corner `(x, y)`, `w` wide and `h` high. */
  function AxisBox(x: int, y: int, w: nat, h: nat): Quad {
    Quad(Point(x, y), Point(x + w, y), Point(x + w, y + h), Point(x, y + h))
  }

  /** An axis-aligned box measures its own sides. */
  lemma AxisBoxSize(x: int, y: int, w: nat, h: nat)
    ensures Width(AxisBox(x, y, w, h)) == w
    ensures Height(AxisBox(x, y, w, h)) == h
  {
    AxisEdgeLength(Point(x, y), w);
    AxisEdgeLength(Point(x, y), h);
  }
}
