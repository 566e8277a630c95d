/** Arithmetic of the uniform N x N x N bucket grid behind the proximity
    search: squared distances, the distance-range test, the per-axis cell of a
    coordinate (clamped by limitIndex) and the range of cells a range query
    scans. Coordinates are exact reals; no square root is ever taken. */
module Grid {

  datatype Point = Point(x: real, y: real, z: real)

  /** A bucket coordinate (i, j, k) of the grid. */
  datatype Cell = Cell(i: int, j: int, k: int)

  /** v * v; the split by sign hands the solver a product of two
      non-negative factors, from which r >= 0 follows. */
  function Sq(v: real): (r: real)
    ensures r >= 0.0
  {
    if v >= 0.0 then v * v else (-v) * (-v)
  }

  lemma MulLe(x: real, y: real, z: real)
    requires 0.0 <= z && x <= y
    ensures x * z <= y * z
  {
    assert (y - x) * z >= 0.0;
    assert (y - x) * z == y * z - x * z;
  }

  lemma LeLt(p: real, q: real, r: real)
    requires p <= q < r
    ensures p < r
  {
  }

  /** Squared Euclidean distance; it bounds each squared axis difference. */
  function Dist2(a: Point, b: Point): (r: real)
    ensures r >= 0.0
    ensures Sq(a.x - b.x) <= r && Sq(a.y - b.y) <= r && Sq(a.z - b.z) <= r
  {
    Sq(a.x - b.x) + Sq(a.y - b.y) + Sq(a.z - b.z)
  }

  /** The distance test of a range query, dmin <= |c - p| <= dmax, on squares. */
  predicate Within(c: Point, p: Point, dmin: real, dmax: real)
  {
    (dmin <= 0.0 || Sq(dmin) <= Dist2(c, p)) && 0.0 <= dmax && Dist2(c, p) <= Sq(dmax)
  }

  /** On non-negative reals squaring preserves and reflects the order. */
  lemma SqOrder(a: real, b: real)
    requires 0.0 <= a && 0.0 <= b
    ensures Sq(a) <= Sq(b) <==> a <= b
  {
    if b < a {
      var p, q, r := b * b, b * a, a * a;
      assert p <= q;
      assert q < r;
      LeLt(p, q, r);
    } else {
      var p, q, r := a * a, a * b, b * b;
      assert p <= q;
      assert q <= r;
    }
  }

  /** The squared test is exactly the distance test for the true distance d. */
  lemma WithinIsDistanceRange(c: Point, p: Point, dmin: real, dmax: real, d: real)
    requires 0.0 <= d && Sq(d) == Dist2(c, p)
    ensures Within(c, p, dmin, dmax) <==> dmin <= d <= dmax
  {
    if 0.0 < dmin {
      SqOrder(dmin, d);
    }
    if 0.0 <= dmax {
      SqOrder(d, dmax);
    }
  }

  /** An axis difference is bounded by any radius that bounds the distance. */
  lemma AxisGap(u: real, dmax: real)
    requires 0.0 <= dmax && Sq(u) <= Sq(dmax)
    ensures -dmax <= u <= dmax
  {
    var g := if u >= 0.0 then u else -u;
    assert Sq(g) == Sq(u);
    SqOrder(g, dmax);
  }

  function Gap(a: int, b: int): nat
  {
    if a <= b then b - a else a - b
  }

  /** limitIndex: the valid bucket index nearest to ind. */
  function LimitIndex(n: int, ind: int): (r: int)
    requires n >= 1
    ensures 0 <= r < n
    ensures forall m :: 0 <= m < n ==> Gap(ind, r) <= Gap(ind, m)
  {
    if ind < 0 then 0 else if ind > n - 1 then n - 1 else ind
  }

  lemma LimitIndexMonotone(n: int, a: int, b: int)
    requires n >= 1 && a <= b
    ensures LimitIndex(n, a) <= LimitIndex(n, b)
  {
  }

  /** Width of one bucket along an axis of extent [lo, hi] cut into n buckets. */
  function GridSpacing(n: int, lo: real, hi: real): (w: real)
    requires n >= 1
    ensures w * (n as real) == hi - lo
    ensures lo < hi ==> 0.0 < w
  {
    (hi - lo) / (n as real)
  }

  function Ceil(r: real): (c: int)
    ensures r <= c as real < r + 1.0
  {
    -((-r).Floor)
  }

  /** Unclamped bucket index of coordinate v, floor((v - lo) / w). */
  function RawAxisCell(n: int, lo: real, hi: real, v: real): int
    requires n >= 1 && lo < hi
  {
    ((v - lo) / GridSpacing(n, lo, hi)).Floor
  }

  /** Bucket index of coordinate v, clamped into the grid. */
  function AxisCell(n: int, lo: real, hi: real, v: real): (r: int)
    requires n >= 1 && lo < hi
    ensures 0 <= r < n
  {
    LimitIndex(n, RawAxisCell(n, lo, hi, v))
  }

  /** Number of buckets a query radius can reach along an axis. */
  function Reach(n: int, lo: real, hi: real, dmax: real): int
    requires n >= 1 && lo < hi
  {
    Ceil(dmax / GridSpacing(n, lo, hi))
  }

  /** First and last bucket index a query around c with radius dmax scans. */
  function ScanFrom(n: int, lo: real, hi: real, c: real, dmax: real): int
    requires n >= 1 && lo < hi
  {
    LimitIndex(n, AxisCell(n, lo, hi, c) - Reach(n, lo, hi, dmax))
  }

  function ScanTo(n: int, lo: real, hi: real, c: real, dmax: real): int
    requires n >= 1 && lo < hi
  {
    LimitIndex(n, AxisCell(n, lo, hi, c) + Reach(n, lo, hi, dmax))
  }

  /** Inside the extent (below its upper face) the clamp changes nothing. */
  lemma AxisCellInside(n: int, lo: real, hi: real, v: real)
    requires n >= 1 && lo < hi
    requires lo <= v < hi
    ensures 0 <= RawAxisCell(n, lo, hi, v) < n
    ensures AxisCell(n, lo, hi, v) == RawAxisCell(n, lo, hi, v)
  {
    var w := GridSpacing(n, lo, hi);
    var a := (v - lo) / w;
    assert a * w == v - lo;
    assert 0.0 <= a;
    assert a < n as real by {
      if a >= n as real {
        MulLe(n as real, a, w);
      }
    }
  }

  lemma MulLt(x: real, y: real, z: real)
    requires 0.0 < z && x < y
    ensures x * z < y * z
  {
    assert (y - x) * z > 0.0;
    assert (y - x) * z == y * z - x * z;
  }

  /** On the closed extent [lo, hi] the unclamped index lies in [0, n];
      outside it the unclamped index is not an index of the grid. */
  lemma AxisRawRange(n: int, lo: real, hi: real, v: real)
    requires n >= 1 && lo < hi
    ensures lo <= v <= hi ==> 0 <= RawAxisCell(n, lo, hi, v) <= n
    ensures v < lo || hi < v ==> RawAxisCell(n, lo, hi, v) < 0 || n <= RawAxisCell(n, lo, hi, v)
  {
    var w := GridSpacing(n, lo, hi);
    var a := (v - lo) / w;
    assert a * w == v - lo;
    assert (n as real) * w == hi - lo;
    if lo <= v <= hi {
      if a < 0.0 {
        MulLt(a, 0.0, w);
      }
      if a > n as real {
        MulLt(n as real, a, w);
      }
      assert 0.0 <= a <= n as real;
      assert 0 <= a.Floor <= n;
    } else if v < lo {
      if 0.0 <= a {
        MulLe(0.0, a, w);
      }
      assert a.Floor < 0;
    } else {
      if a <= n as real {
        MulLe(a, n as real, w);
      }
      assert n <= a.Floor;
    }
  }

  /** Bucket indices of two coordinates at most t bucket widths apart differ
      by at most ceil(t). */
  lemma FloorSpread(a: real, b: real, t: real)
    requires b - t <= a <= b + t
    ensures b.Floor - Ceil(t) <= a.Floor <= b.Floor + Ceil(t)
  {
  }

  lemma ScaledGap(w: real, x: real, y: real, d: real)
    requires 0.0 < w && -d <= x - y <= d
    ensures (y / w) - (d / w) <= x / w <= (y / w) + (d / w)
  {
    var p, q, r := x / w, y / w, d / w;
    assert p * w == x && q * w == y && r * w == d;
    assert (p - q) * w == x - y;
    assert q - r <= p;
    assert p <= q + r;
  }

  /** Conservative expansion: a coordinate v within dmax of the query
      coordinate c falls in a bucket inside the scanned range, even when c lies
      outside the grid and its own bucket index was clamped. */
  lemma AxisCovered(n: int, lo: real, hi: real, c: real, v: real, dmax: real)
    requires n >= 1 && lo < hi && 0.0 <= dmax
    requires -dmax <= v - c <= dmax
    ensures ScanFrom(n, lo, hi, c, dmax) <= AxisCell(n, lo, hi, v) <= ScanTo(n, lo, hi, c, dmax)
  {
    var w := GridSpacing(n, lo, hi);
    ScaledGap(w, v - lo, c - lo, dmax);
    var a, b, t := (v - lo) / w, (c - lo) / w, dmax / w;
    assert t * w == dmax;
    assert 0.0 <= t;
    FloorSpread(a, b, t);
    var e := Ceil(t);
    assert e == Reach(n, lo, hi, dmax) && 0 <= e;
    var fa, fb := a.Floor, b.Floor;
    assert fa == RawAxisCell(n, lo, hi, v) && fb == RawAxisCell(n, lo, hi, c);
    LimitIndexMonotone(n, fb - e, fa);
    LimitIndexMonotone(n, fa, fb + e);
  }
}
