/** The bucket-grid spatial index (ProximitySearch) and its variant that
    decorates every point with a value of an arbitrary type
    (DecoratedProximitySearch). Points are appended in place; a range query
    scans only the buckets a conservative box around the query point covers,
    and returns exactly the stored points whose distance lies in [dmin, dmax]. */
module Proximity {
  import opened Grid
  import opened MstUtils

  function Elems(s: seq<nat>): set<nat>
  {
    set x | x in s
  }

  /** A duplicate-free sequence has as many elements as its set of elements. */
  lemma {:induction false} DistinctCard(s: seq<nat>)
    requires Distinct(s)
    ensures |Elems(s)| == |s|
  {
    if s != [] {
      DistinctCard(s[1..]);
      assert Elems(s) == Elems(s[1..]) + {s[0]};
      assert s[0] !in Elems(s[1..]);
    }
  }

  predicate InBox(b: Cell, lo: Cell, hi: Cell)
  {
    lo.i <= b.i <= hi.i && lo.j <= b.j <= hi.j && lo.k <= b.k <= hi.k
  }

  /** Cell b comes before cell pos in the scan order (i, then j, then k). */
  predicate Before(b: Cell, pos: Cell)
  {
    b.i < pos.i || (b.i == pos.i && (b.j < pos.j || (b.j == pos.j && b.k < pos.k)))
  }

  class ProximitySearch {
    // the grid has N buckets along each axis
    const N: int
    // the box [xlo, xhi] x [ylo, yhi] x [zlo, zhi] the grid divides
    const xlo: real
    const ylo: real
    const zlo: real
    const xhi: real
    const yhi: real
    const zhi: real

    /* Each bucket holds indices into pointList and pointTags, the two
       parallel vectors of points and their tags. */
    var buckets: seq<seq<seq<seq<nat>>>>
    var pointList: seq<Point>
    var pointTags: seq<int>

    predicate GoodExtent()
    {
      N >= 1 && xlo < xhi && ylo < yhi && zlo < zhi
    }

    predicate InGrid(b: Cell)
    {
      0 <= b.i < N && 0 <= b.j < N && 0 <= b.k < N
    }

    /** bs has the N x N x N layout of the bucket grid. */
    ghost predicate ShapedOn(bs: seq<seq<seq<seq<nat>>>>)
    {
      && |bs| == N
      && (forall i :: 0 <= i < N ==> |bs[i]| == N)
      && (forall i, j :: 0 <= i < N && 0 <= j < N ==> |bs[i][j]| == N)
    }

    function CellOf(bs: seq<seq<seq<seq<nat>>>>, b: Cell): seq<nat>
      requires ShapedOn(bs) && InGrid(b)
    {
      bs[b.i][b.j][b.k]
    }

    /** pointBucket: the bucket of p, clamped into the grid per axis. */
    function PointBucket(p: Point): (b: Cell)
      requires GoodExtent()
      ensures InGrid(b)
    {
      Cell(AxisCell(N, xlo, xhi, p.x), AxisCell(N, ylo, yhi, p.y), AxisCell(N, zlo, zhi, p.z))
    }

    /** A bucket lists distinct indices of stored points that belong to it. */
    ghost predicate BucketOkOn(bs: seq<seq<seq<seq<nat>>>>, pts: seq<Point>, b: Cell)
      requires GoodExtent() && ShapedOn(bs) && InGrid(b)
    {
      var s := CellOf(bs, b);
      Distinct(s) && forall t :: 0 <= t < |s| ==> s[t] < |pts| && PointBucket(pts[s[t]]) == b
    }

    /** Every stored point index sits in exactly one bucket, the one of its point. */
    ghost predicate FiledOn(bs: seq<seq<seq<seq<nat>>>>, pts: seq<Point>)
    {
      && GoodExtent()
      && ShapedOn(bs)
      && (forall b :: InGrid(b) ==> BucketOkOn(bs, pts, b))
      && (forall x :: 0 <= x < |pts| ==> x in CellOf(bs, PointBucket(pts[x])))
    }

    /** The grid with index idx appended to bucket b. */
    function FileInto(bs: seq<seq<seq<seq<nat>>>>, b: Cell, idx: nat): (r: seq<seq<seq<seq<nat>>>>)
      requires ShapedOn(bs) && InGrid(b)
      ensures ShapedOn(r)
      ensures forall b' :: InGrid(b') ==> CellOf(r, b') == CellOf(bs, b') + (if b' == b then [idx] else [])
    {
      bs[b.i := bs[b.i][b.j := bs[b.i][b.j][b.k := bs[b.i][b.j][b.k] + [idx]]]]
    }

    /** Filing a new point's index in its bucket keeps every index filed
        exactly once. */
    lemma FileIntoKeepsFiled(bs: seq<seq<seq<seq<nat>>>>, pts: seq<Point>, p: Point)
      requires FiledOn(bs, pts)
      ensures FiledOn(FileInto(bs, PointBucket(p), |pts|), pts + [p])
    {
      var b, idx := PointBucket(p), |pts|;
      var r, pts' := FileInto(bs, b, idx), pts + [p];
      forall b' | InGrid(b')
        ensures BucketOkOn(r, pts', b')
      {
        var s := CellOf(bs, b');
        assert BucketOkOn(bs, pts, b');
        assert forall t :: 0 <= t < |s| ==> pts'[s[t]] == pts[s[t]];
      }
      forall x | 0 <= x < |pts'|
        ensures x in CellOf(r, PointBucket(pts'[x]))
      {
        if x < idx {
          assert pts'[x] == pts[x];
          assert x in CellOf(bs, PointBucket(pts[x]));
        }
      }
    }

    ghost predicate Shaped()
      reads this
    {
      ShapedOn(buckets)
    }

    function Bucket(b: Cell): seq<nat>
      reads this
      requires Shaped() && InGrid(b)
    {
      CellOf(buckets, b)
    }

    ghost predicate BucketOk(b: Cell)
      reads this
      requires GoodExtent() && Shaped() && InGrid(b)
    {
      BucketOkOn(buckets, pointList, b)
    }

    /** The bucket invariant: the parallel vectors agree in length and every
        stored point index sits in exactly one bucket, the one of its point. */
    ghost predicate Valid()
      reads this
    {
      && |pointTags| == |pointList|
      && FiledOn(buckets, pointList)
    }

    /** The grid over the box [x0, x1] x [y0, y1] x [z0, z1] with no points. */
    constructor (x0: real, y0: real, z0: real, x1: real, y1: real, z1: real, n: int)
      requires n >= 1 && x0 < x1 && y0 < y1 && z0 < z1
      ensures Valid()
      ensures N == n && xlo == x0 && ylo == y0 && zlo == z0 && xhi == x1 && yhi == y1 && zhi == z1
      ensures pointList == [] && pointTags == []
      ensures forall b :: InGrid(b) ==> Bucket(b) == []
    {
      N := n;
      xlo, ylo, zlo, xhi, yhi, zhi := x0, y0, z0, x1, y1, z1;
      buckets := seq(n, _ => seq(n, _ => seq(n, _ => [])));
      pointList, pointTags := [], [];
    }

    /** pointSize: the number of stored points, which have one tag each. */
    function PointSize(): (r: nat)
      reads this
      ensures Valid() ==> r == |pointTags|
    {
      |pointList|
    }

    /** getPoint: the i-th stored point, which is filed in its own bucket. */
    function GetPoint(i: int): (r: Point)
      reads this
      requires 0 <= i < |pointList|
      ensures Valid() ==> i in CellOf(buckets, PointBucket(r))
    {
      pointList[i]
    }

    function GetPointTag(i: int): int
      reads this
      requires 0 <= i < |pointTags|
    {
      pointTags[i]
    }

    function GridSpacingX(): (r: real)
      requires N >= 1
      ensures r * (N as real) == xhi - xlo
      ensures xlo < xhi ==> 0.0 < r
    {
      GridSpacing(N, xlo, xhi)
    }

    function GridSpacingY(): (r: real)
      requires N >= 1
      ensures r * (N as real) == yhi - ylo
      ensures ylo < yhi ==> 0.0 < r
    {
      GridSpacing(N, ylo, yhi)
    }

    function GridSpacingZ(): (r: real)
      requires N >= 1
      ensures r * (N as real) == zhi - zlo
      ensures zlo < zhi ==> 0.0 < r
    {
      GridSpacing(N, zlo, zhi)
    }

    /** The bucket of p before clamping. */
    function RawCell(p: Point): Cell
      requires GoodExtent()
    {
      Cell(RawAxisCell(N, xlo, xhi, p.x), RawAxisCell(N, ylo, yhi, p.y), RawAxisCell(N, zlo, zhi, p.z))
    }

    /** isPointWithinGrid: p lies in the closed box of the extent. Inside it
        the unclamped bucket is at most one past the grid (on an upper face);
        outside it, the unclamped bucket is not a bucket of the grid, so
        pointBucket clamps. */
    function IsPointWithinGrid(p: Point): (r: bool)
      ensures GoodExtent() && r ==> InBox(RawCell(p), Cell(0, 0, 0), Cell(N, N, N))
      ensures GoodExtent() && !r ==> !InGrid(RawCell(p))
    {
      var inside := xlo <= p.x <= xhi && ylo <= p.y <= yhi && zlo <= p.z <= zhi;
      if GoodExtent() then
        AxisRawRange(N, xlo, xhi, p.x);
        AxisRawRange(N, ylo, yhi, p.y);
        AxisRawRange(N, zlo, zhi, p.z);
        inside
      else
        inside
    }

    /** Strictly inside the extent, a point's bucket is the floor cell of its
        coordinates and clamping changes nothing. */
    lemma InteriorBucket(p: Point)
      requires GoodExtent() && IsPointWithinGrid(p)
      requires p.x < xhi && p.y < yhi && p.z < zhi
      ensures PointBucket(p) == Cell(RawAxisCell(N, xlo, xhi, p.x), RawAxisCell(N, ylo, yhi, p.y), RawAxisCell(N, zlo, zhi, p.z))
    {
      AxisCellInside(N, xlo, xhi, p.x);
      AxisCellInside(N, ylo, yhi, p.y);
      AxisCellInside(N, zlo, zhi, p.z);
    }

    /** addPoint: append p and its tag, and file the new index in p's bucket. */
    method AddPoint(p: Point, tag: int)
      requires Valid()
      modifies this
      ensures Valid()
      ensures pointList == old(pointList) + [p] && pointTags == old(pointTags) + [tag]
      ensures forall b :: InGrid(b) ==>
        Bucket(b) == old(Bucket(b)) + (if b == PointBucket(p) then [|old(pointList)|] else [])
    {
      FileIntoKeepsFiled(buckets, pointList, p);
      buckets := FileInto(buckets, PointBucket(p), |pointList|);
      pointList := pointList + [p];
      pointTags := pointTags + [tag];
    }

    /** The indices of the stored points within [dmin, dmax] of c. */
    ghost function MatchSet(c: Point, dmin: real, dmax: real): set<nat>
      reads this
    {
      set x: nat | x < |pointList| && Within(c, pointList[x], dmin, dmax)
    }

    /** Lowest and highest corner of the cells a query around c scans. */
    function ScanLow(c: Point, dmax: real): Cell
      requires GoodExtent()
    {
      Cell(ScanFrom(N, xlo, xhi, c.x, dmax), ScanFrom(N, ylo, yhi, c.y, dmax), ScanFrom(N, zlo, zhi, c.z, dmax))
    }

    function ScanHigh(c: Point, dmax: real): Cell
      requires GoodExtent()
    {
      Cell(ScanTo(N, xlo, xhi, c.x, dmax), ScanTo(N, ylo, yhi, c.y, dmax), ScanTo(N, zlo, zhi, c.z, dmax))
    }

    /** The scanned box is conservative: every point within the distance
        bound lies in a bucket of the box, wherever the query point is. */
    lemma QueryBoxCovers(c: Point, dmin: real, dmax: real, p: Point)
      requires GoodExtent() && Within(c, p, dmin, dmax)
      ensures InBox(PointBucket(p), ScanLow(c, dmax), ScanHigh(c, dmax))
    {
      AxisGap(c.x - p.x, dmax);
      AxisGap(c.y - p.y, dmax);
      AxisGap(c.z - p.z, dmax);
      AxisCovered(N, xlo, xhi, c.x, p.x, dmax);
      AxisCovered(N, ylo, yhi, c.y, p.y, dmax);
      AxisCovered(N, zlo, zhi, c.z, p.z, dmax);
    }

    /** hits holds exactly the in-range points of the box cells before pos. */
    ghost predicate Collected(hits: seq<nat>, c: Point, dmin: real, dmax: real, lo: Cell, hi: Cell, pos: Cell)
      reads this
      requires GoodExtent()
    {
      forall x: nat :: x in hits <==>
        (x < |pointList| && Within(c, pointList[x], dmin, dmax)
         && InBox(PointBucket(pointList[x]), lo, hi) && Before(PointBucket(pointList[x]), pos))
    }

    /** list is base followed by the report (tag or index) of every hit. */
    ghost predicate Reported(base: seq<int>, list: seq<int>, hits: seq<nat>, byTag: bool)
      reads this
    {
      && |list| == |base| + |hits|
      && list[..|base|] == base
      && forall s :: 0 <= s < |hits| ==>
           hits[s] < |pointTags| && list[|base| + s] == (if byTag then pointTags[hits[s]] else hits[s])
    }

    lemma Advance(hits: seq<nat>, c: Point, dmin: real, dmax: real, lo: Cell, hi: Cell, p: Cell, q: Cell)
      requires GoodExtent() && Collected(hits, c, dmin, dmax, lo, hi, p)
      requires forall b :: InBox(b, lo, hi) ==> (Before(b, p) <==> Before(b, q))
      ensures Collected(hits, c, dmin, dmax, lo, hi, q)
    {
    }

    /** Scan one bucket of the box, reporting its points within range. */
    method ScanBucket(c: Point, dmin: real, dmax: real, byTag: bool, cell: Cell,
                      ghost lo: Cell, ghost hi: Cell, ghost base: seq<int>,
                      found0: bool, list0: seq<int>, ghost hits0: seq<nat>)
      returns (found: bool, list: seq<int>, ghost hits: seq<nat>)
      requires Valid() && InGrid(cell) && InBox(cell, lo, hi)
      requires Collected(hits0, c, dmin, dmax, lo, hi, cell) && Distinct(hits0)
      requires Reported(base, list0, hits0, byTag)
      ensures Collected(hits, c, dmin, dmax, lo, hi, Cell(cell.i, cell.j, cell.k + 1)) && Distinct(hits)
      ensures Reported(base, list, hits, byTag)
      ensures found == (found0 || |hits| > |hits0|) && |hits| >= |hits0|
    {
      var bucket := buckets[cell.i][cell.j][cell.k];
      assert BucketOk(cell);
      found, list, hits := found0, list0, hits0;
      var t := 0;
      while t < |bucket|
        invariant 0 <= t <= |bucket|
        invariant Distinct(hits) && Reported(base, list, hits, byTag)
        invariant forall x: nat :: x in hits <==>
          x in hits0 || (x in bucket[..t] && Within(c, pointList[x], dmin, dmax))
        invariant found == (found0 || |hits| > |hits0|) && |hits| >= |hits0|
      {
        var x := bucket[t];
        assert bucket[..t + 1] == bucket[..t] + [x];
        if Within(c, pointList[x], dmin, dmax) {
          assert x !in hits0 by {
            assert PointBucket(pointList[x]) == cell;
          }
          assert x !in bucket[..t];
          list := list + [if byTag then pointTags[x] else x];
          hits := hits + [x];
          found := true;
        }
        t := t + 1;
      }
      assert bucket[..t] == bucket;
      forall x: nat | x < |pointList| && PointBucket(pointList[x]) == cell
        ensures x in bucket
      {
      }
    }

    /** pointsWithin: append to list the index (or, with byTag, the tag) of
        every stored point whose distance to c lies in [dmin, dmax], each
        once; the result says whether any was found. hits is the sequence of
        reported point indices. */
    method PointsWithin(c: Point, dmin: real, dmax: real, list: seq<int>, byTag: bool)
      returns (found: bool, list': seq<int>, ghost hits: seq<nat>)
      requires Valid()
      ensures Distinct(hits)
      ensures forall x: nat :: x in hits <==> x < |pointList| && Within(c, pointList[x], dmin, dmax)
      ensures Reported(list, list', hits, byTag)
      ensures found <==> hits != []
      ensures list'[..|list|] == list && |list'| == |list| + |MatchSet(c, dmin, dmax)|
      ensures found <==> MatchSet(c, dmin, dmax) != {}
      ensures !byTag ==> forall x: int :: x in list'[|list|..] <==>
        0 <= x < |pointList| && Within(c, pointList[x], dmin, dmax)
    {
      var lo, hi := ScanLow(c, dmax), ScanHigh(c, dmax);
      found, list', hits := false, list, [];
      var i := lo.i;
      while i <= hi.i
        invariant lo.i <= i
        invariant Distinct(hits) && Reported(list, list', hits, byTag)
        invariant Collected(hits, c, dmin, dmax, lo, hi, Cell(i, lo.j, lo.k))
        invariant found <==> hits != []
      {
        var j := lo.j;
        while j <= hi.j
          invariant lo.j <= j
          invariant Distinct(hits) && Reported(list, list', hits, byTag)
          invariant Collected(hits, c, dmin, dmax, lo, hi, Cell(i, j, lo.k))
          invariant found <==> hits != []
        {
          var k := lo.k;
          while k <= hi.k
            invariant lo.k <= k
            invariant Distinct(hits) && Reported(list, list', hits, byTag)
            invariant Collected(hits, c, dmin, dmax, lo, hi, Cell(i, j, k))
            invariant found <==> hits != []
          {
            found, list', hits := ScanBucket(c, dmin, dmax, byTag, Cell(i, j, k), lo, hi, list, found, list', hits);
            k := k + 1;
          }
          Advance(hits, c, dmin, dmax, lo, hi, Cell(i, j, k), Cell(i, j + 1, lo.k));
          j := j + 1;
        }
        Advance(hits, c, dmin, dmax, lo, hi, Cell(i, j, lo.k), Cell(i + 1, lo.j, lo.k));
        i := i + 1;
      }
      forall x: nat | x < |pointList| && Within(c, pointList[x], dmin, dmax)
        ensures x in hits
      {
        QueryBoxCovers(c, dmin, dmax, pointList[x]);
      }
      assert Elems(hits) == MatchSet(c, dmin, dmax);
      DistinctCard(hits);
      if !byTag {
        assert list'[|list|..] == hits;
      }
    }

    /** getPointsWithin: the report of pointsWithin started on an empty list. */
    method GetPointsWithin(c: Point, dmin: real, dmax: real, byTag: bool)
      returns (list: seq<int>, ghost hits: seq<nat>)
      requires Valid()
      ensures Distinct(hits)
      ensures forall x: nat :: x in hits <==> x < |pointList| && Within(c, pointList[x], dmin, dmax)
      ensures Reported([], list, hits, byTag)
      ensures |list| == |MatchSet(c, dmin, dmax)|
      ensures !byTag ==> forall x: int :: x in list <==>
        0 <= x < |pointList| && Within(c, pointList[x], dmin, dmax)
    {
      var found;
      found, list, hits := PointsWithin(c, dmin, dmax, [], byTag);
    }

    /** numPointsWithin: how many stored points lie within [dmin, dmax] of c,
        the number of entries pointsWithin appends. */
    method NumPointsWithin(c: Point, dmin: real, dmax: real) returns (n: int)
      requires Valid()
      ensures n == |MatchSet(c, dmin, dmax)|
    {
      var found, closeOnes, hits := PointsWithin(c, dmin, dmax, [], false);
      n := |closeOnes|;
    }
  }

  /** The loop of getPointsWithin: ret[i] = tags[inds[i]] for every i. */
  method Decorations<T>(tags: seq<T>, inds: seq<int>) returns (ret: seq<T>)
    requires forall s :: 0 <= s < |inds| ==> 0 <= inds[s] < |tags|
    ensures |ret| == |inds| && forall s :: 0 <= s < |inds| ==> ret[s] == tags[inds[s]]
  {
    ret := [];
    var i := 0;
    while i < |inds|
      invariant 0 <= i <= |inds|
      invariant |ret| == i && forall s :: 0 <= s < i ==> ret[s] == tags[inds[s]]
    {
      ret := ret + [tags[inds[i]]];
      i := i + 1;
    }
  }

  /** A proximity search whose base tags index a vector of decorations: the
      base tag of every point is its own index into tags. */
  class DecoratedProximitySearch<T> {
    const base: ProximitySearch
    var tags: seq<T>

    ghost predicate Valid()
      reads this, base
    {
      && base.Valid()
      && |tags| == |base.pointList|
      && forall i :: 0 <= i < |base.pointTags| ==> base.pointTags[i] == i
    }

    constructor (x0: real, y0: real, z0: real, x1: real, y1: real, z1: real, n: int)
      requires n >= 1 && x0 < x1 && y0 < y1 && z0 < z1
      ensures Valid() && fresh(base)
      ensures base.N == n && base.xlo == x0 && base.ylo == y0 && base.zlo == z0
      ensures base.xhi == x1 && base.yhi == y1 && base.zhi == z1
      ensures base.pointList == [] && tags == []
    {
      base := new ProximitySearch(x0, y0, z0, x1, y1, z1, n);
      tags := [];
    }

    /** The base report by tag of a decorated index is the point indices. */
    lemma TagsAreIndices(inds: seq<int>, hits: seq<nat>)
      requires Valid() && base.Reported([], inds, hits, true)
      ensures |inds| == |hits|
      ensures forall s :: 0 <= s < |inds| ==> inds[s] == hits[s] && hits[s] < |tags|
    {
      forall s | 0 <= s < |inds|
        ensures inds[s] == hits[s] && hits[s] < |tags|
      {
        assert inds[0 + s] == base.pointTags[hits[s]];
      }
    }

    /** The decoration of point i. */
    function GetPointTag(i: int): (r: T)
      reads this, base
      requires Valid() && 0 <= i < |base.pointList|
      ensures r == tags[i]
    {
      tags[base.GetPointTag(i)]
    }

    /** addPoint: add p to the base index with base tag tags.size(), then
        append its decoration. */
    method AddPoint(p: Point, tag: T)
      requires Valid()
      modifies this, base
      ensures Valid()
      ensures base.pointList == old(base.pointList) + [p] && tags == old(tags) + [tag]
      ensures base.pointTags == old(base.pointTags) + [|old(tags)|]
      ensures GetPointTag(|base.pointList| - 1) == tag
      ensures forall i :: 0 <= i < |old(base.pointList)| ==> GetPointTag(i) == old(GetPointTag(i))
      ensures forall b :: base.InGrid(b) ==>
        base.Bucket(b) == old(base.Bucket(b)) + (if b == base.PointBucket(p) then [|old(base.pointList)|] else [])
    {
      base.AddPoint(p, |tags|);
      tags := tags + [tag];
    }

    /** getPointsWithin: the decorations of exactly the points within
        [dmin, dmax] of c, one per point; hits lists those points. */
    method GetPointsWithin(c: Point, dmin: real, dmax: real) returns (ret: seq<T>, ghost hits: seq<nat>)
      requires Valid()
      ensures Distinct(hits)
      ensures forall x: nat :: x in hits <==> x < |base.pointList| && Within(c, base.pointList[x], dmin, dmax)
      ensures |ret| == |hits|
      ensures forall s :: 0 <= s < |hits| ==> hits[s] < |base.pointList| && ret[s] == GetPointTag(hits[s])
      ensures |ret| == |base.MatchSet(c, dmin, dmax)|
      ensures forall x :: 0 <= x < |base.pointList| && Within(c, base.pointList[x], dmin, dmax) ==> GetPointTag(x) in ret
    {
      var inds;
      inds, hits := base.GetPointsWithin(c, dmin, dmax, true);
      TagsAreIndices(inds, hits);
      assert inds == hits;
      ret := Decorations(tags, inds);
      forall s | 0 <= s < |hits|
        ensures hits[s] < |base.pointList| && ret[s] == GetPointTag(hits[s])
      {
        assert inds[s] == hits[s] && base.pointTags[hits[s]] == hits[s];
      }
      forall x | 0 <= x < |base.pointList| && Within(c, base.pointList[x], dmin, dmax)
        ensures GetPointTag(x) in ret
      {
        var s :| 0 <= s < |hits| && hits[s] == x;
        assert ret[s] == GetPointTag(x);
      }
    }

    /** getPointsWithinIndices: the indices of exactly the points within
        [dmin, dmax] of c, each once. */
    method GetPointsWithinIndices(c: Point, dmin: real, dmax: real) returns (inds: seq<int>)
      requires Valid()
      ensures forall s :: 0 <= s < |inds| ==> 0 <= inds[s]
      ensures Distinct(inds)
      ensures forall x: nat :: x in inds <==> x < |base.pointList| && Within(c, base.pointList[x], dmin, dmax)
    {
      ghost var hits;
      inds, hits := base.GetPointsWithin(c, dmin, dmax, true);
      TagsAreIndices(inds, hits);
      assert inds == hits;
    }
  }
}
