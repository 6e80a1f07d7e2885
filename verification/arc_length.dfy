/**
 * A polyline indexed by arc length (`Length_indexed_polyline_2`): the
 * vertices, and for each vertex the distance travelled along the polyline
 * from the first vertex (its abscissa).  The object is built once and never
 * changed, so its fields are constants.
 */
module ArcLength {
  import opened Geometry

  /** Sum of the lengths of the consecutive segments of `pts`. */
  function PathLength(k: Kernel, pts: seq<Point>): real
  {
    if |pts| <= 1 then 0.0
    else PathLength(k, pts[..|pts| - 1]) + k.dist(pts[|pts| - 2], pts[|pts| - 1])
  }

  class LengthIndexedPolyline {
    const kernel: Kernel
    const points: seq<Point>
    const abscisses: seq<real>

    /**
     * The object invariant: one abscissa per vertex, the first 0, each next
     * one the previous plus the length of the segment between them.
     */
    ghost predicate Valid() {
      && kernel.Valid()
      && |points| > 0
      && |abscisses| == |points|
      && abscisses[0] == 0.0
      && forall i :: 0 < i < |points| ==> Accumulates(i)
    }

    /**
     * The abscissa of vertex `i` is that of vertex `i - 1` plus the length of
     * the segment between them.  Named so that a proof states which steps of
     * the accumulation it uses.
     */
    ghost predicate Accumulates(i: int)
      requires 0 < i < |points| && |abscisses| == |points|
    {
      abscisses[i] == abscisses[i - 1] + kernel.dist(points[i - 1], points[i])
    }

    /** Stores the vertices and accumulates the abscissas, one per vertex. */
    constructor (k: Kernel, pts: seq<Point>)
      requires k.Valid()
      requires |pts| > 0
      ensures kernel == k && points == pts
      ensures Valid()
    {
      kernel := k;
      points := pts;
      var acc := [0.0];
      var i := 1;
      while i < |pts|
        invariant 1 <= i <= |pts|
        invariant |acc| == i && acc[0] == 0.0
        invariant forall j :: 0 < j < i ==> acc[j] == acc[j - 1] + k.dist(pts[j - 1], pts[j])
      {
        var last := acc[|acc| - 1];
        acc := acc + [last + k.dist(pts[i - 1], pts[i])];
        i := i + 1;
      }
      abscisses := acc;
    }

    /** Abscissas never decrease along the polyline. */
    lemma {:induction false} NonDecreasing(i: int, j: int)
      requires Valid()
      requires 0 <= i <= j < |abscisses|
      ensures abscisses[i] <= abscisses[j]
      decreases j - i
    {
      if i < j {
        NonDecreasing(i, j - 1);
        assert Accumulates(j);
      }
    }

    /** The abscissa of vertex `i` is the length of the polyline up to that vertex. */
    lemma {:induction false} AbscissaIsPathLength(i: int)
      requires Valid()
      requires 0 <= i < |points|
      ensures abscisses[i] == PathLength(kernel, points[..i + 1])
    {
      if i > 0 {
        AbscissaIsPathLength(i - 1);
        assert Accumulates(i);
        assert points[..i + 1][..i] == points[..i];
      }
    }

    /** Total arc length: the last abscissa, which is the sum of all segment lengths. */
    function Length(): (r: real)
      requires Valid()
      ensures r >= 0.0
      ensures r == PathLength(kernel, points)
      ensures r == abscisses[|abscisses| - 1]
    {
      AbscissaIsPathLength(|points| - 1);
      assert points[..|points|] == points;
      NonDecreasing(0, |points| - 1);
      if |abscisses| == 0 then 0.0 else abscisses[|abscisses| - 1]
    }

    /** Segment `j` exists and spans arc length `d`: the test inside the scan of find_segment. */
    predicate Covers(j: int, d: real) {
      0 <= j < |abscisses| - 1 && abscisses[j] <= d <= abscisses[j + 1]
    }

    /** The first segment at or after `from` that spans `d`, or -1 if none does. */
    function FirstCovering(d: real, from: nat): (j: int)
      ensures j == -1 || (from <= j && Covers(j, d))
      ensures j == -1 ==> forall i :: from <= i ==> !Covers(i, d)
      ensures j != -1 ==> forall i :: from <= i < j ==> !Covers(i, d)
      decreases |abscisses| - from
    {
      if from + 1 >= |abscisses| then -1
      else if Covers(from, d) then from
      else FirstCovering(d, from + 1)
    }

    /**
     * The segment index find_segment is documented to return: -1 if `d` is
     * negative or no segment spans it, otherwise the first segment that does.
     */
    function SegmentOf(d: real): (j: int)
      requires Valid()
      ensures -1 <= j < |points| - 1
      ensures j == -1 <==> d < 0.0 || forall i :: !Covers(i, d)
      ensures j != -1 ==> Covers(j, d) && forall i :: 0 <= i < j ==> !Covers(i, d)
    {
      if d < 0.0 then
        -1
      else
        FirstCovering(d, 0)
    }

    /** If `d` lies between the first abscissa and that of vertex `m`, one of the first `m` segments spans it. */
    lemma {:induction false} CoveredBefore(d: real, m: int)
      requires Valid()
      requires 1 <= m < |points|
      requires abscisses[0] <= d <= abscisses[m]
      ensures exists i :: 0 <= i < m && Covers(i, d)
    {
      if d < abscisses[m - 1] {
        CoveredBefore(d, m - 1);
      } else {
        assert Covers(m - 1, d);
      }
    }

    /** Some segment spans `d` exactly when `d` lies in [0, Length()] and there is a segment at all. */
    lemma SegmentOfFound(d: real)
      requires Valid()
      ensures SegmentOf(d) != -1 <==> 0.0 <= d <= Length() && |points| > 1
    {
      var n := |points|;
      var j := SegmentOf(d);
      if j != -1 {
        NonDecreasing(0, j);
        NonDecreasing(j + 1, n - 1);
      }
      if 0.0 <= d <= Length() && n > 1 {
        CoveredBefore(d, n - 1);
      }
    }

    /** Arc lengths up to the end of the first segment are spanned by the first segment. */
    lemma SegmentOfFirst(d: real)
      requires Valid()
      requires |points| > 1 && 0.0 <= d <= abscisses[1]
      ensures SegmentOf(d) == 0
    {
      assert Covers(0, d);
    }

    /** Over the range where it succeeds, the segment found never moves backwards as `d` grows. */
    lemma SegmentOfMonotone(d1: real, d2: real)
      requires Valid()
      requires 0.0 <= d1 <= d2
      requires SegmentOf(d2) != -1
      ensures SegmentOf(d1) != -1
      ensures SegmentOf(d1) <= SegmentOf(d2)
    {
      var j2 := SegmentOf(d2);
      CoveredBefore(d1, j2 + 1);
    }

    /**
     * find_segment as its documentation describes it: a linear scan for the
     * first segment whose abscissas enclose `d`, returning its index, or -1.
     */
    method FindSegment(d: real) returns (index: int)
      requires Valid()
      ensures index == SegmentOf(d)
      ensures index == -1 <==> d < 0.0 || d > Length() || |points| == 1
      ensures index != -1 ==> 0 <= index < |points| - 1 && abscisses[index] <= d <= abscisses[index + 1]
    {
      SegmentOfFound(d);
      if d < 0.0 {
        return -1;
      }
      var i := 1;
      while i < |abscisses|
        invariant 1 <= i <= |abscisses|
        invariant FirstCovering(d, i - 1) == FirstCovering(d, 0)
      {
        if d >= abscisses[i - 1] && d <= abscisses[i] {
          return i - 1;
        }
        i := i + 1;
      }
      return -1;
    }

    /**
     * find_segment as the code is written: the same scan, but on success it
     * returns the arc length truncated to an integer instead of the index.
     */
    method FindSegmentAsWritten(d: real) returns (index: int)
      requires Valid()
      ensures SegmentOf(d) == -1 ==> index == -1
      ensures SegmentOf(d) != -1 ==> index == d.Floor
    {
      if d < 0.0 {
        return -1;
      }
      var i := 1;
      while i < |abscisses|
        invariant 1 <= i <= |abscisses|
        invariant FirstCovering(d, i - 1) == FirstCovering(d, 0)
      {
        if d >= abscisses[i - 1] && d <= abscisses[i] {
          // d is not negative here, so truncation toward zero is Floor
          return d.Floor;
        }
        i := i + 1;
      }
      return -1;
    }

    /** `_segment`: the segment from vertex `index` to the next one, whose length is the abscissa gap. */
    function SegmentAt(index: int): (s: Segment)
      requires Valid()
      requires 0 <= index && index + 1 < |points|
      ensures kernel.dist(s.source, s.target) == abscisses[index + 1] - abscisses[index]
    {
      SegmentLength(index);
      Segment(points[index], points[index + 1])
    }

    /** The length of segment `j` is the gap between the abscissas of its ends. */
    lemma SegmentLength(j: int)
      requires Valid()
      requires 0 <= j && j + 1 < |points|
      ensures kernel.dist(points[j], points[j + 1]) == abscisses[j + 1] - abscisses[j]
    {
      assert Accumulates(j + 1);
    }

    /**
     * `interpolate` is defined at `d` when a segment spans it (otherwise
     * `_segment(-1)` reads outside the vertices) and that segment has a
     * positive length (otherwise the fraction divides by zero).
     */
    predicate Interpolable(d: real)
      requires Valid()
    {
      var j := SegmentOf(d);
      j != -1 && kernel.dist(points[j], points[j + 1]) > 0.0
    }

    /**
     * `p` is at arc length `d`: a segment spans `d`, and `p` lies at distance
     * `d - abscissa` from the start of the first such segment and
     * `abscissa' - d` from its end.
     */
    ghost predicate Locates(d: real, p: Point)
      requires Valid()
    {
      var j := SegmentOf(d);
      && 0 <= j < |points| - 1
      && kernel.dist(points[j], p) == d - abscisses[j]
      && kernel.dist(p, points[j + 1]) == abscisses[j + 1] - d
    }

    /**
     * The point at arc length `d`: along the segment spanning `d`, at the
     * fraction of it that `d` has covered.  It is located at arc length `d`,
     * so the polyline is parameterised by arc length.
     */
    function Interpolate(d: real): (r: Point)
      requires Valid()
      requires Interpolable(d)
      ensures Locates(d, r)
    {
      var index := SegmentOf(d);
      var segment := SegmentAt(index);
      var l := kernel.dist(segment.source, segment.target);
      var k := (d - abscisses[index]) / l;
      FractionBounds(d - abscisses[index], l);
      LerpDistances(kernel, segment.source, segment.target, k);
      Lerp(segment.source, segment.target, k)
    }

    /**
     * Where `interpolate` can fail: only outside [0, Length()], on a single
     * vertex, or at 0 when the first segment has no length.  Every other
     * segment spanning `d` first has a positive length.
     */
    lemma InterpolableIff(d: real)
      requires Valid()
      ensures Interpolable(d) <==>
        0.0 <= d <= Length() && |points| > 1 && (d == 0.0 ==> abscisses[1] > 0.0)
    {
      SegmentOfFound(d);
      var j := SegmentOf(d);
      if j != -1 {
        SegmentLength(j);
        NonDecreasing(0, 1);
        assert Covers(0, 0.0);
        if j > 0 {
          NonDecreasing(j - 1, j);
          assert !Covers(j - 1, d);
        }
      }
    }

    /** Every arc length in [0, Length()] can be interpolated when the first segment has a length. */
    lemma InterpolableWithin(d: real)
      requires Valid()
      requires |points| > 1 && abscisses[1] > 0.0
      requires 0.0 <= d <= Length()
      ensures Interpolable(d)
    {
      InterpolableIff(d);
    }

    /**
     * Within the spanning segment, interpolation is linear: arc length `d` is
     * reached at the fraction `t` of the segment that `d` has covered.
     */
    lemma InterpolateIsLerp(d: real, j: int, t: real)
      requires Valid()
      requires Interpolable(d) && j == SegmentOf(d)
      requires t * (abscisses[j + 1] - abscisses[j]) == d - abscisses[j]
      ensures Interpolate(d) == Lerp(points[j], points[j + 1], t)
    {
      var l := kernel.dist(points[j], points[j + 1]);
      SegmentLength(j);
      QuotientUnique(d - abscisses[j], l, t);
    }

    /** Consecutive vertices with the same abscissa are the same point. */
    lemma {:induction false} ZeroStretch(m: int, n: int)
      requires Valid()
      requires 0 <= m <= n < |points|
      requires abscisses[m] == abscisses[n]
      ensures points[m] == points[n]
      decreases n - m
    {
      if m < n {
        NonDecreasing(m, n - 1);
        SegmentLength(n - 1);
        DistanceProperties(kernel, points[n - 1], points[n]);
        ZeroStretch(m, n - 1);
      }
    }

    /** Interpolating at the abscissa of a vertex gives that vertex. */
    lemma InterpolateAtVertex(i: int)
      requires Valid()
      requires 0 <= i < |points|
      requires Interpolable(abscisses[i])
      ensures Interpolate(abscisses[i]) == points[i]
    {
      var d := abscisses[i];
      var j := SegmentOf(d);
      var p, q := points[j], points[j + 1];
      var l := kernel.dist(p, q);
      SegmentLength(j);
      if i == 0 {
        NonDecreasing(0, 1);
        assert Covers(0, d);
        assert j == 0;
        assert (d - abscisses[j]) / l == 0.0;
      } else {
        NonDecreasing(i - 1, i);
        assert Covers(i - 1, d);
        assert j <= i - 1;
        NonDecreasing(j + 1, i);
        assert d == abscisses[j + 1];
        FractionBounds(l, l);
        assert (d - abscisses[j]) / l == 1.0;
        ZeroStretch(j + 1, i);
      }
    }
  }
}
