/**
 * The demonstration program: an L-shaped source polyline of length 2 morphed
 * onto a vertical target segment of length 1.  Its expected output is the
 * length 2 and the three correspondences (0,0)->(0,5), (1,0)->(0,5.5) and
 * (1,1)->(0,6); here that output is proved for every valid kernel.
 */
module Demo {
  import opened Geometry
  import opened ArcLength
  import opened SortedSet
  import opened Morphing

  const SourcePoints: seq<Point> := [Point(0.0, 0.0), Point(1.0, 0.0), Point(1.0, 1.0)]
  const TargetPoints: seq<Point> := [Point(0.0, 5.0), Point(0.0, 6.0)]

  /** The segments of the source are unit segments, and so is the target. */
  lemma UnitSegments(k: Kernel)
    requires k.Valid()
    ensures k.dist(SourcePoints[0], SourcePoints[1]) == 1.0
    ensures k.dist(SourcePoints[1], SourcePoints[2]) == 1.0
    ensures k.dist(TargetPoints[0], TargetPoints[1]) == 1.0
  {
    DistanceFromSquare(k, SourcePoints[0], SourcePoints[1], 1.0);
    DistanceFromSquare(k, SourcePoints[1], SourcePoints[2], 1.0);
    DistanceFromSquare(k, TargetPoints[0], TargetPoints[1], 1.0);
  }

  /** Both polylines have a positive length, as the morph requires. */
  lemma PathLengths(k: Kernel)
    requires k.Valid()
    ensures PathLength(k, SourcePoints) == 2.0
    ensures PathLength(k, TargetPoints) == 1.0
  {
    UnitSegments(k);
    var s := SourcePoints;
    assert s[..2] == [s[0], s[1]] && s[..2][..1] == [s[0]];
    assert PathLength(k, [s[0]]) == 0.0;
    assert PathLength(k, s[..2]) == 1.0;
    assert PathLength(k, TargetPoints[..1]) == 0.0;
  }

  lemma SourceAbscisses(lil: LengthIndexedPolyline)
    requires lil.Valid() && lil.points == SourcePoints
    ensures lil.abscisses == [0.0, 1.0, 2.0]
    ensures lil.Length() == 2.0
  {
    UnitSegments(lil.kernel);
    assert lil.Accumulates(1) && lil.Accumulates(2);
  }

  lemma TargetAbscisses(lil: LengthIndexedPolyline)
    requires lil.Valid() && lil.points == TargetPoints
    ensures lil.abscisses == [0.0, 1.0]
    ensures lil.Length() == 1.0
  {
    UnitSegments(lil.kernel);
    assert lil.Accumulates(1);
  }

  /** The merged breakpoints are {0, 1/2, 1}: the source contributes 1/2, both contribute 0 and 1. */
  lemma Breakpoints(m: PolylineMorphing)
    requires m.Valid()
    requires m.source.points == SourcePoints && m.target.points == TargetPoints
    ensures m.normalizedAbscisses == [0.0, 0.5, 1.0]
  {
    SourceAbscisses(m.source);
    TargetAbscisses(m.target);
    var expected := [0.0, 0.5, 1.0];
    assert Normalized(m.source) == {0.0, 0.5, 1.0} by {
      assert 0.0 / 2.0 == 0.0 && 1.0 / 2.0 == 0.5 && 2.0 / 2.0 == 1.0;
      assert m.source.abscisses[0] in m.source.abscisses;
      assert m.source.abscisses[1] in m.source.abscisses;
      assert m.source.abscisses[2] in m.source.abscisses;
    }
    assert Normalized(m.target) == {0.0, 1.0} by {
      assert m.target.abscisses[0] in m.target.abscisses;
      assert m.target.abscisses[1] in m.target.abscisses;
    }
    assert Elements(expected) == {0.0, 0.5, 1.0} by {
      assert expected[0] in expected && expected[1] in expected && expected[2] in expected;
    }
    SameElementsSameSequence(m.normalizedAbscisses, expected);
  }

  /** Half-way along, the source is at its corner vertex. */
  lemma SourceMidpoint(lil: LengthIndexedPolyline)
    requires lil.Valid() && lil.points == SourcePoints
    ensures lil.Length() > 0.0 && lil.abscisses[1] > 0.0
    ensures Sample(lil, 0.5) == Point(1.0, 0.0)
  {
    SourceAbscisses(lil);
    SampleAt(lil, 0.5, 1.0);
    lil.InterpolateAtVertex(1);
  }

  /** Half-way along, the target is half-way up its only segment. */
  lemma TargetMidpoint(lil: LengthIndexedPolyline)
    requires lil.Valid() && lil.points == TargetPoints
    ensures lil.Length() > 0.0 && lil.abscisses[1] > 0.0
    ensures Sample(lil, 0.5) == Point(0.0, 5.5)
  {
    TargetAbscisses(lil);
    HalfwayUp(lil.points[0], lil.points[1]);
    MidpointOfUnitSegment(lil, Point(0.0, 5.5));
  }

  lemma HalfwayUp(p: Point, q: Point)
    requires p == Point(0.0, 5.0) && q == Point(0.0, 6.0)
    ensures Lerp(p, q, 0.5) == Point(0.0, 5.5)
  {
  }

  /** On a polyline of length 1 made of one segment, half-way along is half-way along that segment. */
  lemma MidpointOfUnitSegment(lil: LengthIndexedPolyline, p: Point)
    requires lil.Valid() && |lil.points| > 1
    requires lil.abscisses[1] == 1.0 && lil.Length() == 1.0
    requires Lerp(lil.points[0], lil.points[1], 0.5) == p
    ensures lil.Length() > 0.0 && lil.abscisses[1] > 0.0
    ensures Sample(lil, 0.5) == p
  {
    HalfwayOnFirstSegment(lil);
    SampleIs(lil, 0.5, 0.5, p);
  }

  /** On a polyline whose first segment has length 1, arc length 1/2 is half-way along that segment. */
  lemma HalfwayOnFirstSegment(lil: LengthIndexedPolyline)
    requires lil.Valid() && |lil.points| > 1
    requires lil.abscisses[1] == 1.0
    ensures lil.Interpolable(0.5)
    ensures lil.Interpolate(0.5) == Lerp(lil.points[0], lil.points[1], 0.5)
  {
    lil.SegmentOfFirst(0.5);
    lil.SegmentLength(0);
    lil.InterpolateIsLerp(0.5, 0, 0.5);
  }

  /** The three correspondences of the demonstration. */
  lemma Correspondences(m: PolylineMorphing)
    requires m.Valid()
    requires m.source.points == SourcePoints && m.target.points == TargetPoints
    ensures m.source.abscisses[1] > 0.0 && m.target.abscisses[1] > 0.0
    ensures m.Correspondence(0.0) == Segment(Point(0.0, 0.0), Point(0.0, 5.0))
    ensures m.Correspondence(0.5) == Segment(Point(1.0, 0.0), Point(0.0, 5.5))
    ensures m.Correspondence(1.0) == Segment(Point(1.0, 1.0), Point(0.0, 6.0))
  {
    SourceMidpoint(m.source);
    TargetMidpoint(m.target);
    m.CorrespondenceEnds();
  }

  /** With breakpoints {0, 1/2, 1}, the transform segments are the correspondences at those three breakpoints. */
  lemma ThreeSegments(m: PolylineMorphing, segments: seq<Segment>, first: Segment, middle: Segment, last: Segment)
    requires m.Valid() && m.normalizedAbscisses == [0.0, 0.5, 1.0]
    requires m.source.abscisses[1] > 0.0 && m.target.abscisses[1] > 0.0
    requires |segments| == |m.normalizedAbscisses|
    requires forall i :: 0 <= i < |segments| ==>
      0.0 <= m.normalizedAbscisses[i] <= 1.0 && segments[i] == m.Correspondence(m.normalizedAbscisses[i])
    requires m.Correspondence(0.0) == first && m.Correspondence(0.5) == middle && m.Correspondence(1.0) == last
    ensures segments == [first, middle, last]
  {
    assert segments[0] == m.Correspondence(m.normalizedAbscisses[0]);
    assert segments[1] == m.Correspondence(m.normalizedAbscisses[1]);
    assert segments[2] == m.Correspondence(m.normalizedAbscisses[2]);
  }

  /**
   * The demonstration program: the length of the source polyline, then the
   * correspondences of the morph from source to target.
   */
  method Scenario(k: Kernel) returns (length: real, segments: seq<Segment>)
    requires k.Valid()
    ensures length == 2.0
    ensures segments == [
      Segment(Point(0.0, 0.0), Point(0.0, 5.0)),
      Segment(Point(1.0, 0.0), Point(0.0, 5.5)),
      Segment(Point(1.0, 1.0), Point(0.0, 6.0))]
  {
    PathLengths(k);
    var lil := new LengthIndexedPolyline(k, SourcePoints);
    length := lil.Length();
    var morphing := new PolylineMorphing(k, SourcePoints, TargetPoints);
    Breakpoints(morphing);
    Correspondences(morphing);
    segments := morphing.BuildTransformSegments();
    ThreeSegments(morphing, segments,
      Segment(Point(0.0, 0.0), Point(0.0, 5.0)),
      Segment(Point(1.0, 0.0), Point(0.0, 5.5)),
      Segment(Point(1.0, 1.0), Point(0.0, 6.0)));
  }

  /**
   * find_segment on the source at arc length 2: the spanning segment is 1, and
   * the code as written returns 2, the index of the last vertex, so that
   * `_segment(2)` would read a fourth vertex of three.
   */
  lemma TruncatedIndexOverruns(lil: LengthIndexedPolyline)
    requires lil.Valid() && lil.points == SourcePoints
    ensures lil.SegmentOf(2.0) == 1
    ensures (2.0).Floor == 2 && (2.0).Floor + 1 == |lil.points|
  {
    SourceAbscisses(lil);
    assert !lil.Covers(0, 2.0) && lil.Covers(1, 2.0);
  }

  /** Both versions of find_segment on the source at arc length 2. */
  method FindSegmentAtEnd(k: Kernel) returns (asWritten: int, intended: int)
    requires k.Valid()
    ensures asWritten == 2 && intended == 1
  {
    var lil := new LengthIndexedPolyline(k, SourcePoints);
    TruncatedIndexOverruns(lil);
    asWritten := lil.FindSegmentAsWritten(2.0);
    intended := lil.FindSegment(2.0);
  }
}
