/**
 * The morph between two polylines (`Polyline_morphing_2`): both are
 * parameterised by normalised arc length, the abscissas of all their vertices,
 * each divided by its polyline's length, are merged into one ordered set of
 * breakpoints, and at every breakpoint the two polylines are sampled to give
 * one correspondence segment (source point, target point).
 */
module Morphing {
  import opened Geometry
  import opened ArcLength
  import opened SortedSet

  /** The values of `s`, each divided by `l`. */
  ghost function Divided(s: seq<real>, l: real): set<real>
    requires l != 0.0
  {
    set a | a in s :: a / l
  }

  lemma DividedAppend(s: seq<real>, x: real, l: real)
    requires l != 0.0
    ensures Divided(s + [x], l) == Divided(s, l) + {x / l}
  {
    forall y | y in Divided(s + [x], l) ensures y in Divided(s, l) + {x / l} {
      var a :| a in s + [x] && y == a / l;
      if a != x {
        assert a in s;
      }
    }
    forall y | y in Divided(s, l) + {x / l} ensures y in Divided(s + [x], l) {
      if y != x / l {
        var a :| a in s && y == a / l;
        assert a in s + [x];
      } else {
        assert x in s + [x];
      }
    }
  }

  /**
   * One step of inserting the values of `a` divided by `l`: once `a[i] / l`
   * is inserted, the first `i + 1` of them are held.
   */
  lemma InsertedPrefix(before: seq<real>, after: seq<real>, initial: set<real>, a: seq<real>, i: nat, l: real)
    requires l != 0.0 && i < |a|
    requires Elements(before) == initial + Divided(a[..i], l)
    requires Elements(after) == Elements(before) + {a[i] / l}
    ensures Elements(after) == initial + Divided(a[..i + 1], l)
  {
    assert a[..i + 1] == a[..i] + [a[i]];
    DividedAppend(a[..i], a[i], l);
  }

  /** The abscissas of `lil`'s vertices divided by its length. */
  ghost function Normalized(lil: LengthIndexedPolyline): set<real>
    requires lil.Valid() && lil.Length() > 0.0
  {
    Divided(lil.abscisses, lil.Length())
  }

  /** Every normalised abscissa lies in [0, 1], and 0 and 1 are among them. */
  lemma NormalizedSpansUnitInterval(lil: LengthIndexedPolyline)
    requires lil.Valid() && lil.Length() > 0.0
    ensures 0.0 in Normalized(lil) && 1.0 in Normalized(lil)
    ensures forall t :: t in Normalized(lil) ==> 0.0 <= t <= 1.0
  {
    var l := lil.Length();
    var n := |lil.abscisses|;
    assert lil.abscisses[0] in lil.abscisses && lil.abscisses[0] / l == 0.0;
    assert lil.abscisses[n - 1] in lil.abscisses;
    FractionBounds(l, l);
    assert lil.abscisses[n - 1] / l == 1.0;
    forall t | t in Normalized(lil) ensures 0.0 <= t <= 1.0 {
      var i :| 0 <= i < n && t == lil.abscisses[i] / l;
      lil.NonDecreasing(0, i);
      lil.NonDecreasing(i, n - 1);
      FractionBounds(lil.abscisses[i], l);
    }
  }

  class PolylineMorphing {
    const source: LengthIndexedPolyline
    const target: LengthIndexedPolyline
    var normalizedAbscisses: seq<real>

    /**
     * The object invariant: two polylines of positive length, and the
     * breakpoints are their normalised abscissas, merged, in ascending order,
     * each once.
     */
    ghost predicate Valid()
      reads this
    {
      && source.Valid() && target.Valid()
      && source.Length() > 0.0 && target.Length() > 0.0
      && StrictlyIncreasing(normalizedAbscisses)
      && Elements(normalizedAbscisses) == Normalized(source) + Normalized(target)
    }

    /** Builds both polylines and inserts the normalised abscissas of each. */
    constructor (k: Kernel, sourcePoints: seq<Point>, targetPoints: seq<Point>)
      requires k.Valid()
      requires |sourcePoints| > 0 && |targetPoints| > 0
      requires PathLength(k, sourcePoints) > 0.0 && PathLength(k, targetPoints) > 0.0
      ensures Valid()
      ensures source.kernel == k && source.points == sourcePoints
      ensures target.kernel == k && target.points == targetPoints
    {
      source := new LengthIndexedPolyline(k, sourcePoints);
      target := new LengthIndexedPolyline(k, targetPoints);
      normalizedAbscisses := [];
      new;
      InsertNormalizedAbscisses(source);
      InsertNormalizedAbscisses(target);
    }

    /** Adds every abscissa of `lil`, divided by `lil`'s length, to the breakpoints. */
    method InsertNormalizedAbscisses(lil: LengthIndexedPolyline)
      requires lil.Valid() && lil.Length() > 0.0
      requires StrictlyIncreasing(normalizedAbscisses)
      modifies this
      ensures StrictlyIncreasing(normalizedAbscisses)
      ensures Elements(normalizedAbscisses) == old(Elements(normalizedAbscisses)) + Normalized(lil)
    {
      var length := lil.Length();
      ghost var initial := Elements(normalizedAbscisses);
      var i := 0;
      while i < |lil.abscisses|
        invariant 0 <= i <= |lil.abscisses|
        invariant StrictlyIncreasing(normalizedAbscisses)
        invariant Elements(normalizedAbscisses) == initial + Divided(lil.abscisses[..i], length)
      {
        ghost var before := normalizedAbscisses;
        normalizedAbscisses := Insert(normalizedAbscisses, lil.abscisses[i] / length);
        InsertedPrefix(before, normalizedAbscisses, initial, lil.abscisses, i, length);
        i := i + 1;
      }
      assert lil.abscisses[..i] == lil.abscisses;
    }

    /** The breakpoints run from 0 to 1, and every one of them lies in between. */
    lemma BreakpointsSpanUnitInterval()
      requires Valid()
      ensures |normalizedAbscisses| >= 2
      ensures normalizedAbscisses[0] == 0.0
      ensures normalizedAbscisses[|normalizedAbscisses| - 1] == 1.0
      ensures forall i :: 0 <= i < |normalizedAbscisses| ==> 0.0 <= normalizedAbscisses[i] <= 1.0
    {
      var s := normalizedAbscisses;
      NormalizedSpansUnitInterval(source);
      NormalizedSpansUnitInterval(target);
      assert 0.0 in Elements(s) && 1.0 in Elements(s);
      var i0 :| 0 <= i0 < |s| && s[i0] == 0.0;
      var i1 :| 0 <= i1 < |s| && s[i1] == 1.0;
      forall i | 0 <= i < |s| ensures 0.0 <= s[i] <= 1.0 {
        assert s[i] in Elements(s);
      }
      assert i0 != i1;
      // the first breakpoint is the least and the last the greatest
      forall i | 0 < i < |s| ensures s[0] < s[i] {
        assert Ordered(s, 0, i);
      }
      forall i | 0 <= i < |s| - 1 ensures s[i] < s[|s| - 1] {
        assert Ordered(s, i, |s| - 1);
      }
    }

    /**
     * The correspondence at breakpoint `t`: the source point at arc length
     * `t * Ls` and the target point at arc length `t * Lt`.  Sampling at 0
     * divides by the length of each polyline's first segment, so both must be
     * proper.
     */
    function Correspondence(t: real): (r: Segment)
      requires source.Valid() && target.Valid()
      requires source.Length() > 0.0 && target.Length() > 0.0
      requires source.abscisses[1] > 0.0 && target.abscisses[1] > 0.0
      requires 0.0 <= t <= 1.0
      ensures source.Locates(t * source.Length(), r.source)
      ensures target.Locates(t * target.Length(), r.target)
    {
      Segment(Sample(source, t), Sample(target, t))
    }

    /** The morph starts at the first vertices and ends at the last ones. */
    lemma CorrespondenceEnds()
      requires Valid()
      requires source.abscisses[1] > 0.0 && target.abscisses[1] > 0.0
      ensures Correspondence(0.0) == Segment(source.points[0], target.points[0])
      ensures Correspondence(1.0) == Segment(source.points[|source.points| - 1], target.points[|target.points| - 1])
    {
      SampleEnds(source);
      SampleEnds(target);
    }

    /**
     * Every vertex of the source is the start of some correspondence: the
     * breakpoints hold its normalised abscissa, returned as `m`.
     */
    lemma CorrespondencesVisitSourceVertices(i: int) returns (m: int)
      requires Valid()
      requires source.abscisses[1] > 0.0 && target.abscisses[1] > 0.0
      requires 0 <= i < |source.points|
      ensures 0 <= m < |normalizedAbscisses| && 0.0 <= normalizedAbscisses[m] <= 1.0
      ensures Correspondence(normalizedAbscisses[m]).source == source.points[i]
    {
      var t := source.abscisses[i] / source.Length();
      SampleAtVertex(source, i);
      assert source.abscisses[i] in source.abscisses;
      assert t in Elements(normalizedAbscisses);
      m :| 0 <= m < |normalizedAbscisses| && normalizedAbscisses[m] == t;
    }

    /**
     * Every vertex of the target is the end of some correspondence: the
     * breakpoints hold its normalised abscissa, returned as `m`.
     */
    lemma CorrespondencesVisitTargetVertices(i: int) returns (m: int)
      requires Valid()
      requires source.abscisses[1] > 0.0 && target.abscisses[1] > 0.0
      requires 0 <= i < |target.points|
      ensures 0 <= m < |normalizedAbscisses| && 0.0 <= normalizedAbscisses[m] <= 1.0
      ensures Correspondence(normalizedAbscisses[m]).target == target.points[i]
    {
      var t := target.abscisses[i] / target.Length();
      SampleAtVertex(target, i);
      assert target.abscisses[i] in target.abscisses;
      assert t in Elements(normalizedAbscisses);
      m :| 0 <= m < |normalizedAbscisses| && normalizedAbscisses[m] == t;
    }

    /** `build_transform_segments`: one correspondence per breakpoint, in ascending order. */
    method BuildTransformSegments() returns (result: seq<Segment>)
      requires Valid()
      requires source.abscisses[1] > 0.0 && target.abscisses[1] > 0.0
      ensures |result| == |normalizedAbscisses|
      ensures forall i :: 0 <= i < |result| ==>
        0.0 <= normalizedAbscisses[i] <= 1.0 && result[i] == Correspondence(normalizedAbscisses[i])
      ensures |result| >= 2
      ensures result[0] == Segment(source.points[0], target.points[0])
      ensures result[|result| - 1] == Segment(source.points[|source.points| - 1], target.points[|target.points| - 1])
    {
      BreakpointsSpanUnitInterval();
      CorrespondenceEnds();
      result := [];
      var i := 0;
      while i < |normalizedAbscisses|
        invariant 0 <= i <= |normalizedAbscisses|
        invariant |result| == i
        invariant forall m :: 0 <= m < i ==> result[m] == Correspondence(normalizedAbscisses[m])
      {
        result := result + [Correspondence(normalizedAbscisses[i])];
        i := i + 1;
      }
    }

    /** `build_transform_segments` is `const`: it changes nothing, so building twice gives the same segments. */
    method BuildTransformSegmentsTwice() returns (first: seq<Segment>, second: seq<Segment>)
      requires Valid()
      requires source.abscisses[1] > 0.0 && target.abscisses[1] > 0.0
      ensures first == second
    {
      first := BuildTransformSegments();
      second := BuildTransformSegments();
      assert forall i :: 0 <= i < |first| ==> first[i] == second[i];
    }
  }

  /** Sampling at the normalised abscissa of a vertex gives that vertex. */
  lemma SampleAtVertex(lil: LengthIndexedPolyline, i: int)
    requires lil.Valid() && lil.Length() > 0.0
    requires |lil.points| > 1 && lil.abscisses[1] > 0.0
    requires 0 <= i < |lil.points|
    ensures 0.0 <= lil.abscisses[i] / lil.Length() <= 1.0
    ensures Sample(lil, lil.abscisses[i] / lil.Length()) == lil.points[i]
  {
    lil.NonDecreasing(0, i);
    lil.NonDecreasing(i, |lil.points| - 1);
    SampleAtFraction(lil, lil.abscisses[i]);
    lil.InterpolateAtVertex(i);
  }

  /** The point of `lil` at fraction `t` of its length (`lil.interpolate(t * lil.length())`). */
  function Sample(lil: LengthIndexedPolyline, t: real): (p: Point)
    requires lil.Valid() && lil.Length() > 0.0
    requires |lil.points| > 1 && lil.abscisses[1] > 0.0
    requires 0.0 <= t <= 1.0
    ensures lil.Locates(t * lil.Length(), p)
  {
    SampleInterpolable(lil, t);
    lil.Interpolate(t * lil.Length())
  }

  /** Sampling at 0 gives the first vertex, and at 1 the last. */
  lemma SampleEnds(lil: LengthIndexedPolyline)
    requires lil.Valid() && lil.Length() > 0.0
    requires |lil.points| > 1 && lil.abscisses[1] > 0.0
    ensures Sample(lil, 0.0) == lil.points[0]
    ensures Sample(lil, 1.0) == lil.points[|lil.points| - 1]
  {
    lil.InterpolableWithin(lil.abscisses[0]);
    lil.InterpolateAtVertex(0);
    SampleIsInterpolation(lil, 0.0);
    SameArcLength(lil, lil.abscisses[0], 0.0 * lil.Length());
    lil.InterpolableWithin(lil.Length());
    lil.InterpolateAtVertex(|lil.points| - 1);
    SampleIsInterpolation(lil, 1.0);
    SameArcLength(lil, lil.Length(), 1.0 * lil.Length());
  }

  /** When the breakpoints `s` hold every normalised abscissa of `lil`, every vertex of `lil` is sampled at one of them. */
  lemma SamplesVisitVertices(lil: LengthIndexedPolyline, s: seq<real>)
    requires lil.Valid() && lil.Length() > 0.0
    requires |lil.points| > 1 && lil.abscisses[1] > 0.0
    requires Normalized(lil) <= Elements(s)
    ensures forall i :: 0 <= i < |lil.points| ==> exists m ::
      0 <= m < |s| && 0.0 <= s[m] <= 1.0 && Sample(lil, s[m]) == lil.points[i]
  {
    forall i | 0 <= i < |lil.points|
      ensures exists m :: 0 <= m < |s| && 0.0 <= s[m] <= 1.0 && Sample(lil, s[m]) == lil.points[i]
    {
      var t := lil.abscisses[i] / lil.Length();
      SampleAtVertex(lil, i);
      assert lil.abscisses[i] in lil.abscisses;
      assert t in Normalized(lil);
      var m :| 0 <= m < |s| && s[m] == t;
    }
  }

  /** Sampling at `x / Length()` interpolates at arc length `x`. */
  lemma SampleAtFraction(lil: LengthIndexedPolyline, x: real)
    requires lil.Valid() && lil.Length() > 0.0
    requires |lil.points| > 1 && lil.abscisses[1] > 0.0
    requires 0.0 <= x <= lil.Length()
    ensures 0.0 <= x / lil.Length() <= 1.0
    ensures lil.Interpolable(x)
    ensures Sample(lil, x / lil.Length()) == lil.Interpolate(x)
  {
    FractionBounds(x, lil.Length());
    SampleAt(lil, x / lil.Length(), x);
  }

  /** Sampling at `t` interpolates at arc length `d` when `d` is `t` times the length. */
  lemma SampleAt(lil: LengthIndexedPolyline, t: real, d: real)
    requires lil.Valid() && lil.Length() > 0.0
    requires |lil.points| > 1 && lil.abscisses[1] > 0.0
    requires 0.0 <= t <= 1.0 && d == t * lil.Length()
    ensures lil.Interpolable(d)
    ensures Sample(lil, t) == lil.Interpolate(d)
  {
    SampleIsInterpolation(lil, t);
    SameArcLength(lil, t * lil.Length(), d);
  }

  /** Sampling at `t` gives the point interpolated at arc length `t` times the length. */
  lemma SampleIs(lil: LengthIndexedPolyline, t: real, d: real, p: Point)
    requires lil.Valid() && lil.Length() > 0.0
    requires |lil.points| > 1 && lil.abscisses[1] > 0.0
    requires 0.0 <= t <= 1.0 && d == t * lil.Length()
    requires lil.Interpolable(d) && lil.Interpolate(d) == p
    ensures Sample(lil, t) == p
  {
    SampleAt(lil, t, d);
  }

  /** Interpolation depends on the arc length only. */
  lemma SameArcLength(lil: LengthIndexedPolyline, d: real, e: real)
    requires lil.Valid() && lil.Interpolable(d) && d == e
    ensures lil.Interpolable(e) && lil.Interpolate(d) == lil.Interpolate(e)
  {
  }

  lemma SampleIsInterpolation(lil: LengthIndexedPolyline, t: real)
    requires lil.Valid() && lil.Length() > 0.0
    requires |lil.points| > 1 && lil.abscisses[1] > 0.0
    requires 0.0 <= t <= 1.0
    ensures lil.Interpolable(t * lil.Length())
    ensures Sample(lil, t) == lil.Interpolate(t * lil.Length())
  {
    SampleInterpolable(lil, t);
  }

  /** Sampling a polyline whose first segment is proper at a fraction `t` of its length is defined. */
  lemma SampleInterpolable(lil: LengthIndexedPolyline, t: real)
    requires lil.Valid() && lil.Length() > 0.0
    requires |lil.points| > 1 && lil.abscisses[1] > 0.0
    requires 0.0 <= t <= 1.0
    ensures lil.Interpolable(t * lil.Length())
  {
    ScaledWithin(t, lil.Length());
    lil.InterpolableWithin(t * lil.Length());
  }
}
