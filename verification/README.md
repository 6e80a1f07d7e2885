# Polyline morphing by normalised arc length

A Dafny model of the polyline morph in `morphing-distance.cpp`. It has three parts:

- **`Length_indexed_polyline_2`**: a polyline that stores, for each vertex, its arc length from the first vertex (its *abscissa*). It can look up the segment that spans a given arc length and interpolate the point found there.
- **`Polyline_morphing_2`**: it merges the abscissas of a source and a target polyline, each divided by its own length, into one ordered set of *breakpoints* in [0, 1]. At every breakpoint it samples both polylines, giving one correspondence segment (source point → target point).
- **The demonstration program**: it morphs an L-shaped source of length 2 onto a vertical target of length 1.

Modules:

- `Geometry` (`geometry.dfy`): points, segments and linear interpolation between two points. It also holds the geometric kernel. The kernel's distance function stands in for `CGAL::sqrt(CGAL::to_double(segment.squared_length()))`. `Kernel.Valid()` gives it exactly three properties:
  - a distance is non-negative;
  - the distance from a point to itself is zero;
  - a distance squared is the squared length of the segment.
- `ArcLength` (`arc_length.dfy`): the class `LengthIndexedPolyline`.
  - Its constructor accumulates the abscissas in a loop.
  - `find_segment` is a scanning method, in two versions: as documented and as written.
  - `_segment` and `interpolate` are functions over the stored state.
- `SortedSet` (`sorted_set.dfy`): `std::set<double>` as a strictly ascending `seq<real>`, with `insert`.
- `Morphing` (`morphing.dfy`): the class `PolylineMorphing`.
  - Its constructor inserts the normalised abscissas of both polylines into the breakpoint field.
  - `build_transform_segments` is a loop that appends one correspondence per breakpoint.
- `Demo` (`demo.dfy`): the demonstration program and the defect in `find_segment` on its data.

## Model

| member | source | states |
|---|---|---|
| Geometry.DistanceProperties | morphing-distance.cpp:42 | the kernel's segment length is zero exactly between equal points and does not depend on direction |
| Geometry.LerpDistances | morphing-distance.cpp:60-63 | `source + (target - source) * k` for k in [0, 1] lies at distance `k * length` from the source and `(1 - k) * length` from the target |
| Geometry.Lerp | morphing-distance.cpp:63 | `source + (target - source) * k`: fraction 0 gives the source point and fraction 1 the target point |
| ArcLength.LengthIndexedPolyline.constructor | morphing-distance.cpp:29-47 | a non-empty point sequence gives one abscissa per vertex, the first 0 and each next one the previous plus the segment length (the object invariant `Valid`) |
| ArcLength.LengthIndexedPolyline.NonDecreasing | morphing-distance.cpp:35-44 | abscissas never decrease along the polyline |
| ArcLength.LengthIndexedPolyline.AbscissaIsPathLength | morphing-distance.cpp:35-44 | the abscissa of vertex i is the sum of the segment lengths up to vertex i |
| ArcLength.LengthIndexedPolyline.Length | morphing-distance.cpp:49-54 | `length()` is the last abscissa, is non-negative and is the sum of all segment lengths |
| ArcLength.LengthIndexedPolyline.FirstCovering | morphing-distance.cpp:95-99 | the scan from a given segment finds the first segment whose abscissas enclose d, and -1 only when no later segment does |
| ArcLength.LengthIndexedPolyline.SegmentOf | morphing-distance.cpp:87-101 | the documented result of `find_segment`: -1 exactly when d is negative or no segment spans it, otherwise the first segment j with `abscissa[j] <= d <= abscissa[j+1]` |
| ArcLength.LengthIndexedPolyline.SegmentOfFound | morphing-distance.cpp:91-101 | a segment is found exactly when 0 <= d <= length() and the polyline has a segment |
| ArcLength.LengthIndexedPolyline.SegmentOfFirst | morphing-distance.cpp:95-98 | every d in [0, abscissa[1]] is found in segment 0 |
| ArcLength.LengthIndexedPolyline.SegmentOfMonotone | morphing-distance.cpp:95-98 | for non-negative arc lengths, the segment found never moves backwards as d grows |
| ArcLength.LengthIndexedPolyline.FindSegment | morphing-distance.cpp:91-101 | the scan with the intended `return i-1`: it returns the documented segment; -1 exactly when d < 0, d > length() or there is a single vertex; otherwise an index j with `0 <= j < |points|-1` whose abscissas enclose d |
| ArcLength.LengthIndexedPolyline.FindSegmentAsWritten | morphing-distance.cpp:91-101 | the scan as written: -1 where the documented result is -1, otherwise d truncated to an integer instead of the segment index |
| ArcLength.LengthIndexedPolyline.SegmentAt | morphing-distance.cpp:80-85 | `_segment(j)`, defined for `0 <= j` and `j+1 < |points|`: its length is the gap between the abscissas of its ends |
| ArcLength.LengthIndexedPolyline.SegmentLength | morphing-distance.cpp:39-43 | the length of segment j is `abscissa[j+1] - abscissa[j]` |
| ArcLength.LengthIndexedPolyline.InterpolableIff | morphing-distance.cpp:56-64 | the model's `Interpolate`, which uses the intended segment index `SegmentOf`, neither reads outside the vertices nor divides by zero exactly when 0 <= d <= length(), there is a segment, and d = 0 only if the first segment has a positive length |
| ArcLength.LengthIndexedPolyline.InterpolableWithin | morphing-distance.cpp:56-64 | when the first segment has a positive length, every d in [0, length()] can be interpolated |
| ArcLength.LengthIndexedPolyline.InterpolateIsLerp | morphing-distance.cpp:56-64 | on the segment j that spans d, the result is `p[j] + (p[j+1] - p[j]) * t` where `t * (abscissa[j+1] - abscissa[j]) == d - abscissa[j]` |
| ArcLength.LengthIndexedPolyline.Interpolate | morphing-distance.cpp:56-64 | `interpolate(d)` with the intended segment index: on the segment j that spans d, the point returned lies at distance `d - abscissa[j]` from `p[j]` and `abscissa[j+1] - d` from `p[j+1]`, so the polyline is parameterised by arc length (`Locates`) |
| ArcLength.LengthIndexedPolyline.ZeroStretch | morphing-distance.cpp:39-43 | vertices with equal abscissas are the same point |
| ArcLength.LengthIndexedPolyline.InterpolateAtVertex | morphing-distance.cpp:56-64 | interpolating at the abscissa of any vertex gives that vertex |
| SortedSet.Insert | morphing-distance.cpp:154 | `std::set::insert` keeps the sequence strictly ascending, adds exactly the new value, leaves it unchanged when the value is already held, and otherwise grows it by one |
| SortedSet.SameElementsSameSequence | morphing-distance.cpp:145 | a strictly ascending sequence is determined by the set of values it holds, as a `std::set` is by its contents |
| Morphing.NormalizedSpansUnitInterval | morphing-distance.cpp:148-156 | the abscissas of a polyline of positive length, divided by that length, include 0 and 1 and all lie in [0, 1] |
| Morphing.PolylineMorphing.constructor | morphing-distance.cpp:113-123 | builds both polylines from their points; the breakpoints are strictly ascending and are exactly the union of both polylines' normalised abscissas |
| Morphing.PolylineMorphing.InsertNormalizedAbscisses | morphing-distance.cpp:148-156 | each abscissa divided by the polyline length is added to the breakpoints; they stay strictly ascending and gain exactly those values |
| Morphing.PolylineMorphing.BreakpointsSpanUnitInterval | morphing-distance.cpp:113-123 | there are at least two breakpoints; the first is 0, the last is 1, and all lie in [0, 1] |
| Morphing.PolylineMorphing.Correspondence | morphing-distance.cpp:134-137 | the segment built at breakpoint t: its start lies at arc length `t * Ls` on the source and its end at arc length `t * Lt` on the target, each at the distances `Locates` states from the ends of the spanning segment |
| Morphing.PolylineMorphing.CorrespondenceEnds | morphing-distance.cpp:125-140 | the correspondence at breakpoint 0 joins the first vertices, and the one at breakpoint 1 joins the last vertices |
| Morphing.PolylineMorphing.CorrespondencesVisitSourceVertices | morphing-distance.cpp:125-140 | for each source vertex i, returns a breakpoint m in [0, 1] whose correspondence starts at vertex i |
| Morphing.PolylineMorphing.CorrespondencesVisitTargetVertices | morphing-distance.cpp:125-140 | for each target vertex i, returns a breakpoint m in [0, 1] whose correspondence ends at vertex i |
| Morphing.PolylineMorphing.BuildTransformSegments | morphing-distance.cpp:125-140 | one segment per breakpoint, in ascending breakpoint order; segment i is (source at `t_i * Ls`, target at `t_i * Lt`); the first joins the first vertices and the last joins the last vertices |
| Morphing.PolylineMorphing.BuildTransformSegmentsTwice | morphing-distance.cpp:125 | `build_transform_segments` is `const`: two calls give identical results |
| Morphing.Sample | morphing-distance.cpp:134-137 | `interpolate(t * length())` for t in [0, 1]: the point at arc length `t * length()`, located on its spanning segment as `Locates` states |
| Morphing.SampleAtVertex | morphing-distance.cpp:134-137 | sampling a polyline at the normalised abscissa of a vertex gives that vertex |
| Morphing.SampleEnds | morphing-distance.cpp:134-137 | sampling at 0 gives the first vertex, and at 1 the last |
| Morphing.SamplesVisitVertices | morphing-distance.cpp:148-156 | when the breakpoints hold a polyline's normalised abscissas, each of its vertices is sampled at one of them |
| Demo.PathLengths | morphing-distance.cpp:162-175 | the source has length 2 and the target length 1, for every valid kernel |
| Demo.Breakpoints | morphing-distance.cpp:177-180 | the demonstration's breakpoints are exactly [0, 0.5, 1] |
| Demo.Correspondences | morphing-distance.cpp:193-195 | the correspondences at 0, 0.5 and 1 are (0,0)→(0,5), (1,0)→(0,5.5) and (1,1)→(0,6) |
| Demo.Scenario | morphing-distance.cpp:161-195 | the model of the demonstration program, whose interpolation uses the intended segment index, outputs the length 2, then exactly the three segments above, in order |
| Demo.TruncatedIndexOverruns | morphing-distance.cpp:95-98 | on the demonstration source at arc length 2.0, the spanning segment is 1, but the truncated arc length is 2, and segment 2 would need a fourth vertex |
| Demo.FindSegmentAtEnd | morphing-distance.cpp:91-101 | on the demonstration source at arc length 2.0, `find_segment` as written returns 2 and the intended scan returns 1 |

## Left out

- Output: `main` prints the length and the segments to standard output (lines 175, 184-190). `Demo.Scenario` returns them instead.
- Kernels: `Epeck`/`Epick` and the CGAL point, vector and segment types (lines 9-15, 21-23) are replaced by real coordinate pairs. CGAL's square root of the squared length is replaced by a kernel distance with the three properties listed above. Vector arithmetic is written coordinate by coordinate.
- Floating point: coordinates, abscissas and breakpoints are exact reals. IEEE rounding is not modelled. In particular, `(a / L) * L` comes back to `a` exactly, and breakpoints that differ only by rounding are distinct values rather than near-duplicates.
- `BOOST_ASSERT` (lines 32, 46): the empty-input check is a precondition of the constructors. The size check is part of the invariant the constructor establishes.
- Abscissa iterators (`begin_abscisses`/`end_abscisses`, lines 67-72): the model reads the `abscisses` field directly.
- Conversion overflow: `static_cast<int>` of an arc length beyond the `int` range is not modelled. `FindSegmentAsWritten` returns the unbounded integer part.
- Morphing.PolylineMorphing.constructor: it requires both polylines to have a positive length. The code divides by the length at line 154 with no guard, so a single-point or all-coincident polyline is not modelled. No special case for a zero-length polyline is modelled either: the code has none.
- ArcLength.LengthIndexedPolyline.Interpolate: it requires `Interpolable(d)`. The code has no guard and no special case for these situations:
  - a failed `find_segment` makes `_segment(-1)` read outside the vertices;
  - a zero-length segment divides by zero at line 62.
- Morphing.PolylineMorphing.Correspondence, Morphing.PolylineMorphing.BuildTransformSegments, Morphing.PolylineMorphing.CorrespondenceEnds, Morphing.PolylineMorphing.CorrespondencesVisitSourceVertices and Morphing.PolylineMorphing.CorrespondencesVisitTargetVertices: they require each polyline's first segment to have a positive length. In the model, which interpolates with the intended segment index, that length is the divisor at every arc length up to `abscissa[1]`, and a zero value there divides by zero only at breakpoint 0 (see `InterpolableIff`). The code as written, with the truncated index of line 97, can also divide by zero or read past the last vertex at other breakpoints: for the polyline (0,0),(1,0),(1,0),(3,0) at arc length 1 it picks the zero-length segment 1, and on the demonstration data at breakpoint 1 it reads the fourth vertex of the three-vertex source.
- Interpolation as written: `Interpolate` uses the intended `find_segment` (`SegmentOf`). The out-of-range read that the as-written index causes is exhibited by `Demo.TruncatedIndexOverruns`, and is not followed further.
- Degenerate inputs: each of the three cases below could have a special case; the code has none, and the model follows the code:
  - an empty point sequence could raise an error; in the code it is a `BOOST_ASSERT`, and in the model a precondition;
  - a zero-length segment could interpolate to its first point; in the code it is a division by zero, and in the model a precondition;
  - a zero-length polyline could contribute only the breakpoint 0; in the code it is a division by zero, and in the model a precondition.
- The remark at line 192, that the longest correspondence bounds the Hausdorff and Fréchet distances, is a comment, not behaviour of the code.

## Findings

| source | as written | input that shows it | evidently intended | confidence | as-written member | corrected member |
|---|---|---|---|---|---|---|
| morphing-distance.cpp:97 | `find_segment` returns `static_cast<int>(abscisse)`, the arc length truncated to an integer | the demonstration source [(0,0),(1,0),(1,1)] at arc length 2.0: it returns 2, so `_segment(2)` reads vertex 3 of 3; the spanning segment is 1 | return the loop's segment index `i-1`, as the doc comment at lines 87-90 describes | high; not executed | ArcLength.LengthIndexedPolyline.FindSegmentAsWritten | ArcLength.LengthIndexedPolyline.FindSegment |
