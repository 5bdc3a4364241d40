# Polygon intersection benchmark, modelled in Dafny

The program is a small 2D geometry kernel with a brute-force driver:

- points and vectors with subtraction, addition, scaling, the cross product,
  the length and normalisation;
- infinite lines `p + t * v` and the parameter at which two lines meet;
- line segments and a segment intersection test;
- polygons as closed chains of vertices, the axis-aligned rectangle
  constructor, and the polygon intersection test over all edge pairs;
- the driver, which builds a thousand 100 by 100 squares whose corners lie
  at `(k, k)` and counts the pairs that intersect.

The model has one module per layer:

- `Vectors` (`vectors.dfy`) holds the point and vector algebra. Coordinates
  are exact reals. There is no square root in Dafny, so a length is the
  relation `IsLength(v, len)`: `len >= 0` and `len * len == x*x + y*y`.
  Operations that need a length take it as a parameter that satisfies the
  relation.
- `Lines` (`lines.dfy`) holds lines and `intersection_param`. The
  `INFINITY` sentinel is the `Parallel` constructor of `Param`.
- `Segments` (`segments.dfy`) holds segments, `as_line` and `intersects`.
  - `IntersectsNormalized` is the test as the program computes it: on
    normalised directions, with the parameter bounded by the length.
  - `Intersects` is the same test on the unnormalised carrier lines, with
    the parameter bounded by 1.
  - `NormalizedAgrees` proves that the two tests agree on every input.
  - The test is one-sided. It accepts when the point where the two carrier
    lines meet lies on the FIRST segment. It does not check that the point
    also lies on the second segment. `IntersectsIff`, `NotSymmetric` and
    `BothWaysIsCrossing` pin this down.
- `Polygons` (`polygons.dfy`) holds polygons, `new_rect`, `segment(i)` and
  `Polygon::intersects`. The last is a method with the program's nested
  loop and early return, proved against the predicate `EdgesMeet`.
  `RectsMeetIff` characterises when two rectangles meet.
- `Driver` (`driver.dfy`) holds `make_rect`, the generated squares and
  `main`'s counting loop. The loop is a method proved to return the number
  of meeting index pairs `i < j`. `SquaresCount` and `MainCount` compute
  that number for the benchmark's input: 94950 for a thousand squares.

A `NaN` result of the program (normalising a zero vector) is modelled as
`None`. Every comparison with a `NaN` parameter is false, so such a segment
never intersects anything, and `IntersectsNormalized` says exactly that.

## Model

| member | source | states |
|---|---|---|
| Vectors.Sub | rust/src/main.rs:13-19 | no contract of its own; componentwise `p - q`, inverse to Add by AddSubRoundTrip and SubAddRoundTrip |
| Vectors.Add | rust/src/main.rs:21-27 | no contract of its own; componentwise `p + v`, inverse to Sub by AddSubRoundTrip and SubAddRoundTrip |
| Vectors.Scale | rust/src/main.rs:53-59 | no contract of its own; componentwise `k * v`, its effect on cross products and lengths in CrossScale, SquaredLengthScale and LengthScale |
| Vectors.Cross | rust/src/main.rs:40-42 | no contract of its own; meaning in CrossAntisymmetric, CrossSelfZero, CrossScale and CrossZeroIffParallel (zero exactly for parallel vectors) |
| Vectors.SquaredLength | rust/src/main.rs:44-46 | no contract of its own; the argument of `sqrt` in `length`, positive for every non-zero vector by LengthZeroIff |
| Vectors.IsLength | rust/src/main.rs:44-46 | no contract of its own; `length` as a relation, a function of the vector by LengthUnique, zero exactly for the zero vector by LengthZeroIff |
| Vectors.AddSubRoundTrip | rust/src/main.rs:13-27 | adding the difference `q - p` back to p gives q |
| Vectors.SubAddRoundTrip | rust/src/main.rs:13-27 | `(p + v) - p == v`: point addition and subtraction are inverse |
| Vectors.CrossAntisymmetric | rust/src/main.rs:40-42 | `u x v == -(v x u)` |
| Vectors.CrossSelfZero | rust/src/main.rs:40-42 | every vector is parallel to itself: `v x v == 0` |
| Vectors.CrossScale | rust/src/main.rs:40-42 | the cross product is linear under scaling (`Mul`, lines 53-59) in each argument |
| Vectors.CrossZeroIffParallel | rust/src/main.rs:40-42 | for non-zero v, `u x v == 0` holds exactly when u is a multiple of v (both directions) |
| Vectors.CrossBothZero | rust/src/main.rs:40-42 | a vector whose cross products with two non-parallel vectors vanish is zero |
| Vectors.LengthZeroIff | rust/src/main.rs:44-46 | a length is non-negative and is zero exactly for the zero vector |
| Vectors.LengthUnique | rust/src/main.rs:44-46 | the square root is unique: a vector has only one length |
| Vectors.SquaredLengthScale | rust/src/main.rs:44-46 | scaling by k multiplies the squared length by `k * k` |
| Vectors.LengthScale | rust/src/main.rs:44-46 | scaling by `k >= 0` multiplies the length by k |
| Vectors.UnitLength | rust/src/main.rs:48-50 | `1/len * v` has length one, and scaling it back by len gives v |
| Vectors.Normalized | rust/src/main.rs:48-50 | normalising fails (NaN, here None) exactly for the zero vector |
| Vectors.NormalizedUnit | rust/src/main.rs:48-50 | for a non-zero vector the normalised vector exists, has length one and times the length is the vector |
| Lines.IntersectionParam | rust/src/main.rs:89-96 | the sentinel (`Parallel`) is returned exactly when the directions' cross product is zero |
| Lines.CrossAlong | rust/src/main.rs:89-96 | moving t along the first line changes `(q - l2.p) x l2.v` by `t * (l1.v x l2.v)`, which is why the division solves for t |
| Lines.CrossSubSwap | rust/src/main.rs:95 | reversing the displacement `line.p - self.p` negates its cross product |
| Lines.PointAtOnLine | rust/src/main.rs:68-78 | every point `p + t * v` lies on the line |
| Lines.OnLineHasParam | rust/src/main.rs:68-78 | every point on a line with non-zero direction is `p + t * v` for some t |
| Lines.ParamUnique | rust/src/main.rs:89-96 | for non-parallel lines, `l1.p + t * l1.v` is on l2 exactly when the computed parameter is t |
| Lines.ParamOnBothLines | rust/src/main.rs:89-96 | the computed parameter gives a point on both lines |
| Lines.SelfParallel | rust/src/main.rs:89-96 | a line has no parameter with itself: the result is the sentinel |
| Lines.IntersectionAsWritten | rust/src/main.rs:80-87 | as written, `_intersection` returns None exactly for parallel lines |
| Lines.IntersectionAsWrittenMisses | rust/src/main.rs:80-87 | as written, the returned point is off the second line, e.g. for a horizontal line of direction (w, 0) and the vertical line through (x, y), x != 0 |
| Lines.Intersection | rust/src/main.rs:80-87 | corrected: None exactly for parallel lines |
| Lines.IntersectionOnBothLines | rust/src/main.rs:80-87 | corrected: the returned point lies on both lines |
| Segments.Direction | rust/src/main.rs:117-123 | no contract of its own; the displacement `p2 - p1` that `as_line` normalises and `length` measures, zero exactly for a degenerate segment by DirectionZeroIff |
| Segments.IntersectsNormalized | rust/src/main.rs:110-115 | no contract of its own; the test as the program computes it, equal to Intersects on every input by NormalizedAgrees |
| Segments.Intersects | rust/src/main.rs:110-115 | no contract of its own; the sqrt-free form of the test, characterised in both directions by IntersectsIff and related to a two-sided crossing by BothWaysIsCrossing |
| Segments.DirectionZeroIff | rust/src/main.rs:117-123 | the direction `p2 - p1` is zero exactly when the endpoints coincide |
| Segments.AsLine | rust/src/main.rs:117-119 | the segment's line starts at p1 and is undefined (NaN direction) exactly when `p1 == p2` |
| Segments.NormalizedParam | rust/src/main.rs:110-119 | for non-degenerate segments, the parameter along the normalised line is the length times the parameter along the carrier, and parallelism is unchanged |
| Segments.NormalizedAgrees | rust/src/main.rs:110-123 | the test as computed (normalised, `0 <= t <= length`) equals the sqrt-free test (`0 <= t <= 1`) on every pair |
| Segments.IntersectsIff | rust/src/main.rs:110-115 | the test holds exactly when the segments are not parallel and some point of the first lies on the line through the second |
| Segments.DegenerateNeverIntersects | rust/src/main.rs:110-119 | a segment with coinciding endpoints neither intersects nor is intersected |
| Segments.ParallelNeverIntersects | rust/src/main.rs:110-115 | parallel segments, collinear overlapping ones included, never intersect; no segment intersects itself |
| Segments.NotSymmetric | rust/src/main.rs:110-115 | the test is not symmetric: a horizontal segment reaches the vertical line through a segment above it, but not the other way round |
| Segments.NotSymmetricNormalized | rust/src/main.rs:110-123 | the same asymmetry for the test as computed with normalised directions |
| Segments.VerticalMeetsHorizontal | rust/src/main.rs:110-115 | a vertical segment meets a horizontal one exactly when that line's height lies between its endpoints |
| Segments.HorizontalMeetsVertical | rust/src/main.rs:110-115 | a horizontal segment meets a vertical one exactly when that line's abscissa lies between its endpoints |
| Segments.AxisParallelNeverIntersects | rust/src/main.rs:110-115 | two vertical or two horizontal segments never intersect |
| Segments.CommonPointUnique | rust/src/main.rs:89-96 | two non-parallel lines share at most one point |
| Segments.BothWaysIsCrossing | rust/src/main.rs:110-115 | the test holds both ways exactly when the segments are not parallel and share a point of both |
| Polygons.NewRect | rust/src/main.rs:135-146 | a rectangle has four vertices |
| Polygons.RectEdges | rust/src/main.rs:135-146 | a rectangle starts at (left, top), and its edges go down by the height, right by the width, up by the height and left by the width |
| Polygons.SegmentAt | rust/src/main.rs:161-163 | edge i runs from vertex i to the next vertex, and the last vertex wraps to the first |
| Polygons.EdgesChain | rust/src/main.rs:161-163 | consecutive edges share a vertex, so the edges form one closed chain |
| Polygons.Intersects | rust/src/main.rs:148-159 | the nested loop returns true exactly when some edge of the first polygon intersects some edge of the second |
| Polygons.EmptyNeverMeets | rust/src/main.rs:148-159 | a polygon with no vertices meets nothing and is met by nothing |
| Polygons.SingleVertexNeverMeets | rust/src/main.rs:148-163 | a one-vertex polygon has one degenerate edge and meets nothing |
| Polygons.RectEdgePair | rust/src/main.rs:135-163 | an edge of one rectangle against an edge of another: which pairs intersect and under which interval condition |
| Polygons.RectsMeetIff | rust/src/main.rs:135-163 | two rectangles meet exactly when a side line of the second passes through the extent of the first |
| Driver.MakeRect | rust/src/main.rs:166-169 | the square has four vertices, its corner is (x, x) and every edge has length 100 |
| Driver.SquaresMeetIff | rust/src/main.rs:166-169 | two benchmark squares meet exactly when their offsets differ by at most 100 |
| Driver.Squares | rust/src/main.rs:172 | the generated sequence has one square per offset |
| Driver.CountIntersections | rust/src/main.rs:174-181 | the loop counts exactly the index pairs `i < j` whose polygons intersect, at most `n * (n - 1) / 2` |
| Driver.PairCountIsCardinality | rust/src/main.rs:174-181 | the row-by-row count of the nested loop is the number of meeting pairs |
| Driver.PairCountBound | rust/src/main.rs:174-181 | at most `n * (n - 1) / 2` pairs are counted |
| Driver.SquaresCount | rust/src/main.rs:172-181 | for `n >= 100` squares, `100 * n - 5050` pairs intersect |
| Driver.MainCount | rust/src/main.rs:172-183 | the thousand squares of the benchmark give 94950 intersecting pairs |

## Left out

- Timing and output: `Instant::now`, `elapsed` and the two `println!` calls
  (lines 173 and 182-184) are I/O and are not modelled. `MainCount` states
  the number that the first `println!` prints.
- Floating point: coordinates are exact reals. Rounding, overflow to
  infinity and the IEEE behaviour of `NaN` are not modelled. The two `NaN`
  and infinity cases the program depends on are modelled explicitly: a
  zero vector normalises to `None`, and the `INFINITY` sentinel of
  `intersection_param` is `Parallel`. On the benchmark's squares the
  floating-point computation is exact, so `MainCount` is the number the
  program prints:
  - every side has length 100, and `sqrt(10000.0)` is exactly `100.0`;
  - `1.0 / 100.0 * 100.0` rounds to exactly `1.0`, so every normalised
    direction is exactly `(0, 1)`, `(0, -1)`, `(1, 0)` or `(-1, 0)`;
  - every coordinate is an integer of at most 1099, so every cross
    product at line 95 is an exact integer divided by 1 or -1;
  - a cross product of `-0.0` still compares equal to `0.0` at line 91.
- `sqrt`: Dafny has no square root, so `length` is the relation
  `IsLength`. The functions that need a length take it as a parameter.
- `Div` for vectors (lines 61-67) is never called and is not modelled.
- `Polygon::_new` (lines 131-133) is never called and is not modelled.
- Polygons.SegmentAt: requires `i < |points|`. The program's
  `self.points[i]` (line 162) panics for an index out of range. Its only
  caller, the loop of `Polygon::intersects` (lines 149-152), never passes
  one, so the panic is not modelled.
- `Point::new`, `Vector::new`, `Line::new` and `Segment::new` are the
  datatype constructors.
- The counter `n_intersections` is an unbounded `nat`. The program infers
  `i32` for it. Its largest value here is 94950, so the width does not
  matter.
- Driver.Squares: the program builds the sequence with a fixed range of
  1000. The model takes the count as a parameter up to `2^31`. `MainCount`
  fixes it at 1000.
- Vectors.Normalized: its contract states only when the result is
  undefined. The unit length and the direction are stated in
  `NormalizedUnit`.
- Segments.AsLine: its contract does not state the normalised direction.
  `NormalizedParam` states what that direction does to the parameter.
- Polygons.NewRect: its contract states only the number of vertices. The
  vertices themselves are stated in `RectEdges`.
- `Segments.Intersects` and `Segments.IntersectsNormalized` have no
  contract of their own. `NormalizedAgrees`, `IntersectsIff` and the
  lemmas after them state their meaning.

## Findings

| source | as written | input that shows it | evidently intended | confidence | as-written member | corrected member |
|---|---|---|---|---|---|---|
| rust/src/main.rs:86 | `self.p + param * line.v`: the parameter is computed along `self` but walked along the other line's direction | `self` through (0, 0) with direction (2, 0), `line` through (1, 5) with direction (0, 1): the lines meet at (1, 0), but the point returned is (0, 0.5) | `self.p + param * self.v`, the point on both lines | not executed | Lines.IntersectionAsWrittenMisses | Lines.IntersectionOnBothLines |

`_intersection` is not called anywhere in the program, so the finding does
not affect the benchmark.
