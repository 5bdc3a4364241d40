/** Line segments and the segment intersection test.

    The test asks where the carrier line of the first segment meets the
    carrier line of the second, and accepts when that point is on the FIRST
    segment. Nothing checks that it is also on the second segment, so the
    test is one-sided: it decides whether the first segment reaches the
    infinite line through the second. */
module Segments {
  import opened Vectors
  import opened Lines

  datatype Segment = Segment(p1: Point, p2: Point)

  /** `p2 - p1`. */
  function Direction(s: Segment): Vector
  {
    Sub(s.p2, s.p1)
  }

  /** The line through p1 with the segment's unnormalised direction, so that
      parameters 0 and 1 are the two endpoints. */
  function Carrier(s: Segment): Line
  {
    Line(s.p1, Direction(s))
  }

  /** `as_line`: the line through p1 with the normalised direction, where
      `len` is the segment's `length()`. A segment whose endpoints coincide
      has a NaN direction; that line is None. */
  function AsLine(s: Segment, len: real): (l: Option<Line>)
    requires IsLength(Direction(s), len)
    ensures l.None? <==> s.p1 == s.p2
    ensures l.Some? ==> l.value.p == s.p1
  {
    DirectionZeroIff(s);
    match Normalized(Direction(s), len)
    case None => None
    case Some(u) => Some(Line(s.p1, u))
  }

  /** `intersects` as the source computes it: the parameter along the first
      normalised line must lie in `[0, length]`. The `INFINITY` sentinel
      exceeds every finite length, and every comparison with a NaN parameter
      (a degenerate segment on either side) is false. */
  function IntersectsNormalized(s: Segment, o: Segment, len: real, oLen: real): bool
    requires IsLength(Direction(s), len) && IsLength(Direction(o), oLen)
  {
    match (AsLine(s, len), AsLine(o, oLen))
    case (Some(l1), Some(l2)) =>
      (match IntersectionParam(l1, l2)
       case Parallel => false
       case At(t) => 0.0 <= t && t <= len)
    case _ => false
  }

  /** The same test on the unnormalised carriers, where the first segment is
      the parameter range `[0, 1]`. It needs no square root;
      `NormalizedAgrees` shows that it gives the same answer. */
  function Intersects(s: Segment, o: Segment): bool
  {
    match IntersectionParam(Carrier(s), Carrier(o))
    case Parallel => false
    case At(t) => 0.0 <= t && t <= 1.0
  }

  /** Only a segment whose endpoints coincide has the zero direction. */
  lemma DirectionZeroIff(s: Segment)
    ensures Direction(s) == Zero <==> s.p1 == s.p2
  {
    assert Add(s.p1, Direction(s)) == s.p2;
  }

  /** Some point of s lies on the infinite line through o. */
  ghost predicate MeetsCarrier(s: Segment, o: Segment)
  {
    exists t: real :: 0.0 <= t <= 1.0 && OnLine(PointAt(Carrier(s), t), Carrier(o))
  }

  /** s and o are not parallel and share a point that lies on both segments:
      a two-sided crossing. */
  ghost predicate Crosses(s: Segment, o: Segment)
  {
    Cross(Direction(s), Direction(o)) != 0.0 &&
    exists t: real, u: real ::
      0.0 <= t <= 1.0 && 0.0 <= u <= 1.0 && PointAt(Carrier(s), t) == PointAt(Carrier(o), u)
  }

  // ---------------------------------------------------------------------
  // Real arithmetic used to relate the two parameterisations

  lemma ProductSign(l: real, s: real)
    requires l > 0.0
    ensures s >= 0.0 ==> l * s >= 0.0
    ensures s < 0.0 ==> l * s < 0.0
  {
  }

  /** For a positive l, `l * s` lies in `[0, l]` exactly when s lies in `[0, 1]`. */
  lemma ScaledInterval(l: real, s: real)
    requires l > 0.0
    ensures (0.0 <= l * s && l * s <= l) <==> (0.0 <= s && s <= 1.0)
  {
    ProductSign(l, s);
    ProductSign(l, s - 1.0);
    assert l * (s - 1.0) == l * s - l;
  }

  lemma ProductNonZero(a: real, b: real)
    requires a != 0.0 && b != 0.0
    ensures a * b != 0.0
  {
  }

  /** Scaling the two directions by a and b turns the parameter `e / c` into
      `(b * e) / (a * b * c)`, which is `len * (e / c)` when `a == 1 / len`. */
  lemma ParamRescale(a: real, b: real, c: real, e: real, len: real)
    requires len > 0.0 && a == 1.0 / len && b != 0.0 && c != 0.0
    ensures a * (b * c) != 0.0
    ensures (b * e) / (a * (b * c)) == len * (e / c)
  {
    ProductNonZero(b, c);
    ProductNonZero(a, b * c);
    calc {
      (b * e) / (a * (b * c));
      (b * e) / (b * (a * c));
      e / (a * c);
      (len * e) / ((len * a) * c);
      len * (e / c);
    }
  }

  // ---------------------------------------------------------------------
  // Properties of the test

  /** Along the normalised line a unit of parameter is a unit of distance,
      so the parameter there is the carrier's parameter times the length of
      the first segment; parallelism is not affected by the scaling. */
  lemma NormalizedParam(s: Segment, o: Segment, len: real, oLen: real)
    requires IsLength(Direction(s), len) && IsLength(Direction(o), oLen)
    requires s.p1 != s.p2 && o.p1 != o.p2
    ensures AsLine(s, len).Some? && AsLine(o, oLen).Some?
    ensures IntersectionParam(AsLine(s, len).value, AsLine(o, oLen).value)
         == match IntersectionParam(Carrier(s), Carrier(o))
            case Parallel => Parallel
            case At(t) => At(len * t)
  {
    var v1, v2 := Direction(s), Direction(o);
    DirectionZeroIff(s);
    DirectionZeroIff(o);
    LengthZeroIff(v1, len);
    LengthZeroIff(v2, oLen);
    var a, b := 1.0 / len, 1.0 / oLen;
    var u1, u2 := Scale(a, v1), Scale(b, v2);
    assert AsLine(s, len) == Some(Line(s.p1, u1));
    assert AsLine(o, oLen) == Some(Line(o.p1, u2));
    var c := Cross(v1, v2);
    var e := Cross(Sub(o.p1, s.p1), v2);
    calc {
      Cross(u1, u2);
    == { CrossScale(a, v1, u2); }
      a * Cross(v1, u2);
    == { CrossScale(b, v1, v2); }
      a * (b * c);
    }
    calc {
      Cross(Sub(o.p1, s.p1), u2);
    == { CrossScale(b, Sub(o.p1, s.p1), v2); }
      b * e;
    }
    if c != 0.0 {
      ParamRescale(a, b, c, e, len);
      assert IntersectionParam(Carrier(s), Carrier(o)) == At(e / c);
    } else {
      assert a * (b * c) == 0.0;
    }
  }

  /** The normalised test of the source and the sqrt-free test agree for
      every pair of segments. */
  lemma NormalizedAgrees(s: Segment, o: Segment, len: real, oLen: real)
    requires IsLength(Direction(s), len) && IsLength(Direction(o), oLen)
    ensures IntersectsNormalized(s, o, len, oLen) == Intersects(s, o)
  {
    if s.p1 == s.p2 || o.p1 == o.p2 {
      DegenerateNeverIntersects(s, o);
    } else {
      NormalizedParam(s, o, len, oLen);
      LengthZeroIff(Direction(s), len);
      DirectionZeroIff(s);
      match IntersectionParam(Carrier(s), Carrier(o))
      case Parallel =>
      case At(t) => ScaledInterval(len, t);
    }
  }

  /** The test holds exactly when the segments are not parallel and some
      point of s is on the line through o. */
  lemma IntersectsIff(s: Segment, o: Segment)
    ensures Intersects(s, o) <==> Cross(Direction(s), Direction(o)) != 0.0 && MeetsCarrier(s, o)
  {
    var l1, l2 := Carrier(s), Carrier(o);
    if Cross(Direction(s), Direction(o)) != 0.0 {
      var t0 := IntersectionParam(l1, l2).t;
      if Intersects(s, o) {
        ParamUnique(l1, l2, t0);
        assert 0.0 <= t0 <= 1.0 && OnLine(PointAt(l1, t0), l2);
      }
      if MeetsCarrier(s, o) {
        var t :| 0.0 <= t <= 1.0 && OnLine(PointAt(l1, t), l2);
        ParamUnique(l1, l2, t);
      }
    }
  }

  /** A segment whose endpoints coincide intersects nothing and is
      intersected by nothing. */
  lemma DegenerateNeverIntersects(s: Segment, o: Segment)
    requires s.p1 == s.p2 || o.p1 == o.p2
    ensures !Intersects(s, o)
  {
    assert Direction(s) == Zero || Direction(o) == Zero;
    assert Cross(Direction(s), Direction(o)) == 0.0;
  }

  /** Parallel segments never intersect, not even collinear overlapping ones;
      in particular no segment intersects itself. */
  lemma ParallelNeverIntersects(s: Segment, o: Segment)
    requires Cross(Direction(s), Direction(o)) == 0.0
    ensures !Intersects(s, o)
    ensures !Intersects(s, s)
  {
    SelfParallel(Carrier(s));
  }

  lemma DivMul(x: real, w: real)
    requires w != 0.0
    ensures (x / w) * w == x
  {
  }

  lemma DivUnit(x: real, w: real)
    requires 0.0 < w && 0.0 <= x <= w
    ensures 0.0 <= x / w <= 1.0
  {
    DivMul(x, w);
    ScaledInterval(w, x / w);
    assert w * (x / w) == x;
  }

  lemma DivNegative(y: real, d: real)
    requires 0.0 < y && 0.0 < d
    ensures -y / d < 0.0
  {
    DivMul(-y, d);
    ProductSign(d, -y / d);
    assert d * (-y / d) == -y;
  }

  /** The test is not symmetric. A horizontal segment from (0, 0) to (w, 0)
      reaches the vertical line `X = x` through a segment from (x, y1) to
      (x, y2) that lies above it; that vertical segment does not reach the
      horizontal line `Y = 0`, so the test with the roles swapped fails. */
  lemma NotSymmetric(w: real, x: real, y1: real, y2: real)
    requires 0.0 < w && 0.0 <= x <= w && 0.0 < y1 < y2
    ensures Intersects(Segment(Point(0.0, 0.0), Point(w, 0.0)), Segment(Point(x, y1), Point(x, y2)))
    ensures !Intersects(Segment(Point(x, y1), Point(x, y2)), Segment(Point(0.0, 0.0), Point(w, 0.0)))
  {
    var s, o := Segment(Point(0.0, 0.0), Point(w, 0.0)), Segment(Point(x, y1), Point(x, y2));
    var d := y2 - y1;
    var ls, lo := Carrier(s), Carrier(o);
    assert ls == Line(Point(0.0, 0.0), Vector(w, 0.0));
    assert lo == Line(Point(x, y1), Vector(0.0, d));
    var m := Point(x, 0.0);
    calc {
      Cross(ls.v, lo.v);
      w * d - 0.0 * 0.0;
    > { ProductSign(w, d); }
      0.0;
    }
    // s meets the line through o at t = x / w, the point m
    var t := x / w;
    calc {
      PointAt(ls, t);
      Point(0.0 + t * w, 0.0 + t * 0.0);
    == { DivMul(x, w); }
      m;
    }
    calc {
      Cross(Sub(m, lo.p), lo.v);
      0.0 * d - (0.0 - y1) * 0.0;
      0.0;
    }
    ParamUnique(ls, lo, t);
    DivUnit(x, w);
    // o meets the line through s only when extended backwards, at u = -y1 / d
    var u := -y1 / d;
    calc {
      PointAt(lo, u);
      Point(x + u * 0.0, y1 + u * d);
    == { DivMul(-y1, d); }
      m;
    }
    calc {
      Cross(Sub(m, ls.p), ls.v);
      x * 0.0 - 0.0 * w;
      0.0;
    }
    CrossAntisymmetric(ls.v, lo.v);
    ParamUnique(lo, ls, u);
    DivNegative(y1, d);
  }

  /** The same asymmetry under the normalised test of the source, whose
      lengths here are w and `y2 - y1`. */
  lemma NotSymmetricNormalized(w: real, x: real, y1: real, y2: real)
    requires 0.0 < w && 0.0 <= x <= w && 0.0 < y1 < y2
    ensures var s, o := Segment(Point(0.0, 0.0), Point(w, 0.0)), Segment(Point(x, y1), Point(x, y2));
      IsLength(Direction(s), w) && IsLength(Direction(o), y2 - y1) &&
      IntersectsNormalized(s, o, w, y2 - y1) && !IntersectsNormalized(o, s, y2 - y1, w)
  {
    var s, o := Segment(Point(0.0, 0.0), Point(w, 0.0)), Segment(Point(x, y1), Point(x, y2));
    var d := y2 - y1;
    assert Direction(s) == Vector(w, 0.0);
    assert Direction(o) == Vector(0.0, d);
    calc {
      SquaredLength(Vector(w, 0.0));
      w * w + 0.0 * 0.0;
      w * w;
    }
    calc {
      SquaredLength(Vector(0.0, d));
      0.0 * 0.0 + d * d;
      d * d;
    }
    NotSymmetric(w, x, y1, y2);
    NormalizedAgrees(s, o, w, d);
    NormalizedAgrees(o, s, d, w);
  }

  /** `dy / h` lies in `[0, 1]` exactly when dy lies between 0 and h. */
  lemma QuotientInUnit(dy: real, h: real)
    requires h != 0.0
    ensures (0.0 <= dy / h <= 1.0) <==> (0.0 <= dy <= h || h <= dy <= 0.0)
  {
    var t := dy / h;
    DivMul(dy, h);
    if h > 0.0 {
      ScaledInterval(h, t);
      assert h * t == dy;
    } else {
      ScaledInterval(-h, t);
      assert (-h) * t == -dy;
    }
  }

  /** A vertical segment reaches the line through a horizontal segment
      exactly when the height of that line lies between its endpoints. */
  lemma VerticalMeetsHorizontal(s: Segment, o: Segment)
    requires s.p1.x == s.p2.x && s.p1.y != s.p2.y
    requires o.p1.y == o.p2.y && o.p1.x != o.p2.x
    ensures Intersects(s, o) <==>
      (s.p1.y <= o.p1.y <= s.p2.y || s.p2.y <= o.p1.y <= s.p1.y)
  {
    var h, w, dy := s.p2.y - s.p1.y, o.p2.x - o.p1.x, o.p1.y - s.p1.y;
    var ls, lo := Carrier(s), Carrier(o);
    assert ls == Line(s.p1, Vector(0.0, h));
    assert lo == Line(o.p1, Vector(w, 0.0));
    calc {
      Cross(ls.v, lo.v);
      0.0 * 0.0 - h * w;
    != { ProductNonZero(h, w); }
      0.0;
    }
    var t := dy / h;
    var m := Point(s.p1.x, o.p1.y);
    calc {
      PointAt(ls, t);
      Point(s.p1.x + t * 0.0, s.p1.y + t * h);
    == { DivMul(dy, h); }
      Point(s.p1.x, s.p1.y + dy);
      m;
    }
    calc {
      Cross(Sub(m, lo.p), lo.v);
      (s.p1.x - o.p1.x) * 0.0 - 0.0 * w;
      0.0;
    }
    ParamUnique(ls, lo, t);
    QuotientInUnit(dy, h);
  }

  /** A horizontal segment reaches the line through a vertical segment
      exactly when the abscissa of that line lies between its endpoints. */
  lemma HorizontalMeetsVertical(s: Segment, o: Segment)
    requires s.p1.y == s.p2.y && s.p1.x != s.p2.x
    requires o.p1.x == o.p2.x && o.p1.y != o.p2.y
    ensures Intersects(s, o) <==>
      (s.p1.x <= o.p1.x <= s.p2.x || s.p2.x <= o.p1.x <= s.p1.x)
  {
    var w, h, dx := s.p2.x - s.p1.x, o.p2.y - o.p1.y, o.p1.x - s.p1.x;
    var ls, lo := Carrier(s), Carrier(o);
    assert ls == Line(s.p1, Vector(w, 0.0));
    assert lo == Line(o.p1, Vector(0.0, h));
    calc {
      Cross(ls.v, lo.v);
      w * h - 0.0 * 0.0;
    != { ProductNonZero(w, h); }
      0.0;
    }
    var t := dx / w;
    var m := Point(o.p1.x, s.p1.y);
    calc {
      PointAt(ls, t);
      Point(s.p1.x + t * w, s.p1.y + t * 0.0);
    == { DivMul(dx, w); }
      Point(s.p1.x + dx, s.p1.y);
      m;
    }
    calc {
      Cross(Sub(m, lo.p), lo.v);
      0.0 * h - (s.p1.y - o.p1.y) * 0.0;
      0.0;
    }
    ParamUnique(ls, lo, t);
    QuotientInUnit(dx, w);
  }

  /** Two vertical or two horizontal segments are parallel and never
      intersect. */
  lemma AxisParallelNeverIntersects(s: Segment, o: Segment)
    requires (s.p1.x == s.p2.x && o.p1.x == o.p2.x) || (s.p1.y == s.p2.y && o.p1.y == o.p2.y)
    ensures !Intersects(s, o)
  {
    var ds, dd := Direction(s), Direction(o);
    if s.p1.x == s.p2.x && o.p1.x == o.p2.x {
      assert ds == Vector(0.0, ds.y) && dd == Vector(0.0, dd.y);
      calc {
        Cross(Vector(0.0, ds.y), Vector(0.0, dd.y));
        0.0 * dd.y - ds.y * 0.0;
        0.0;
      }
    } else {
      assert ds == Vector(ds.x, 0.0) && dd == Vector(dd.x, 0.0);
      calc {
        Cross(Vector(ds.x, 0.0), Vector(dd.x, 0.0));
        ds.x * 0.0 - 0.0 * dd.x;
        0.0;
      }
    }
    ParallelNeverIntersects(s, o);
  }

  /** `Cross(p - q, w)` splits through any third point r. */
  lemma CrossSubSplit(p: Point, q: Point, r: Point, w: Vector)
    ensures Cross(Sub(p, q), w) == Cross(Sub(p, r), w) - Cross(Sub(q, r), w)
  {
    calc {
      Cross(Sub(p, q), w);
      (p.x - q.x) * w.y - (p.y - q.y) * w.x;
      ((p.x - r.x) * w.y - (p.y - r.y) * w.x) - ((q.x - r.x) * w.y - (q.y - r.y) * w.x);
      Cross(Sub(p, r), w) - Cross(Sub(q, r), w);
    }
  }

  /** Two points that are each on both of two non-parallel lines coincide. */
  lemma CommonPointUnique(p: Point, q: Point, l1: Line, l2: Line)
    requires Cross(l1.v, l2.v) != 0.0
    requires OnLine(p, l1) && OnLine(p, l2) && OnLine(q, l1) && OnLine(q, l2)
    ensures p == q
  {
    CrossSubSplit(p, q, l1.p, l1.v);
    CrossSubSplit(p, q, l2.p, l2.v);
    CrossBothZero(Sub(p, q), l1.v, l2.v);
    assert Add(q, Sub(p, q)) == p;
  }

  /** Running the one-sided test both ways is a true two-sided crossing test. */
  lemma BothWaysIsCrossing(s: Segment, o: Segment)
    ensures Intersects(s, o) && Intersects(o, s) <==> Crosses(s, o)
  {
    var l1, l2 := Carrier(s), Carrier(o);
    IntersectsIff(s, o);
    IntersectsIff(o, s);
    CrossAntisymmetric(Direction(s), Direction(o));
    if Intersects(s, o) && Intersects(o, s) {
      var t :| 0.0 <= t <= 1.0 && OnLine(PointAt(l1, t), l2);
      var u :| 0.0 <= u <= 1.0 && OnLine(PointAt(l2, u), l1);
      PointAtOnLine(l1, t);
      PointAtOnLine(l2, u);
      CommonPointUnique(PointAt(l1, t), PointAt(l2, u), l1, l2);
    }
    if Crosses(s, o) {
      var t, u :| 0.0 <= t <= 1.0 && 0.0 <= u <= 1.0 && PointAt(l1, t) == PointAt(l2, u);
      PointAtOnLine(l1, t);
      PointAtOnLine(l2, u);
    }
  }
}
