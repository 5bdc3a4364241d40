/** Infinite lines `p + t * v` and the parameter at which one line meets
    another (Cramer's rule on the 2x2 system). */
module Lines {
  import opened Vectors

  /** The line through p with direction v. */
  datatype Line = Line(p: Point, v: Vector)

  /** The result of `intersection_param`: the parameter t along the first line,
      or the `INFINITY` sentinel, used for parallel lines, as a constructor of
      its own. */
  datatype Param = Parallel | At(t: real)

  /** The point `l.p + t * l.v`. */
  function PointAt(l: Line, t: real): Point
  {
    Add(l.p, Scale(t, l.v))
  }

  /** q lies on l: the displacement from l.p to q is parallel to l.v. */
  predicate OnLine(q: Point, l: Line)
  {
    Cross(Sub(q, l.p), l.v) == 0.0
  }

  /** Where l1 meets l2, as a parameter along l1: with `c = l1.v x l2.v`,
      `t = ((l2.p - l1.p) x l2.v) / c`, and the sentinel when c is zero. */
  function IntersectionParam(l1: Line, l2: Line): (r: Param)
    ensures r.Parallel? <==> Cross(l1.v, l2.v) == 0.0
  {
    var c := Cross(l1.v, l2.v);
    if c == 0.0 then Parallel
    else At(Cross(Sub(l2.p, l1.p), l2.v) / c)
  }

  /** `_intersection` as written: it walks the parameter along the direction
      of the OTHER line, `self.p + param * line.v`. */
  function IntersectionAsWritten(l1: Line, l2: Line): (r: Option<Point>)
    ensures r.None? <==> Cross(l1.v, l2.v) == 0.0
  {
    match IntersectionParam(l1, l2)
    case Parallel => None
    case At(t) => Some(Add(l1.p, Scale(t, l2.v)))
  }

  /** The intersection point of two lines, None when they are parallel: the
      parameter is walked along l1, the line it was computed for. */
  function Intersection(l1: Line, l2: Line): (r: Option<Point>)
    ensures r.None? <==> Cross(l1.v, l2.v) == 0.0
  {
    match IntersectionParam(l1, l2)
    case Parallel => None
    case At(t) => Some(PointAt(l1, t))
  }

  // ---------------------------------------------------------------------
  // Lemmas

  /** Moving t along l1 changes the cross product with l2's direction by
      `t * (l1.v x l2.v)`: the cross product is affine along a line. */
  lemma CrossAlong(l1: Line, t: real, l2: Line)
    ensures Cross(Sub(PointAt(l1, t), l2.p), l2.v)
         == Cross(Sub(l1.p, l2.p), l2.v) + t * Cross(l1.v, l2.v)
  {
    var a, b, v, w := l1.p, l2.p, l1.v, l2.v;
    calc {
      Cross(Sub(PointAt(l1, t), l2.p), l2.v);
      ((a.x + t * v.x) - b.x) * w.y - ((a.y + t * v.y) - b.y) * w.x;
      ((a.x - b.x) * w.y - (a.y - b.y) * w.x) + t * (v.x * w.y - v.y * w.x);
      Cross(Sub(l1.p, l2.p), l2.v) + t * Cross(l1.v, l2.v);
    }
  }

  /** Reversing the displacement negates the cross product. */
  lemma CrossSubSwap(p: Point, q: Point, w: Vector)
    ensures Cross(Sub(p, q), w) == -Cross(Sub(q, p), w)
  {
    calc {
      Cross(Sub(p, q), w);
      (p.x - q.x) * w.y - (p.y - q.y) * w.x;
      -((q.x - p.x) * w.y - (q.y - p.y) * w.x);
      -Cross(Sub(q, p), w);
    }
  }

  /** Solving `k + t * c == 0` for t. */
  lemma SolveLinear(k: real, c: real, t: real)
    requires c != 0.0
    ensures k + t * c == 0.0 ==> t == -k / c
    ensures t == -k / c ==> k + t * c == 0.0
  {
  }

  /** Every point `l.p + t * l.v` lies on l. */
  lemma PointAtOnLine(l: Line, t: real)
    ensures OnLine(PointAt(l, t), l)
  {
    calc {
      Cross(Sub(PointAt(l, t), l.p), l.v);
    == { CrossAlong(l, t, l); }
      Cross(Sub(l.p, l.p), l.v) + t * Cross(l.v, l.v);
    == { CrossSelfZero(l.v); }
      Cross(Sub(l.p, l.p), l.v);
      0.0;
    }
  }

  /** Conversely, every point on a line with a non-zero direction has a
      parameter along it. */
  lemma OnLineHasParam(q: Point, l: Line)
    requires l.v != Zero && OnLine(q, l)
    ensures exists t: real :: q == PointAt(l, t)
  {
    CrossZeroIffParallel(Sub(q, l.p), l.v);
    var k: real :| Sub(q, l.p) == Scale(k, l.v);
    assert q == Add(l.p, Sub(q, l.p));
    assert q == PointAt(l, k);
  }

  /** For non-parallel lines the parameter is the only one at which l1 meets
      l2: `l1.p + t * l1.v` is on l2 exactly when the result is `At(t)`. */
  lemma ParamUnique(l1: Line, l2: Line, t: real)
    requires Cross(l1.v, l2.v) != 0.0
    ensures OnLine(PointAt(l1, t), l2) <==> IntersectionParam(l1, l2) == At(t)
  {
    var c := Cross(l1.v, l2.v);
    var k := Cross(Sub(l1.p, l2.p), l2.v);
    CrossAlong(l1, t, l2);
    CrossSubSwap(l1.p, l2.p, l2.v);
    assert IntersectionParam(l1, l2) == At(-k / c);
    SolveLinear(k, c, t);
  }

  /** The computed parameter, when there is one, gives a point on both lines. */
  lemma ParamOnBothLines(l1: Line, l2: Line)
    requires IntersectionParam(l1, l2).At?
    ensures OnLine(PointAt(l1, IntersectionParam(l1, l2).t), l1)
    ensures OnLine(PointAt(l1, IntersectionParam(l1, l2).t), l2)
  {
    var t := IntersectionParam(l1, l2).t;
    PointAtOnLine(l1, t);
    ParamUnique(l1, l2, t);
  }

  /** A line is parallel to itself, so it never has an intersection parameter
      with itself. */
  lemma SelfParallel(l: Line)
    ensures IntersectionParam(l, l) == Parallel
  {
    CrossSelfZero(l.v);
  }

  /** The corrected intersection point lies on both lines. */
  lemma IntersectionOnBothLines(l1: Line, l2: Line)
    requires Intersection(l1, l2).Some?
    ensures OnLine(Intersection(l1, l2).value, l1)
    ensures OnLine(Intersection(l1, l2).value, l2)
  {
    ParamOnBothLines(l1, l2);
  }

  /** The point of `_intersection` as written is off the second line: for
      the line along the x axis with direction (w, 0) and the vertical line
      through (x, y), the lines meet at (x, 0), but the point computed is
      (0, x / w), which is on the vertical line only when x is zero. */
  lemma IntersectionAsWrittenMisses(w: real, x: real, y: real)
    requires w != 0.0 && x != 0.0
    ensures var l1, l2 := Line(Point(0.0, 0.0), Vector(w, 0.0)), Line(Point(x, y), Vector(0.0, 1.0));
      IntersectionAsWritten(l1, l2).Some? && !OnLine(IntersectionAsWritten(l1, l2).value, l2)
  {
    var l1, l2 := Line(Point(0.0, 0.0), Vector(w, 0.0)), Line(Point(x, y), Vector(0.0, 1.0));
    var t := x / w;
    calc {
      Cross(l1.v, l2.v);
      w * 1.0 - 0.0 * 0.0;
    !=
      0.0;
    }
    calc {
      PointAt(l1, t);
      Point(0.0 + t * w, 0.0 + t * 0.0);
    == { assert t * w == x; }
      Point(x, 0.0);
    }
    calc {
      Cross(Sub(Point(x, 0.0), l2.p), l2.v);
      (x - x) * 1.0 - (0.0 - y) * 0.0;
      0.0;
    }
    ParamUnique(l1, l2, t);
    var q := Add(l1.p, Scale(t, l2.v));
    assert q == Point(0.0, t);
    calc {
      Cross(Sub(q, l2.p), l2.v);
      (0.0 - x) * 1.0 - (t - y) * 0.0;
      -x;
    }
  }
}
