/** Polygons as closed chains of vertices, axis-aligned rectangles, and the
    polygon intersection test built from the one-sided segment test. */
module Polygons {
  import opened Vectors
  import Segments

  /** The vertices in order; the last one is joined back to the first. */
  datatype Polygon = Polygon(points: seq<Point>)

  /** `new_rect`: the rectangle with corner (left, top), extending `width`
      along x and `height` along y, listed from (left, top) down the left
      side, along the bottom, up the right side. */
  function NewRect(left: real, top: real, width: real, height: real): (p: Polygon)
    ensures |p.points| == 4
  {
    var bottom := top + height;
    var right := left + width;
    Polygon([Point(left, top), Point(left, bottom), Point(right, bottom), Point(right, top)])
  }

  /** `segment(i)`: the edge from vertex i to the next vertex, wrapping the
      last vertex round to the first. */
  function SegmentAt(poly: Polygon, i: nat): (s: Segments.Segment)
    requires i < |poly.points|
    ensures s.p1 == poly.points[i]
    ensures s.p2 == poly.points[if i + 1 == |poly.points| then 0 else i + 1]
  {
    Segments.Segment(poly.points[i], poly.points[(i + 1) % |poly.points|])
  }

  /** Some edge of a, tested against some edge of b, intersects it. */
  ghost predicate EdgesMeet(a: Polygon, b: Polygon)
  {
    exists i: nat, j: nat ::
      i < |a.points| && j < |b.points| && Segments.Intersects(SegmentAt(a, i), SegmentAt(b, j))
  }

  /** `Polygon::intersects`: tests every edge of a against every edge of b and
      stops at the first pair that intersects. */
  method Intersects(a: Polygon, b: Polygon) returns (r: bool)
    ensures r == EdgesMeet(a, b)
  {
    for i := 0 to |a.points|
      invariant forall i': nat, j': nat :: i' < i && j' < |b.points| ==>
        !Segments.Intersects(SegmentAt(a, i'), SegmentAt(b, j'))
    {
      var s1 := SegmentAt(a, i);
      for j := 0 to |b.points|
        invariant forall j': nat :: j' < j ==> !Segments.Intersects(s1, SegmentAt(b, j'))
      {
        var s2 := SegmentAt(b, j);
        if Segments.Intersects(s1, s2) {
          return true;
        }
      }
    }
    return false;
  }

  // ---------------------------------------------------------------------
  // Lemmas

  /** Consecutive edges share a vertex, so the edges form one closed chain. */
  lemma EdgesChain(poly: Polygon, i: nat)
    requires i < |poly.points|
    ensures SegmentAt(poly, i).p2 == SegmentAt(poly, (i + 1) % |poly.points|).p1
  {
    if i + 1 < |poly.points| {
      assert (i + 1) % |poly.points| == i + 1;
    } else {
      assert (i + 1) % |poly.points| == 0;
    }
  }

  /** The edges of a rectangle go down by the height, right by the width, up
      by the height and left by the width, starting at (left, top). */
  lemma RectEdges(left: real, top: real, width: real, height: real)
    ensures var r := NewRect(left, top, width, height);
      r.points[0] == Point(left, top) &&
      Segments.Direction(SegmentAt(r, 0)) == Vector(0.0, height) &&
      Segments.Direction(SegmentAt(r, 1)) == Vector(width, 0.0) &&
      Segments.Direction(SegmentAt(r, 2)) == Vector(0.0, -height) &&
      Segments.Direction(SegmentAt(r, 3)) == Vector(-width, 0.0)
  {
  }

  /** A polygon without vertices has no edges, so it meets nothing and
      nothing meets it. */
  lemma EmptyNeverMeets(a: Polygon, b: Polygon)
    requires |a.points| == 0 || |b.points| == 0
    ensures !EdgesMeet(a, b)
  {
  }

  /** A polygon with a single vertex has one degenerate edge from that vertex
      to itself, which never intersects. */
  lemma SingleVertexNeverMeets(a: Polygon, b: Polygon)
    requires |a.points| == 1 || |b.points| == 1
    ensures !EdgesMeet(a, b)
  {
    forall i: nat, j: nat | i < |a.points| && j < |b.points|
      ensures !Segments.Intersects(SegmentAt(a, i), SegmentAt(b, j))
    {
      Segments.DegenerateNeverIntersects(SegmentAt(a, i), SegmentAt(b, j));
    }
  }

  /** v lies in the closed interval from lo to `lo + len`. */
  predicate Within(v: real, lo: real, len: real)
  {
    lo <= v <= lo + len
  }

  /** Edge i of one rectangle against edge j of another: a vertical edge
      (even i) reaches the line of a horizontal edge (odd j) when that line's
      height is within the first rectangle's height, a horizontal edge
      reaches the line of a vertical edge when that line's abscissa is within
      its width, and edges of the same orientation are parallel. */
  lemma RectEdgePair(l1: real, t1: real, w1: real, h1: real,
                     l2: real, t2: real, w2: real, h2: real, i: nat, j: nat)
    requires w1 > 0.0 && h1 > 0.0 && w2 > 0.0 && h2 > 0.0 && i < 4 && j < 4
    ensures var a, b := NewRect(l1, t1, w1, h1), NewRect(l2, t2, w2, h2);
      Segments.Intersects(SegmentAt(a, i), SegmentAt(b, j)) <==>
        if i % 2 == 0 && j == 1 then Within(t2 + h2, t1, h1)
        else if i % 2 == 0 && j == 3 then Within(t2, t1, h1)
        else if i % 2 == 1 && j == 0 then Within(l2, l1, w1)
        else if i % 2 == 1 && j == 2 then Within(l2 + w2, l1, w1)
        else false
  {
    var a, b := NewRect(l1, t1, w1, h1), NewRect(l2, t2, w2, h2);
    var s, o := SegmentAt(a, i), SegmentAt(b, j);
    if i % 2 == 0 && j % 2 == 1 {
      Segments.VerticalMeetsHorizontal(s, o);
    } else if i % 2 == 1 && j % 2 == 0 {
      Segments.HorizontalMeetsVertical(s, o);
    } else {
      Segments.AxisParallelNeverIntersects(s, o);
    }
  }

  /** Rectangle a meets rectangle b exactly when one of the four side lines
      of b passes through the extent of a: a horizontal side of b at a
      height within a's height, or a vertical side of b at an abscissa
      within a's width. A rectangle strictly inside b therefore does not
      meet b, while b does meet it. */
  lemma RectsMeetIff(l1: real, t1: real, w1: real, h1: real,
                     l2: real, t2: real, w2: real, h2: real)
    requires w1 > 0.0 && h1 > 0.0 && w2 > 0.0 && h2 > 0.0
    ensures EdgesMeet(NewRect(l1, t1, w1, h1), NewRect(l2, t2, w2, h2)) <==>
      Within(t2, t1, h1) || Within(t2 + h2, t1, h1) || Within(l2, l1, w1) || Within(l2 + w2, l1, w1)
  {
    var a, b := NewRect(l1, t1, w1, h1), NewRect(l2, t2, w2, h2);
    forall i: nat, j: nat | i < 4 && j < 4
      ensures Segments.Intersects(SegmentAt(a, i), SegmentAt(b, j)) ==>
        Within(t2, t1, h1) || Within(t2 + h2, t1, h1) || Within(l2, l1, w1) || Within(l2 + w2, l1, w1)
    {
      RectEdgePair(l1, t1, w1, h1, l2, t2, w2, h2, i, j);
    }
    RectEdgePair(l1, t1, w1, h1, l2, t2, w2, h2, 0, 3);
    RectEdgePair(l1, t1, w1, h1, l2, t2, w2, h2, 0, 1);
    RectEdgePair(l1, t1, w1, h1, l2, t2, w2, h2, 1, 0);
    RectEdgePair(l1, t1, w1, h1, l2, t2, w2, h2, 1, 2);
  }
}
