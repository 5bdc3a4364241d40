/** The benchmark driver: a square per integer offset, and the count of
    pairs of squares that intersect. */
module Driver {
  import opened Vectors
  import Segments
  import opened Polygons

  /** Rust's `i32`. */
  newtype int32 = x: int | -0x8000_0000 <= x < 0x8000_0000

  /** `make_rect`: the 100 by 100 square whose corner is (x, x). Converting an
      `i32` to `f64` is exact. */
  function MakeRect(x: int32): (p: Polygon)
    ensures |p.points| == 4 && p.points[0] == Point(x as real, x as real)
    ensures forall k: nat :: k < 4 ==> IsLength(Segments.Direction(SegmentAt(p, k)), 100.0)
  {
    var r := NewRect(x as real, x as real, 100.0, 100.0);
    RectEdges(x as real, x as real, 100.0, 100.0);
    r
  }

  /** Two of the benchmark squares meet exactly when their offsets differ by
      at most the side length 100. */
  lemma SquaresMeetIff(a: int32, b: int32)
    ensures EdgesMeet(MakeRect(a), MakeRect(b)) <==> -100 <= a as int - b as int <= 100
  {
    RectsMeetIff(a as real, a as real, 100.0, 100.0, b as real, b as real, 100.0, 100.0);
  }

  /** `(0..n).map(make_rect)`: the square with offset k at index k. */
  function Squares(n: nat): (ps: seq<Polygon>)
    requires n <= 0x8000_0000
    ensures |ps| == n
  {
    seq(n, (k: int) requires 0 <= k < n => MakeRect(k as int32))
  }

  /** Polygons meet when an edge of the first intersects an edge of the
      second, i.e. when `Polygon::intersects` returns true. */
  ghost function Meets(): (Polygon, Polygon) -> bool
  {
    (a: Polygon, b: Polygon) => EdgesMeet(a, b)
  }

  /** The index pairs `i < j` whose polygons meet. */
  ghost function MeetingPairs(polys: seq<Polygon>): set<(nat, nat)>
  {
    Pairs(polys, Meets())
  }

  /** The nested loop of `main`: tests every pair `i < j` once and counts the
      pairs that intersect. */
  method CountIntersections(polys: seq<Polygon>) returns (count: nat)
    ensures count == |MeetingPairs(polys)|
    ensures count <= |polys| * (|polys| - 1) / 2
  {
    count := 0;
    for i := 0 to |polys|
      invariant count == TriCount(polys, Meets(), i)
    {
      for j := i + 1 to |polys|
        invariant count == TriCount(polys, Meets(), i) + RowCount(polys, Meets(), i, j)
      {
        var meet := Intersects(polys[i], polys[j]);
        if meet {
          count := count + 1;
        }
      }
    }
    PairCountIsCardinality(polys, Meets());
    PairCountBound(polys, Meets());
  }

  // ---------------------------------------------------------------------
  // Counting pairs under an arbitrary relation

  /** The number of k with `i < k < j` such that `meets(xs[i], xs[k])`. */
  ghost function RowCount<T>(xs: seq<T>, meets: (T, T) -> bool, i: nat, j: nat): nat
    requires i < |xs| && j <= |xs|
    decreases j
  {
    if j <= i + 1 then 0
    else RowCount(xs, meets, i, j - 1) + (if meets(xs[i], xs[j - 1]) then 1 else 0)
  }

  /** The number of pairs `(i', k)` with `i' < i` and `i' < k` that meet. */
  ghost function TriCount<T>(xs: seq<T>, meets: (T, T) -> bool, i: nat): nat
    requires i <= |xs|
  {
    if i == 0 then 0 else TriCount(xs, meets, i - 1) + RowCount(xs, meets, i - 1, |xs|)
  }

  /** The index pairs `i < j` that meet. */
  ghost function Pairs<T>(xs: seq<T>, meets: (T, T) -> bool): set<(nat, nat)>
  {
    set i: nat, j: nat | i < j < |xs| && meets(xs[i], xs[j]) :: (i, j)
  }

  /** The pairs `(i, k)` with `i < k < j` that meet. */
  ghost function RowPairs<T>(xs: seq<T>, meets: (T, T) -> bool, i: nat, j: nat): set<(nat, nat)>
    requires i < |xs| && j <= |xs|
  {
    set k: nat | i < k < j && meets(xs[i], xs[k]) :: (i, k)
  }

  /** The pairs that meet whose first index is below i. */
  ghost function TriPairs<T>(xs: seq<T>, meets: (T, T) -> bool, i: nat): set<(nat, nat)>
    requires i <= |xs|
  {
    set i': nat, k: nat | i' < i && i' < k < |xs| && meets(xs[i'], xs[k]) :: (i', k)
  }

  lemma {:induction false} RowCountBound<T>(xs: seq<T>, meets: (T, T) -> bool, i: nat, j: nat)
    requires i < |xs| && j <= |xs|
    ensures j > i ==> RowCount(xs, meets, i, j) <= j - i - 1
    decreases j
  {
    if j > i + 1 {
      RowCountBound(xs, meets, i, j - 1);
    }
  }

  lemma {:induction false} TriCountBound<T>(xs: seq<T>, meets: (T, T) -> bool, i: nat)
    requires i <= |xs|
    ensures 2 * TriCount(xs, meets, i) <= i * (2 * |xs| - i - 1)
  {
    if i > 0 {
      var n := |xs|;
      TriCountBound(xs, meets, i - 1);
      RowCountBound(xs, meets, i - 1, n);
      assert (i - 1) * (2 * n - (i - 1) - 1) + 2 * (n - i) == i * (2 * n - i - 1);
    }
  }

  /** At most every one of the `n * (n - 1) / 2` pairs meets. */
  lemma PairCountBound<T>(xs: seq<T>, meets: (T, T) -> bool)
    ensures TriCount(xs, meets, |xs|) <= |xs| * (|xs| - 1) / 2
  {
    TriCountBound(xs, meets, |xs|);
  }

  lemma {:induction false} RowCountIsCardinality<T>(xs: seq<T>, meets: (T, T) -> bool, i: nat, j: nat)
    requires i < |xs| && j <= |xs|
    ensures RowCount(xs, meets, i, j) == |RowPairs(xs, meets, i, j)|
    decreases j
  {
    if j <= i + 1 {
      assert RowPairs(xs, meets, i, j) == {};
    } else {
      var prev := RowPairs(xs, meets, i, j - 1);
      RowCountIsCardinality(xs, meets, i, j - 1);
      if meets(xs[i], xs[j - 1]) {
        assert RowPairs(xs, meets, i, j) == prev + {(i, j - 1)};
        assert (i, j - 1) !in prev;
      } else {
        assert RowPairs(xs, meets, i, j) == prev;
      }
    }
  }

  lemma {:induction false} TriCountIsCardinality<T>(xs: seq<T>, meets: (T, T) -> bool, i: nat)
    requires i <= |xs|
    ensures TriCount(xs, meets, i) == |TriPairs(xs, meets, i)|
  {
    if i == 0 {
      assert TriPairs(xs, meets, i) == {};
    } else {
      var prev, row := TriPairs(xs, meets, i - 1), RowPairs(xs, meets, i - 1, |xs|);
      TriCountIsCardinality(xs, meets, i - 1);
      RowCountIsCardinality(xs, meets, i - 1, |xs|);
      assert TriPairs(xs, meets, i) == prev + row;
      forall p | p in row
        ensures p !in prev
      {
      }
      DisjointUnionCardinality(prev, row);
    }
  }

  lemma {:induction false} DisjointUnionCardinality<T>(a: set<T>, b: set<T>)
    requires a * b == {}
    ensures |a + b| == |a| + |b|
    decreases |b|
  {
    if b != {} {
      var x :| x in b;
      var b' := b - {x};
      DisjointUnionCardinality(a, b');
      assert a + b == (a + b') + {x};
      assert x !in a + b';
    } else {
      assert a + b == a;
    }
  }

  /** The recursive count is the number of meeting pairs `i < j`. */
  lemma PairCountIsCardinality<T>(xs: seq<T>, meets: (T, T) -> bool)
    ensures TriCount(xs, meets, |xs|) == |Pairs(xs, meets)|
  {
    TriCountIsCardinality(xs, meets, |xs|);
    assert TriPairs(xs, meets, |xs|) == Pairs(xs, meets);
  }
  // ---------------------------------------------------------------------
  // The count of the benchmark

  /** With `n` squares `n >= 100` of them, square i meets square k exactly
      when `k - i <= 100`, so `n * 100 - 5050` pairs intersect. */
  lemma {:induction false} SquaresCount(n: nat)
    requires 100 <= n <= 0x8000_0000
    ensures |MeetingPairs(Squares(n))| == 100 * n - 5050
  {
    var xs := Squares(n);
    forall i: nat, k: nat | i < k < n
      ensures Meets()(xs[i], xs[k]) <==> k - i <= 100
    {
      SquaresMeetIff(i as int32, k as int32);
    }
    TriCountWindow(xs, Meets(), 100, n);
    PairCountIsCardinality(xs, Meets());
  }

  /** The thousand squares of `main` give 94950 intersecting pairs. */
  lemma MainCount()
    ensures |MeetingPairs(Squares(1000))| == 94950
  {
    SquaresCount(1000);
  }

  /** Twice the number of pairs `(i', k)`, `i' < i`, when exactly the pairs
      less than `w` apart meet. */
  function WindowCount2(n: int, w: int, i: int): int
  {
    if i <= n - w then 2 * w * i
    else 2 * w * (n - w) + w * (w - 1) - (n - i) * (n - i - 1)
  }

  lemma {:induction false} RowCountWindow<T>(xs: seq<T>, meets: (T, T) -> bool, w: nat, i: nat, j: nat)
    requires i < |xs| && j <= |xs|
    requires forall k: nat :: i < k < |xs| ==> (meets(xs[i], xs[k]) <==> k - i <= w)
    ensures j > i ==> RowCount(xs, meets, i, j) == if j - 1 - i <= w then j - 1 - i else w
    decreases j
  {
    if j > i + 1 {
      RowCountWindow(xs, meets, w, i, j - 1);
    }
  }

  /** When exactly the pairs at most w apart meet, the pairs below row i
      number `WindowCount2(|xs|, w, i) / 2`. */
  lemma {:induction false} TriCountWindow<T>(xs: seq<T>, meets: (T, T) -> bool, w: nat, i: nat)
    requires 0 < w <= |xs| && i <= |xs|
    requires forall i': nat, k: nat :: i' < k < |xs| ==> (meets(xs[i'], xs[k]) <==> k - i' <= w)
    ensures 2 * TriCount(xs, meets, i) == WindowCount2(|xs|, w, i)
  {
    var n := |xs|;
    if i > 0 {
      TriCountWindow(xs, meets, w, i - 1);
      RowCountWindow(xs, meets, w, i - 1, n);
      WindowStep(n, w, i);
    }
  }

  /** Row `i - 1` adds `min(w, n - i)` pairs. */
  lemma WindowStep(n: int, w: int, i: int)
    requires 0 < w <= n && 0 < i <= n
    ensures WindowCount2(n, w, i - 1) + 2 * (if n - i <= w then n - i else w) == WindowCount2(n, w, i)
  {
    if i <= n - w {
      assert 2 * w * (i - 1) + 2 * w == 2 * w * i;
    } else if i - 1 <= n - w {
      assert n - i == w - 1;
      assert w * (w - 1) - (w - 1) * (w - 2) == 2 * (w - 1);
    } else {
      assert (n - i + 1) * (n - i) - 2 * (n - i) == (n - i) * (n - i - 1);
    }
  }
}
