/** Two-stage polyline simplification: radial thinning, then Douglas-Peucker. */
module Simplify {
  import opened Geometry
  import opened Sequences

  function Inner(x1: real, y1: real, x2: real, y2: real): real {
    x1 * x2 + y1 * y2
  }

  function SqDist(p: Point, q: Point): real {
    Inner(p.x - q.x, p.y - q.y, p.x - q.x, p.y - q.y)
  }

  /** The squared distance is that of Pythagoras. */
  lemma SqDistIs(p: Point, q: Point)
    ensures SqDist(p, q) == (p.x - q.x) * (p.x - q.x) + (p.y - q.y) * (p.y - q.y)
  {
  }

  /** The point of the segment from `a` to `b` that is closest to `p`. */
  function ClosestOnSegment(p: Point, a: Point, b: Point): Point {
    var dx, dy := b.x - a.x, b.y - a.y;
    var dot := Inner(dx, dy, dx, dy);
    if dot > 0.0 then
      var t := Inner(p.x - a.x, p.y - a.y, dx, dy) / dot;
      if t > 1.0 then b
      else if t > 0.0 then Point(a.x + dx * t, a.y + dy * t)
      else a
    else
      a
  }

  function SqSegmentDist(p: Point, a: Point, b: Point): real {
    SqDist(p, ClosestOnSegment(p, a, b))
  }

  // The closest point is on the segment, and no point of the segment is closer.

  /** The dot product of the offset of `p` from `a` with the direction of the segment. */
  function Dot(p: Point, a: Point, b: Point): real {
    Inner(p.x - a.x, p.y - a.y, b.x - a.x, b.y - a.y)
  }

  /** The squared length of `w - s * d` is a quadratic in `s`. */
  lemma SquareOfSum(wx: real, wy: real, dx: real, dy: real, s: real, vx: real, vy: real)
    requires vx == wx - s * dx && vy == wy - s * dy
    ensures vx * vx + vy * vy == wx * wx + wy * wy - 2.0 * (s * (wx * dx + wy * dy)) + s * s * (dx * dx + dy * dy)
  {
    Quadratic(wx, dx, s, vx);
    Quadratic(wy, dy, s, vy);
    SumOfAxes(s, s * s, vx * vx, vy * vy, wx * wx, wy * wy, wx * dx, wy * dy, dx * dx, dy * dy);
  }

  lemma SumOfAxes(s: real, ss: real, vx: real, vy: real, wx: real, wy: real, cx: real, cy: real, ex: real, ey: real)
    requires vx == wx - 2.0 * (s * cx) + ss * ex && vy == wy - 2.0 * (s * cy) + ss * ey
    ensures vx + vy == wx + wy - 2.0 * (s * (cx + cy)) + ss * (ex + ey)
  {
    Distribute(cx, cy, s);
    Distribute(ex, ey, ss);
  }

  lemma Quadratic(w: real, d: real, s: real, v: real)
    requires v == w - s * d
    ensures v * v == w * w - 2.0 * (s * (w * d)) + s * s * (d * d)
  {
    var k := s * d;
    assert v * v == w * w - 2.0 * (w * k) + k * k;
    assert w * k == s * (w * d);
    assert k * k == s * s * (d * d);
  }

  /** The parameter of the closest point: that of the foot of the perpendicular, clamped to the segment. */
  function ClosestParameter(c: real, dot: real): real {
    if dot > 0.0 then
      var t := c / dot;
      if t > 1.0 then 1.0 else if t > 0.0 then t else 0.0
    else
      0.0
  }

  lemma ClosestIsLerp(p: Point, a: Point, b: Point)
    ensures ClosestOnSegment(p, a, b) == Lerp(a, b, ClosestParameter(Dot(p, a, b), Dot(b, a, b)))
  {
  }

  lemma Clamped(c: real, dot: real, t: real)
    requires dot > 0.0 && t == ClosestParameter(c, dot)
    ensures 0.0 <= t <= 1.0
    ensures 0.0 < t < 1.0 ==> c == t * dot
    ensures t == 0.0 ==> c <= 0.0
    ensures t == 1.0 ==> c >= dot
  {
    var u := c / dot;
    assert u * dot == c;
    SignOfProduct(u, dot, c);
    SignOfProduct(u - 1.0, dot, c - dot);
  }

  lemma SquareIsNonNegative(d: real)
    ensures d * d >= 0.0
  {
  }

  /** The quadratic at `s` is no less than at the clamped vertex `t`. */
  lemma ClampedIsLeast(s: real, t: real, c: real, dot: real)
    requires 0.0 <= s <= 1.0 && dot > 0.0 && t == ClosestParameter(c, dot)
    ensures s * s * dot - 2.0 * (s * c) >= t * t * dot - 2.0 * (t * c)
  {
    Clamped(c, dot, t);
    if 0.0 < t < 1.0 {
      var gap := s - t;
      SquareIsNonNegative(gap);
      ProductIsMonotone(0.0, gap * gap, dot);
      SquareScaled(s, t, dot);
      assert s * (t * dot) == s * c && t * (t * dot) == t * c;
    } else if t == 0.0 {
      SquareIsNonNegative(s);
      ProductIsMonotone(0.0, s * s, dot);
      ProductIsMonotone(c, 0.0, s);
    } else {
      var rest := 1.0 - s;
      ProductIsMonotone(dot, c, rest);
      assert rest * c == c - s * c && rest * dot == dot - s * dot;
      SquareIsNonNegative(rest);
      ProductIsMonotone(0.0, rest * rest, dot);
      SquareScaled(1.0, s, dot);
    }
  }

  lemma SquareScaled(s: real, t: real, dot: real)
    ensures (s - t) * (s - t) * dot == s * s * dot - 2.0 * (s * (t * dot)) + t * (t * dot)
  {
    var k := s * t;
    assert (s - t) * (s - t) == s * s - 2.0 * k + t * t;
    Distribute(s * s - 2.0 * k, t * t, dot);
    Distribute(s * s, -2.0 * k, dot);
    assert k * dot == s * (t * dot) && t * t * dot == t * (t * dot);
  }

  /** The distance used is the distance to the segment: attained on it, and least over it. */
  lemma ClosestIsNearest(p: Point, a: Point, b: Point, q: Point)
    ensures var c := ClosestOnSegment(p, a, b);
            OnSegment(a, b, c) && SqSegmentDist(p, a, b) == (p.x - c.x) * (p.x - c.x) + (p.y - c.y) * (p.y - c.y)
    ensures OnSegment(a, b, q) ==>
              SqSegmentDist(p, a, b) <= (p.x - q.x) * (p.x - q.x) + (p.y - q.y) * (p.y - q.y)
  {
    hide Inner, SqDist;
    SqDistIs(p, ClosestOnSegment(p, a, b));
    SqDistIs(p, q);
    var c, dot := Dot(p, a, b), Dot(b, a, b);
    var t := ClosestParameter(c, dot);
    ClosestIsLerp(p, a, b);
    if dot > 0.0 {
      Clamped(c, dot, t);
    }
    if OnSegment(a, b, q) {
      var s :| 0.0 <= s <= 1.0 && q == Lerp(a, b, s);
      NearestParameter(p, a, b, s, t, ClosestOnSegment(p, a, b), q);
    }
  }

  lemma NearestParameter(p: Point, a: Point, b: Point, s: real, t: real, q: Point, r: Point)
    requires 0.0 <= s <= 1.0 && t == ClosestParameter(Dot(p, a, b), Dot(b, a, b))
    requires q == Lerp(a, b, t) && r == Lerp(a, b, s)
    ensures SqDist(p, q) <= SqDist(p, r)
  {
    hide Inner;
    var wx, wy, dx, dy := p.x - a.x, p.y - a.y, b.x - a.x, b.y - a.y;
    NearestAlong(wx, wy, dx, dy, Dot(p, a, b), Dot(b, a, b), s, t, p.x - r.x, p.y - r.y, p.x - q.x, p.y - q.y);
  }

  lemma NearestAlong(wx: real, wy: real, dx: real, dy: real, c: real, dot: real,
                     s: real, t: real, vx: real, vy: real, ux: real, uy: real)
    requires c == Inner(wx, wy, dx, dy) && dot == Inner(dx, dy, dx, dy)
    requires 0.0 <= s <= 1.0 && t == ClosestParameter(c, dot)
    requires vx == wx - s * dx && vy == wy - s * dy && ux == wx - t * dx && uy == wy - t * dy
    ensures Inner(ux, uy, ux, uy) <= Inner(vx, vy, vx, vy)
  {
    if dot > 0.0 {
      SquareOfSum(wx, wy, dx, dy, s, vx, vy);
      SquareOfSum(wx, wy, dx, dy, t, ux, uy);
      ClampedIsLeast(s, t, c, dot);
    } else {
      ZeroSquares(dx, dy, dx * dx, dy * dy);
    }
  }

  lemma ZeroSquares(dx: real, dy: real, sx: real, sy: real)
    requires sx == dx * dx && sy == dy * dy && sx + sy <= 0.0
    ensures dx == 0.0 && dy == 0.0
  {
    SquareIsNonNegative(dx);
    SquareIsNonNegative(dy);
    if dx != 0.0 {
      SignOfProduct(if dx > 0.0 then dx else -dx, if dx > 0.0 then dx else -dx, sx);
    }
    if dy != 0.0 {
      SignOfProduct(if dy > 0.0 then dy else -dy, if dy > 0.0 then dy else -dy, sy);
    }
  }

  // First stage: keep a point only when it is far enough from the last one kept.

  predicate Near(points: seq<Point>, sqTolerance: real, i: nat, o: nat)
    requires i < |points| && o < |points|
  {
    SqDist(points[i], points[o]) <= sqTolerance
  }

  /** From the kept point `o` to the next kept one `n`: all points between are near `o`. */
  ghost predicate Hop(points: seq<Point>, sqTolerance: real, o: nat, n: nat) {
    o < n < |points| && forall i: nat | o < i < n :: Near(points, sqTolerance, i, o)
  }

  /** `kept` are the indices that radial thinning keeps: the first, greedily each that is not near the last one kept, and the last. */
  ghost predicate Thinned(points: seq<Point>, sqTolerance: real, kept: seq<nat>) {
    && |kept| > 0 && kept[0] == 0 && kept[|kept| - 1] == |points| - 1
    && (forall j | 0 < j < |kept| :: Hop(points, sqTolerance, kept[j - 1], kept[j]))
    && (forall j | 0 < j < |kept| - 1 :: !Near(points, sqTolerance, kept[j], kept[j - 1]))
  }

  lemma {:induction false} Increasing(points: seq<Point>, sqTolerance: real, kept: seq<nat>, i: nat, j: nat)
    requires i < j < |kept| && forall j | 0 < j < |kept| :: Hop(points, sqTolerance, kept[j - 1], kept[j])
    ensures kept[i] < kept[j]
    decreases j
  {
    assert Hop(points, sqTolerance, kept[j - 1], kept[j]);
    if i < j - 1 {
      Increasing(points, sqTolerance, kept, i, j - 1);
    }
  }

  /** These conditions determine what is kept. */
  lemma {:induction false} ThinnedIsUnique(points: seq<Point>, sqTolerance: real, k1: seq<nat>, k2: seq<nat>, j: nat)
    requires Thinned(points, sqTolerance, k1) && Thinned(points, sqTolerance, k2) && j < |k1|
    ensures j < |k2| && k1[j] == k2[j]
  {
    if j > 0 {
      ThinnedIsUnique(points, sqTolerance, k1, k2, j - 1);
      assert Hop(points, sqTolerance, k1[j - 1], k1[j]);
      if j < |k2| {
        assert Hop(points, sqTolerance, k2[j - 1], k2[j]);
        if k1[j] < k2[j] {
          BeforeTheEnd(points, sqTolerance, k1, j, k2[j]);
        } else if k2[j] < k1[j] {
          BeforeTheEnd(points, sqTolerance, k2, j, k1[j]);
        }
      }
    }
  }

  lemma BeforeTheEnd(points: seq<Point>, sqTolerance: real, kept: seq<nat>, j: nat, later: nat)
    requires Thinned(points, sqTolerance, kept) && 0 < j < |kept| && kept[j] < later < |points|
    ensures j < |kept| - 1 && kept[j] < |points| && kept[j - 1] < |points| && !Near(points, sqTolerance, kept[j], kept[j - 1])
  {
    assert Hop(points, sqTolerance, kept[j - 1], kept[j]);
  }

  function Select(points: seq<Point>, kept: seq<nat>): seq<Point>
    requires forall j | 0 <= j < |kept| :: kept[j] < |points|
  {
    seq(|kept|, j requires 0 <= j < |kept| => points[kept[j]])
  }

  /** The first stage comes to the points at these indices. */
  ghost predicate ThinsTo(points: seq<Point>, sqTolerance: real, kept: seq<nat>, reduced: seq<Point>) {
    && Thinned(points, sqTolerance, kept) && (forall j | 0 <= j < |kept| :: kept[j] < |points|)
    && reduced == Select(points, kept)
  }

  method ReducePoints(points: seq<Point>, sqTolerance: real) returns (reduced: seq<Point>)
    requires points != []
    ensures reduced != [] && exists kept :: ThinsTo(points, sqTolerance, kept, reduced)
  {
    hide Inner;
    ghost var kept: seq<nat>;
    reduced, kept := [points[0]], [0];
    var o := 0;
    var n := 1;
    while n < |points|
      invariant o < n <= |points|
      invariant |kept| > 0 && kept[0] == 0 && kept[|kept| - 1] == o
      invariant forall j | 0 <= j < |kept| :: kept[j] < |points|
      invariant forall j | 0 < j < |kept| :: Hop(points, sqTolerance, kept[j - 1], kept[j])
      invariant forall j | 0 < j < |kept| :: !Near(points, sqTolerance, kept[j], kept[j - 1])
      invariant forall i: nat | o < i < n :: Near(points, sqTolerance, i, o)
      invariant reduced == Select(points, kept)
    {
      if SqDist(points[n], points[o]) > sqTolerance {
        assert Hop(points, sqTolerance, o, n);
        reduced, kept := reduced + [points[n]], kept + [n];
        o := n;
      }
      n := n + 1;
    }
    if o < |points| - 1 {
      assert Hop(points, sqTolerance, o, |points| - 1);
      reduced, kept := reduced + [points[|points| - 1]], kept + [|points| - 1];
    }
    assert ThinsTo(points, sqTolerance, kept, reduced);
  }

  // Second stage: split at the farthest point while it is out of tolerance.

  /** The first of the interior points that are farthest from the segment between the ends. */
  ghost predicate IsFarthest(points: seq<Point>, first: nat, last: nat, r: nat)
    requires first < |points| && last < |points|
  {
    && first < r < last
    && (forall i: nat | first < i < last :: SqSegmentDist(points[i], points[first], points[last])
                                            <= SqSegmentDist(points[r], points[first], points[last]))
    && (forall i: nat | first < i < r :: SqSegmentDist(points[i], points[first], points[last])
                                         < SqSegmentDist(points[r], points[first], points[last]))
  }

  ghost predicate AllNear(points: seq<Point>, sqTolerance: real, first: nat, last: nat)
    requires first < |points| && last < |points|
  {
    forall i: nat | first < i < last :: SqSegmentDist(points[i], points[first], points[last]) <= sqTolerance
  }

  /** The marks between two ends are those of the recursive splitting. */
  ghost predicate Split(points: seq<Point>, marks: seq<bool>, sqTolerance: real, first: nat, last: nat)
    requires first <= last < |points| == |marks|
    decreases last - first
  {
    if AllNear(points, sqTolerance, first, last) then
      forall i | first < i < last :: !marks[i]
    else
      exists r: nat | first < r < last ::
        IsFarthest(points, first, last, r) && marks[r]
        && Split(points, marks, sqTolerance, first, r) && Split(points, marks, sqTolerance, r, last)
  }

  /** Only the marks strictly between the ends matter. */
  lemma {:induction false} SplitIsLocal(points: seq<Point>, m1: seq<bool>, m2: seq<bool>, sqTolerance: real, first: nat, last: nat)
    requires first <= last < |points| == |m1| == |m2| && Split(points, m1, sqTolerance, first, last)
    requires forall i | first < i < last :: m1[i] == m2[i]
    ensures Split(points, m2, sqTolerance, first, last)
    decreases last - first
  {
    if !AllNear(points, sqTolerance, first, last) {
      var r := SplitPoint(points, m1, sqTolerance, first, last);
      SplitIsLocal(points, m1, m2, sqTolerance, first, r);
      SplitIsLocal(points, m1, m2, sqTolerance, r, last);
    }
  }

  lemma FarthestIsUnique(points: seq<Point>, first: nat, last: nat, r1: nat, r2: nat)
    requires first < |points| && last < |points| && IsFarthest(points, first, last, r1) && IsFarthest(points, first, last, r2)
    ensures r1 == r2
  {
    hide SqSegmentDist;
    var a, b := points[first], points[last];
    var d1, d2 := SqSegmentDist(points[r1], a, b), SqSegmentDist(points[r2], a, b);
    assert d1 <= d2 <= d1;
  }

  /** The splitting determines the marks. */
  lemma {:induction false} SplitIsUnique(points: seq<Point>, m1: seq<bool>, m2: seq<bool>, sqTolerance: real, first: nat, last: nat)
    requires first <= last < |points| == |m1| == |m2|
    requires Split(points, m1, sqTolerance, first, last) && Split(points, m2, sqTolerance, first, last)
    ensures forall i | first < i < last :: m1[i] == m2[i]
    decreases last - first
  {
    hide IsFarthest;
    if !AllNear(points, sqTolerance, first, last) {
      hide Split;
      var r1 := SplitPoint(points, m1, sqTolerance, first, last);
      var r2 := SplitPoint(points, m2, sqTolerance, first, last);
      FarthestIsUnique(points, first, last, r1, r2);
      SplitIsUnique(points, m1, m2, sqTolerance, first, r1);
      SplitIsUnique(points, m1, m2, sqTolerance, r1, last);
    }
  }

  lemma SplitPoint(points: seq<Point>, marks: seq<bool>, sqTolerance: real, first: nat, last: nat) returns (r: nat)
    requires first <= last < |points| == |marks|
    requires Split(points, marks, sqTolerance, first, last) && !AllNear(points, sqTolerance, first, last)
    ensures first < r < last && IsFarthest(points, first, last, r) && marks[r]
    ensures Split(points, marks, sqTolerance, first, r) && Split(points, marks, sqTolerance, r, last)
  {
    r :| first < r < last && IsFarthest(points, first, last, r) && marks[r]
         && Split(points, marks, sqTolerance, first, r) && Split(points, marks, sqTolerance, r, last);
  }

  /**
   * Of the points between two ends, the first one farthest from the segment is marked if it is out of
   * tolerance, and it divides the rest; if it is not, none is marked.
   */
  lemma FarthestIsMarked(points: seq<Point>, marks: seq<bool>, sqTolerance: real, first: nat, last: nat, r: nat)
    requires first < r < last < |points| == |marks| && Split(points, marks, sqTolerance, first, last)
    requires forall i :: first < i < last ==>
               SqSegmentDist(points[i], points[first], points[last]) <= SqSegmentDist(points[r], points[first], points[last])
    requires forall i :: first < i < r ==>
               SqSegmentDist(points[i], points[first], points[last]) < SqSegmentDist(points[r], points[first], points[last])
    ensures SqSegmentDist(points[r], points[first], points[last]) > sqTolerance ==>
              marks[r] && Split(points, marks, sqTolerance, first, r) && Split(points, marks, sqTolerance, r, last)
    ensures SqSegmentDist(points[r], points[first], points[last]) <= sqTolerance ==>
              forall i :: first < i < last ==> !marks[i]
  {
    hide SqSegmentDist;
    if SqSegmentDist(points[r], points[first], points[last]) > sqTolerance {
      var f := SplitPoint(points, marks, sqTolerance, first, last);
      FarthestIsUnique(points, first, last, r, f);
    } else {
      assert AllNear(points, sqTolerance, first, last);
    }
  }

  /** A dropped point is within tolerance of the segment between its nearest kept neighbours `l` and `h`. */
  lemma {:induction false} DroppedIsNear(points: seq<Point>, marks: seq<bool>, sqTolerance: real, first: nat, last: nat,
                                         l: nat, i: nat, h: nat)
    requires first <= last < |points| == |marks| && Split(points, marks, sqTolerance, first, last)
    requires first <= l < i < h <= last
    requires (l == first || marks[l]) && (h == last || marks[h]) && forall k | l < k < h :: !marks[k]
    ensures SqSegmentDist(points[i], points[l], points[h]) <= sqTolerance
    decreases last - first
  {
    if !AllNear(points, sqTolerance, first, last) {
      var r := SplitPoint(points, marks, sqTolerance, first, last);
      if h <= r {
        DroppedIsNear(points, marks, sqTolerance, first, r, l, i, h);
      } else {
        assert r <= l;
        DroppedIsNear(points, marks, sqTolerance, r, last, l, i, h);
      }
    }
  }

  function Marks(markers: seq<int>): (marks: seq<bool>)
    ensures |marks| == |markers|
  {
    seq(|markers|, i requires 0 <= i < |markers| => markers[i] != 0)
  }

  method SplitStep(points: seq<Point>, markers: array<int>, sqTolerance: real, first: nat, last: nat)
    requires first <= last < |points| == markers.Length && 0.0 <= sqTolerance
    requires forall i | first < i < last :: markers[i] == 0
    modifies markers
    ensures forall i | 0 <= i < markers.Length && !(first < i < last) :: markers[i] == old(markers[i])
    ensures forall i | 0 <= i < markers.Length :: markers[i] == 1 || markers[i] == old(markers[i])
    ensures Split(points, Marks(markers[..]), sqTolerance, first, last)
    decreases last - first
  {
    var maxSqDist := 0.0;
    var index := first;
    var i := first + 1;
    while i < last
      invariant first < i && (i <= last || i == first + 1)
      invariant 0.0 <= maxSqDist
      invariant forall k: nat | first < k < i && k < last :: SqSegmentDist(points[k], points[first], points[last]) <= maxSqDist
      invariant maxSqDist > 0.0 ==> first < index < i && maxSqDist == SqSegmentDist(points[index], points[first], points[last])
      invariant maxSqDist > 0.0 ==> forall k: nat | first < k < index :: SqSegmentDist(points[k], points[first], points[last]) < maxSqDist
    {
      var sqDist := SqSegmentDist(points[i], points[first], points[last]);
      if maxSqDist < sqDist {
        index, maxSqDist := i, sqDist;
      }
      i := i + 1;
    }
    if sqTolerance < maxSqDist {
      markers[index] := 1;
      SplitStep(points, markers, sqTolerance, first, index);
      ghost var left := Marks(markers[..]);
      SplitStep(points, markers, sqTolerance, index, last);
      ghost var marks := Marks(markers[..]);
      SplitIsLocal(points, left, marks, sqTolerance, first, index);
      assert IsFarthest(points, first, last, index) && marks[index];
    }
  }

  // Both stages.

  /** The marked points, in order. */
  function Marked(points: seq<Point>, marks: seq<bool>): seq<Point>
    requires |points| == |marks|
  {
    if points == [] then []
    else
      var n := |points| - 1;
      var rest := Marked(points[..n], marks[..n]);
      if marks[n] then rest + [points[n]] else rest
  }

  lemma MarkedNext(points: seq<Point>, marks: seq<bool>, s: nat)
    requires s < |points| == |marks|
    ensures Marked(points[..s + 1], marks[..s + 1]) == Marked(points[..s], marks[..s]) + if marks[s] then [points[s]] else []
  {
    assert points[..s + 1][..s] == points[..s] && marks[..s + 1][..s] == marks[..s];
  }

  /** The second stage comes to the points with these marks. */
  ghost predicate SplitsTo(points: seq<Point>, sqTolerance: real, marks: seq<bool>, out: seq<Point>) {
    && 0 < |points| == |marks| && marks[0] && marks[|marks| - 1]
    && Split(points, marks, sqTolerance, 0, |points| - 1)
    && out == Marked(points, marks)
  }

  /** What the two stages select, and nothing else. */
  ghost predicate Simplified(points: seq<Point>, sqTolerance: real, kept: seq<nat>, marks: seq<bool>, out: seq<Point>) {
    && Thinned(points, sqTolerance, kept) && (forall j | 0 <= j < |kept| :: kept[j] < |points|)
    && SplitsTo(Select(points, kept), sqTolerance, marks, out)
  }

  ghost predicate IsSimplification(points: seq<Point>, sqTolerance: real, out: seq<Point>) {
    exists kept, marks :: Simplified(points, sqTolerance, kept, marks, out)
  }

  /** There is one result only. */
  lemma SimplificationIsUnique(points: seq<Point>, sqTolerance: real, out1: seq<Point>, out2: seq<Point>)
    requires IsSimplification(points, sqTolerance, out1) && IsSimplification(points, sqTolerance, out2)
    ensures out1 == out2
  {
    hide Thinned, Split, Marked;
    var k1, m1 :| Simplified(points, sqTolerance, k1, m1, out1);
    var k2, m2 :| Simplified(points, sqTolerance, k2, m2, out2);
    SameThinning(points, sqTolerance, k1, k2);
    var reduced := Select(points, k1);
    SplitIsUnique(reduced, m1, m2, sqTolerance, 0, |k1| - 1);
    assert m1 == m2;
  }

  lemma SameThinning(points: seq<Point>, sqTolerance: real, k1: seq<nat>, k2: seq<nat>)
    requires Thinned(points, sqTolerance, k1) && Thinned(points, sqTolerance, k2)
    ensures k1 == k2
  {
    ThinnedIsUnique(points, sqTolerance, k2, k1, |k2| - 1);
    forall j: nat | j < |k1| ensures j < |k2| && k1[j] == k2[j] {
      ThinnedIsUnique(points, sqTolerance, k1, k2, j);
    }
    assert |k1| - 1 < |k2|;
  }

  /** Without a tolerance or points a copy; else what the stages select, a subsequence with the same ends. */
  method Simplify(points: seq<Point>, tolerance: real) returns (out: seq<Point>)
    ensures tolerance == 0.0 || points == [] ==> out == points
    ensures tolerance != 0.0 && points != [] ==>
              IsSimplification(points, tolerance * tolerance, out)
    ensures IsSubsequence(out, points)
    ensures points != [] ==> out != [] && out[0] == points[0] && out[|out| - 1] == points[|points| - 1]
  {
    hide Thinned, Split, Marked, IsSubsequence;
    if tolerance == 0.0 || points == [] {
      SubsequenceRefl(points);
      return points;
    }
    var sqTolerance := tolerance * tolerance;
    SquareIsNonNegative(tolerance);
    var reduced := ReducePoints(points, sqTolerance);
    out := SplitPoints(reduced, sqTolerance);
    ghost var kept :| ThinsTo(points, sqTolerance, kept, reduced);
    ghost var marks :| SplitsTo(reduced, sqTolerance, marks, out);
    assert Simplified(points, sqTolerance, kept, marks, out);
    SimplifiedIsSubsequence(points, sqTolerance, kept, marks, out);
  }

  /** The second stage: mark the ends, split, and collect what is marked. */
  method SplitPoints(points: seq<Point>, sqTolerance: real) returns (out: seq<Point>)
    requires points != [] && 0.0 <= sqTolerance
    ensures exists marks :: SplitsTo(points, sqTolerance, marks, out)
  {
    hide Split;
    var n := |points|;
    var markers := new int[n](_ => 0);
    markers[0], markers[n - 1] := 1, 1;
    SplitStep(points, markers, sqTolerance, 0, n - 1);
    ghost var marks := Marks(markers[..]);
    out := [];
    for s := 0 to n
      invariant marks == Marks(markers[..]) && out == Marked(points[..s], marks[..s])
    {
      MarkedNext(points, marks, s);
      if markers[s] != 0 {
        out := out + [points[s]];
      }
    }
    assert points[..n] == points && marks[..n] == marks;
    assert SplitsTo(points, sqTolerance, marks, out);
  }

  lemma {:induction false} MarkedIsSubsequence(points: seq<Point>, marks: seq<bool>)
    requires |points| == |marks|
    ensures IsSubsequence(Marked(points, marks), points)
  {
    if points != [] {
      var n := |points| - 1;
      MarkedIsSubsequence(points[..n], marks[..n]);
      assert points == points[..n] + [points[n]];
      if marks[n] {
        SubsequenceKeep(Marked(points[..n], marks[..n]), points[..n], points[n]);
      } else {
        SubsequenceSkip(Marked(points[..n], marks[..n]), points[..n], points[n]);
      }
    }
  }

  lemma {:induction false} MarkedEnds(points: seq<Point>, marks: seq<bool>)
    requires 0 < |points| == |marks| && marks[0]
    ensures var out := Marked(points, marks);
            out != [] && out[0] == points[0] && (marks[|marks| - 1] ==> out[|out| - 1] == points[|points| - 1])
  {
    var n := |points| - 1;
    if n > 0 {
      MarkedEnds(points[..n], marks[..n]);
    } else {
      assert Marked(points[..0], marks[..0]) == [];
    }
  }

  lemma {:induction false} SelectIsSubsequence(points: seq<Point>, kept: seq<nat>, n: nat)
    requires n <= |points| && forall j | 0 <= j < |kept| :: kept[j] < n
    requires forall i, j | 0 <= i < j < |kept| :: kept[i] < kept[j]
    ensures IsSubsequence(Select(points, kept), points[..n])
  {
    if kept != [] {
      var m := |kept| - 1;
      assert kept[m] < n;
      assert points[..n][..n - 1] == points[..n - 1];
      if kept[m] == n - 1 {
        SelectIsSubsequence(points, kept[..m], n - 1);
        assert Select(points, kept)[..m] == Select(points, kept[..m]);
        assert points[..n][n - 1] == Select(points, kept)[m];
      } else {
        assert forall j | 0 <= j < |kept| :: kept[j] < n - 1 by {
          assert forall j | 0 <= j < m :: kept[j] < kept[m];
        }
        SelectIsSubsequence(points, kept, n - 1);
      }
    }
  }

  /** The result is a subsequence of the input with the same ends. */
  lemma SimplifiedIsSubsequence(points: seq<Point>, sqTolerance: real, kept: seq<nat>, marks: seq<bool>, out: seq<Point>)
    requires Simplified(points, sqTolerance, kept, marks, out)
    ensures IsSubsequence(out, points)
    ensures points != [] && out != [] && out[0] == points[0] && out[|out| - 1] == points[|points| - 1]
  {
    hide Split, IsSubsequence, Marked, Near;
    var reduced := Select(points, kept);
    forall i, j | 0 <= i < j < |kept|
      ensures kept[i] < kept[j]
    {
      Increasing(points, sqTolerance, kept, i, j);
    }
    SelectIsSubsequence(points, kept, |points|);
    assert points[..|points|] == points;
    MarkedIsSubsequence(reduced, marks);
    SubsequenceTransitive(out, reduced, points);
    MarkedEnds(reduced, marks);
  }

  /** A point dropped by the first stage is within tolerance of the last point kept before it. */
  lemma FirstStageDropsNear(points: seq<Point>, sqTolerance: real, kept: seq<nat>, i: nat, j: nat)
    requires Thinned(points, sqTolerance, kept) && 0 < j < |kept| && kept[j - 1] < i < kept[j]
    ensures i < |points|
    ensures var p, q := points[i], points[kept[j - 1]];
            (p.x - q.x) * (p.x - q.x) + (p.y - q.y) * (p.y - q.y) <= sqTolerance
  {
    hide SqDist;
    assert Hop(points, sqTolerance, kept[j - 1], kept[j]);
    assert Near(points, sqTolerance, i, kept[j - 1]);
    SqDistIs(points[i], points[kept[j - 1]]);
  }

  /** A point kept by the first stage, other than the ends, is out of tolerance of the point kept before it. */
  lemma FirstStageKeepsFar(points: seq<Point>, sqTolerance: real, kept: seq<nat>, j: nat)
    requires Thinned(points, sqTolerance, kept) && 0 < j < |kept| - 1
    ensures kept[j - 1] < kept[j] < |points|
    ensures var p, q := points[kept[j]], points[kept[j - 1]];
            (p.x - q.x) * (p.x - q.x) + (p.y - q.y) * (p.y - q.y) > sqTolerance
  {
    hide SqDist;
    assert Hop(points, sqTolerance, kept[j - 1], kept[j]);
    assert !Near(points, sqTolerance, kept[j], kept[j - 1]);
    SqDistIs(points[kept[j]], points[kept[j - 1]]);
  }

  /** A point dropped by the second stage is within tolerance of every closest point of the segment between its kept neighbours. */
  lemma SecondStageDropsNear(points: seq<Point>, sqTolerance: real, kept: seq<nat>, marks: seq<bool>, out: seq<Point>,
                             l: nat, i: nat, h: nat)
    requires Simplified(points, sqTolerance, kept, marks, out)
    requires l < i < h < |kept| && marks[l] && marks[h] && forall k | l < k < h :: !marks[k]
    ensures var a, b := points[kept[l]], points[kept[h]];
            var p := points[kept[i]];
            exists q :: OnSegment(a, b, q) && (p.x - q.x) * (p.x - q.x) + (p.y - q.y) * (p.y - q.y) <= sqTolerance
  {
    hide SqDist, Lerp, Split, Thinned, Marked;
    var reduced := Select(points, kept);
    DroppedIsNear(reduced, marks, sqTolerance, 0, |kept| - 1, l, i, h);
    ClosestIsNearest(reduced[i], reduced[l], reduced[h], reduced[l]);
  }

  // Both stages together: nothing of the input is far from the result.

  /** Where a marked point comes in the result. */
  function Place(marks: seq<bool>, i: nat): nat
    requires i <= |marks|
  {
    if i == 0 then 0 else Place(marks, i - 1) + if marks[i - 1] then 1 else 0
  }

  lemma {:induction false} MarkedUpTo(points: seq<Point>, marks: seq<bool>, i: nat)
    requires i <= |points| == |marks|
    ensures |Marked(points[..i], marks[..i])| == Place(marks, i) && Marked(points[..i], marks[..i]) <= Marked(points, marks)
    decreases |points|, i
  {
    if i == |points| {
      assert points[..i] == points && marks[..i] == marks;
      if i > 0 {
        MarkedUpTo(points, marks, i - 1);
        MarkedNext(points, marks, i - 1);
      }
    } else {
      var n := |points| - 1;
      MarkedUpTo(points[..n], marks[..n], i);
      assert points[..n][..i] == points[..i] && marks[..n][..i] == marks[..i];
      PlaceIsLocal(marks, n, i);
      assert Marked(points[..n], marks[..n]) <= Marked(points, marks);
    }
  }

  lemma {:induction false} PlaceIsLocal(marks: seq<bool>, n: nat, i: nat)
    requires i <= n <= |marks|
    ensures Place(marks[..n], i) == Place(marks, i)
  {
    if i > 0 {
      PlaceIsLocal(marks, n, i - 1);
    }
  }

  lemma MarkedAtPlace(points: seq<Point>, marks: seq<bool>, i: nat)
    requires i < |points| == |marks| && marks[i]
    ensures Place(marks, i) < |Marked(points, marks)| && Marked(points, marks)[Place(marks, i)] == points[i]
  {
    MarkedUpTo(points, marks, i);
    MarkedUpTo(points, marks, i + 1);
    MarkedNext(points, marks, i);
    var upTo := Marked(points[..i + 1], marks[..i + 1]);
    assert upTo[Place(marks, i)] == points[i];
  }

  lemma {:induction false} PlaceOfNext(marks: seq<bool>, l: nat, h: nat)
    requires l < h < |marks| && marks[l] && forall k | l < k < h :: !marks[k]
    ensures Place(marks, h) == Place(marks, l) + 1
  {
    if h > l + 1 {
      PlaceOfPlain(marks, l + 1, h);
    }
  }

  lemma {:induction false} PlaceOfPlain(marks: seq<bool>, l: nat, h: nat)
    requires l <= h <= |marks| && forall k | l <= k < h :: !marks[k]
    ensures Place(marks, h) == Place(marks, l)
  {
    if l < h {
      PlaceOfPlain(marks, l, h - 1);
    }
  }

  /** The nearest marks at or around an index. */
  lemma {:induction false} MarksAround(marks: seq<bool>, i: nat) returns (l: nat, h: nat)
    requires i < |marks| && marks[0] && marks[|marks| - 1]
    ensures l <= i <= h < |marks| && marks[l] && marks[h] && forall k | l < k < h :: !marks[k]
    ensures marks[i] ==> l == h == i
  {
    l, h := i, i;
    while !marks[l]
      invariant l <= i && forall k | l < k <= i :: !marks[k]
      decreases l
    {
      l := l - 1;
    }
    while !marks[h]
      invariant i <= h < |marks| && forall k | i <= k < h :: !marks[k]
      decreases |marks| - h
    {
      h := h + 1;
    }
  }

  /** The last index kept by the first stage at or before an index is near. */
  lemma LastKeptIsNear(points: seq<Point>, sqTolerance: real, kept: seq<nat>, i: nat) returns (j: nat)
    requires Thinned(points, sqTolerance, kept) && i < |points| && 0.0 <= sqTolerance
    ensures j < |kept| && kept[j] < |points| && SqDist(points[i], points[kept[j]]) <= sqTolerance
  {
    hide SqDist;
    j := 0;
    while j + 1 < |kept| && kept[j + 1] <= i
      invariant j < |kept| && kept[j] <= i
    {
      j := j + 1;
    }
    if kept[j] == i {
      NoDistance(points[i]);
    } else {
      FirstStageDropsNear(points, sqTolerance, kept, i, j + 1);
      SqDistIs(points[i], points[kept[j]]);
    }
  }

  lemma NoDistance(p: Point)
    ensures SqDist(p, p) == 0.0
  {
  }

  lemma SquareOfTwo(u: real, v: real)
    ensures (u + v) * (u + v) <= 2.0 * (u * u) + 2.0 * (v * v)
  {
    var d := u - v;
    SquareIsNonNegative(d);
    assert (u + v) * (u + v) + d * d == 2.0 * (u * u) + 2.0 * (v * v);
  }

  lemma TwiceAsFar(p: Point, k: Point, q: Point, sqTolerance: real)
    requires SqDist(p, k) <= sqTolerance && SqDist(k, q) <= sqTolerance
    ensures SqDist(p, q) <= 4.0 * sqTolerance
  {
    SquareOfTwo(p.x - k.x, k.x - q.x);
    SquareOfTwo(p.y - k.y, k.y - q.y);
    SameSquare(p.x - q.x, (p.x - k.x) + (k.x - q.x));
    SameSquare(p.y - q.y, (p.y - k.y) + (k.y - q.y));
  }

  lemma SameSquare(u: real, v: real)
    requires u == v
    ensures u * u == v * v
  {
  }

  /** A point that the first stage kept is within tolerance of the result. */
  lemma KeptIsNearResult(points: seq<Point>, sqTolerance: real, kept: seq<nat>, marks: seq<bool>, out: seq<Point>, i: nat)
      returns (j: nat, q: Point)
    requires Simplified(points, sqTolerance, kept, marks, out) && i < |kept| && 0.0 <= sqTolerance
    ensures j < |out| && OnSegment(out[j], out[if j + 1 < |out| then j + 1 else j], q)
    ensures SqDist(points[kept[i]], q) <= sqTolerance
  {
    hide SqDist, Split, Thinned, Marked, Lerp;
    var reduced := Select(points, kept);
    var l, h := MarksAround(marks, i);
    j := Place(marks, l);
    MarkedAtPlace(reduced, marks, l);
    if l == h {
      q := reduced[i];
      NoDistance(q);
      OnItself(q, out[if j + 1 < |out| then j + 1 else j]);
    } else {
      SecondStageDropsNear(points, sqTolerance, kept, marks, out, l, i, h);
      var p := points[kept[i]];
      q :| OnSegment(reduced[l], reduced[h], q) && (p.x - q.x) * (p.x - q.x) + (p.y - q.y) * (p.y - q.y) <= sqTolerance;
      SqDistIs(p, q);
      PlaceOfNext(marks, l, h);
      MarkedAtPlace(reduced, marks, h);
    }
  }

  lemma OnItself(a: Point, b: Point)
    ensures OnSegment(a, b, a)
  {
    assert a == Lerp(a, b, 0.0);
  }

  /** No point of the input is farther than twice the tolerance from the result. */
  lemma NothingIsFar(points: seq<Point>, sqTolerance: real, out: seq<Point>, i: nat)
    requires IsSimplification(points, sqTolerance, out) && i < |points| && 0.0 <= sqTolerance
    ensures exists j: nat, q :: j < |out| && OnSegment(out[j], out[if j + 1 < |out| then j + 1 else j], q)
              && (points[i].x - q.x) * (points[i].x - q.x) + (points[i].y - q.y) * (points[i].y - q.y) <= 4.0 * sqTolerance
  {
    hide SqDist, Thinned, Split, Marked, OnSegment;
    var kept, marks :| Simplified(points, sqTolerance, kept, marks, out);
    var k := LastKeptIsNear(points, sqTolerance, kept, i);
    var j, q := KeptIsNearResult(points, sqTolerance, kept, marks, out, k);
    TwiceAsFar(points[i], points[kept[k]], q, sqTolerance);
    SqDistIs(points[i], q);
  }
}
