/** Points, bounds, outcodes and edge intersections of Leaflet's line utilities, over exact reals. */
module Geometry {
  datatype Point = Point(x: real, y: real)

  datatype Bounds = Bounds(min: Point, max: Point) {
    predicate Valid() {
      min.x <= max.x && min.y <= max.y
    }

    predicate Contains(p: Point) {
      min.x <= p.x <= max.x && min.y <= p.y <= max.y
    }

    predicate Intersects(other: Bounds) {
      && other.max.x >= min.x && other.min.x <= max.x
      && other.max.y >= min.y && other.min.y <= max.y
    }

    /** Rounding pushes no side outward. */
    predicate Steady() {
      Round(min.x) >= min.x && Round(min.y) >= min.y && Round(max.x) <= max.x && Round(max.y) <= max.y
    }

    /** Clipping against these bounds is well behaved, with the rounding flag on or off. */
    predicate Clippable(round: bool) {
      Valid() && (round ==> Steady())
    }
  }

  /** Two bounds intersect exactly when they have a point in common. */
  lemma IntersectsExactlyWhen(b: Bounds, c: Bounds)
    requires b.Valid() && c.Valid()
    ensures b.Intersects(c) <==> exists p :: b.Contains(p) && c.Contains(p)
  {
    if b.Intersects(c) {
      var p := Point(if b.min.x < c.min.x then c.min.x else b.min.x, if b.min.y < c.min.y then c.min.y else b.min.y);
      assert b.Contains(p) && c.Contains(p);
    }
  }

  predicate Whole(v: real) {
    v.Floor as real == v
  }

  /** `Math.round`: halves go up, for negative numbers too. */
  function Round(v: real): real {
    (v + 0.5).Floor as real
  }

  lemma FloorBetween(v: real, n: int)
    ensures v < (n + 1) as real ==> v.Floor <= n
    ensures v >= n as real ==> v.Floor >= n
  {
  }

  /** The one whole number within one half, the upper one of two. */
  lemma RoundIsNearest(v: real, w: real)
    ensures Whole(Round(v)) && v - 0.5 < Round(v) <= v + 0.5
    ensures Whole(w) && v - 0.5 < w <= v + 0.5 ==> w == Round(v)
  {
    var n := (v + 0.5).Floor;
    assert (n as real).Floor == n;
    if Whole(w) && v - 0.5 < w <= v + 0.5 {
      FloorBetween(v + 0.5, w.Floor);
    }
  }

  lemma RoundIsMonotone(v: real, w: real)
    requires v <= w
    ensures Round(v) <= Round(w)
  {
    FloorBetween(w + 0.5, (v + 0.5).Floor);
  }

  lemma RoundOfWhole(v: real)
    requires Whole(v)
    ensures Round(v) == v
  {
    assert (v.Floor + 1) as real == v + 1.0;
    FloorBetween(v + 0.5, v.Floor);
  }

  /** Whole-pixel bounds, as a renderer makes them, are steady. */
  lemma WholeIsSteady(b: Bounds)
    requires Whole(b.min.x) && Whole(b.min.y) && Whole(b.max.x) && Whole(b.max.y)
    ensures b.Steady()
  {
    hide Round, Whole;
    RoundOfWhole(b.min.x);
    RoundOfWhole(b.min.y);
    RoundOfWhole(b.max.x);
    RoundOfWhole(b.max.y);
  }

  function NewPoint(x: real, y: real, round: bool): Point {
    if round then Point(Round(x), Round(y)) else Point(x, y)
  }

  // Outcodes: one bit for each side of the bounds that a point is beyond.

  type Code = bv4
  const LEFT: Code := 1
  const RIGHT: Code := 2
  const BOTTOM: Code := 4
  const TOP: Code := 8

  function BitCode(p: Point, b: Bounds): Code {
    var horizontal: Code := if p.x < b.min.x then 1 else if p.x > b.max.x then 2 else 0;
    if p.y < b.min.y then horizontal | 4
    else if p.y > b.max.y then horizontal | 8
    else horizontal
  }

  predicate IsSide(side: Code) {
    side == LEFT || side == RIGHT || side == BOTTOM || side == TOP
  }

  /** The point is strictly beyond the given side of the bounds. */
  predicate Beyond(p: Point, side: Code, b: Bounds)
    requires IsSide(side)
  {
    if side == LEFT then p.x < b.min.x
    else if side == RIGHT then p.x > b.max.x
    else if side == BOTTOM then p.y < b.min.y
    else p.y > b.max.y
  }

  /** The outcode says exactly which sides a point is beyond. */
  lemma BitCodeMeansBeyond(p: Point, b: Bounds)
    requires b.Valid()
    ensures forall side | IsSide(side) :: BitCode(p, b) & side != 0 <==> Beyond(p, side, b)
    ensures BitCode(p, b) == 0 <==> b.Contains(p)
  {
  }

  /** Two outcodes share a bit exactly when both points are beyond a common side. */
  lemma SharedSide(p: Point, q: Point, b: Bounds)
    requires b.Valid()
    ensures BitCode(p, b) & BitCode(q, b) != 0 <==> exists side | IsSide(side) :: Beyond(p, side, b) && Beyond(q, side, b)
  {
    BitCodeMeansBeyond(p, b);
    BitCodeMeansBeyond(q, b);
    var h, l := BitCode(p, b), BitCode(q, b);
    if h & l != 0 {
      assert h & l & 1 != 0 || h & l & 2 != 0 || h & l & 4 != 0 || h & l & 8 != 0;
      var side: Code := if h & l & 1 != 0 then 1 else if h & l & 2 != 0 then 2 else if h & l & 4 != 0 then 4 else 8;
      assert h & side != 0 && l & side != 0;
      assert IsSide(side) && Beyond(p, side, b) && Beyond(q, side, b);
    }
  }

  /** The side that an edge is cut on: the highest of the bits that are asked for. */
  function CutSide(code: Code): (side: Code)
    requires code != 0
    ensures IsSide(side) && code & side != 0
  {
    if 8 & code != 0 then TOP else if 4 & code != 0 then BOTTOM else if 2 & code != 0 then RIGHT else LEFT
  }

  /** The intersection divides by this difference. */
  predicate Crosses(a: Point, b: Point, code: Code)
    requires code != 0
  {
    if 12 & code != 0 then b.y - a.y != 0.0 else b.x - a.x != 0.0
  }

  /** Where a coordinate going from `p` to `q` reaches `m`, as a fraction of the way. */
  function Ratio(p: real, q: real, m: real): real
    requires p != q
  {
    (m - p) / (q - p)
  }

  function EdgeIntersection(a: Point, b: Point, code: Code, bounds: Bounds, round: bool): Point
    requires code != 0 && Crosses(a, b, code)
  {
    var dx, dy, min, max := b.x - a.x, b.y - a.y, bounds.min, bounds.max;
    if 8 & code != 0 then
      NewPoint(a.x + Ratio(a.y, b.y, max.y) * dx, max.y, round)
    else if 4 & code != 0 then
      NewPoint(a.x + Ratio(a.y, b.y, min.y) * dx, min.y, round)
    else if 2 & code != 0 then
      NewPoint(max.x, a.y + Ratio(a.x, b.x, max.x) * dy, round)
    else
      NewPoint(min.x, a.y + Ratio(a.x, b.x, min.x) * dy, round)
  }

  // Segments, by their affine parameter.

  function Lerp(a: Point, b: Point, t: real): Point {
    Point(a.x + t * (b.x - a.x), a.y + t * (b.y - a.y))
  }

  ghost predicate OnSegment(a: Point, b: Point, q: Point) {
    exists t :: 0.0 <= t <= 1.0 && q == Lerp(a, b, t)
  }

  lemma LerpCompose(a: Point, b: Point, t0: real, t1: real, u: real)
    ensures Lerp(Lerp(a, b, t0), Lerp(a, b, t1), u) == Lerp(a, b, t0 + u * (t1 - t0))
  {
    var p, q := Lerp(a, b, t0), Lerp(a, b, t1);
    Compose1(a.x, b.x - a.x, p.x, q.x, t0, t1, u);
    Compose1(a.y, b.y - a.y, p.y, q.y, t0, t1, u);
  }

  lemma Compose1(o: real, d: real, p: real, q: real, t0: real, t1: real, u: real)
    requires p == o + t0 * d && q == o + t1 * d
    ensures p + u * (q - p) == o + (t0 + u * (t1 - t0)) * d
  {
    var w := t1 - t0;
    Distribute(t0, w, d);
    assert q - p == w * d;
    Distribute(t0, u * w, d);
    assert (u * w) * d == u * (w * d);
  }

  lemma Distribute(k: real, l: real, d: real)
    ensures (k + l) * d == k * d + l * d
  {
  }

  lemma RatioOfEnd(p: real, q: real)
    requires p != q
    ensures Ratio(p, q, q) == 1.0
  {
    var d := q - p;
    assert d / d == 1.0;
  }

  lemma RatioReaches(p: real, q: real, m: real)
    requires p != q
    ensures p + Ratio(p, q, m) * (q - p) == m
  {
  }

  /** A coordinate that crosses the line at `m` is beyond it only before, or only after, that fraction `u`. */
  lemma CrossingParameter(p: real, q: real, m: real, u: real, t: real, r: real)
    requires p < m <= q || q <= m < p || p <= m < q || q < m <= p
    requires u == Ratio(p, q, m) && r == p + t * (q - p)
    ensures 0.0 <= u <= 1.0
    ensures p < q ==> (r < m <==> t < u) && (r > m <==> t > u)
    ensures p > q ==> (r > m <==> t < u) && (r < m <==> t > u)
  {
    var d, gap, rest := q - p, t - u, 1.0 - u;
    assert u * d == m - p;
    Distribute(gap, u, d);
    Distribute(rest, u, d);
    assert gap * d == r - m && rest * d == q - m;
    if d > 0.0 {
      SignOfProduct(gap, d, r - m);
      SignOfProduct(u, d, m - p);
      SignOfProduct(rest, d, q - m);
    } else {
      SignOfProduct(gap, -d, m - r);
      SignOfProduct(u, -d, p - m);
      SignOfProduct(rest, -d, m - q);
    }
  }

  lemma SignOfProduct(k: real, d: real, product: real)
    requires d > 0.0 && product == k * d
    ensures product > 0.0 <==> k > 0.0
    ensures product < 0.0 <==> k < 0.0
  {
  }

  lemma ProductIsMonotone(k: real, l: real, d: real)
    requires k <= l && 0.0 <= d
    ensures k * d <= l * d
  {
    var gap := l - k;
    Distribute(k, gap, d);
    if d > 0.0 {
      SignOfProduct(gap, d, gap * d);
    }
  }

  lemma LerpBetween(p: real, q: real, t: real, bound: real)
    requires 0.0 <= t <= 1.0
    ensures p <= bound && q <= bound ==> p + t * (q - p) <= bound
    ensures p >= bound && q >= bound ==> p + t * (q - p) >= bound
    ensures p < bound && q < bound ==> p + t * (q - p) < bound
    ensures p > bound && q > bound ==> p + t * (q - p) > bound
  {
    var s, dp, dq := 1.0 - t, p - bound, q - bound;
    assert p + t * (q - p) - bound == s * dp + t * dq by {
      assert s * dp == dp - t * dp;
      assert t * (q - p) == t * dq - t * dp;
    }
    SameSign(s, t, dp, dq);
  }

  lemma SameSign(s: real, t: real, d: real, e: real)
    requires 0.0 <= s && 0.0 <= t && s + t > 0.0
    ensures d <= 0.0 && e <= 0.0 ==> s * d + t * e <= 0.0
    ensures d >= 0.0 && e >= 0.0 ==> s * d + t * e >= 0.0
    ensures d < 0.0 && e < 0.0 ==> s * d + t * e < 0.0
    ensures d > 0.0 && e > 0.0 ==> s * d + t * e > 0.0
  {
    if s > 0.0 {
      SignOfProduct(d, s, s * d);
    }
    if t > 0.0 {
      SignOfProduct(e, t, t * e);
    }
  }
}
