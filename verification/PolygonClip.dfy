/** Sutherland-Hodgman polygon clipping: one pass over the ring for each side of the bounds. */
module PolygonClip {
  import opened Geometry
  import opened SegmentClip
  import opened Sequences

  /** A ring point carrying the outcode it was given when it was made. */
  datatype CodedPoint = CodedPoint(p: Point, code: Code)

  type Ring = seq<CodedPoint>

  function Coded(p: Point, bounds: Bounds): CodedPoint {
    CodedPoint(p, BitCode(p, bounds))
  }

  ghost predicate WellCoded(ring: Ring, bounds: Bounds) {
    forall k | 0 <= k < |ring| :: ring[k] == Coded(ring[k].p, bounds)
  }

  predicate Out(v: CodedPoint, side: Code) {
    v.code & side != 0
  }

  /** An edge with one end out can be cut at the line of that side. */
  lemma EdgeCrosses(a: CodedPoint, r: CodedPoint, side: Code, bounds: Bounds)
    requires bounds.Valid() && IsSide(side) && a == Coded(a.p, bounds) && r == Coded(r.p, bounds)
    ensures Out(a, side) <==> Beyond(a.p, side, bounds)
    ensures Out(r, side) <==> Beyond(r.p, side, bounds)
    ensures side != 0 && CutSide(side) == side
    ensures Out(a, side) != Out(r, side) ==> Crosses(a.p, r.p, side)
  {
    BitCodeMeansBeyond(a.p, bounds);
    BitCodeMeansBeyond(r.p, bounds);
  }

  /** The point where the edge from `a` to `r` crosses the line of `side`, if it does. */
  function Cut(a: CodedPoint, r: CodedPoint, side: Code, bounds: Bounds, round: bool): CodedPoint
    requires bounds.Valid() && IsSide(side) && a == Coded(a.p, bounds) && r == Coded(r.p, bounds)
  {
    EdgeCrosses(a, r, side, bounds);
    if Out(a, side) == Out(r, side) then r else Coded(EdgeIntersection(a.p, r.p, side, bounds, round), bounds)
  }

  /** The cyclic predecessor of an index of a ring. */
  function Before(n: nat, c: nat): (o: nat)
    requires c < n
    ensures o < n
  {
    if c == 0 then n - 1 else c - 1
  }

  function Cuts(ring: Ring, side: Code, bounds: Bounds, round: bool): (cuts: Ring)
    requires bounds.Valid() && IsSide(side) && WellCoded(ring, bounds)
    ensures |cuts| == |ring| && WellCoded(cuts, bounds)
  {
    seq(|ring|, c requires 0 <= c < |ring| => Cut(ring[Before(|ring|, c)], ring[c], side, bounds, round))
  }

  /** What a pass pushes at the point `r` that follows `a`. */
  function Emit(a: CodedPoint, r: CodedPoint, cut: CodedPoint, side: Code): Ring {
    if Out(r, side) then
      if Out(a, side) then [] else [cut]
    else
      if Out(a, side) then [cut, r] else [r]
  }

  /** What a pass pushes in each turn. */
  function Turns(ring: Ring, cuts: Ring, side: Code): (turns: seq<Ring>)
    requires |ring| == |cuts|
    ensures |turns| == |ring|
  {
    seq(|ring|, c requires 0 <= c < |ring| => Emit(ring[Before(|ring|, c)], ring[c], cuts[c], side))
  }

  function Pass(ring: Ring, side: Code, bounds: Bounds, round: bool): (out: Ring)
    requires bounds.Valid() && IsSide(side) && WellCoded(ring, bounds)
    ensures WellCoded(out, bounds)
  {
    var turns := Turns(ring, Cuts(ring, side, bounds, round), side);
    FlatIsCoded(turns, bounds);
    Flat(turns)
  }

  lemma FlatIsCoded(turns: seq<Ring>, bounds: Bounds)
    requires forall c | 0 <= c < |turns| :: WellCoded(turns[c], bounds)
    ensures WellCoded(Flat(turns), bounds)
  {
  }

  function CodedRing(points: seq<Point>, bounds: Bounds): (ring: Ring)
    ensures WellCoded(ring, bounds)
  {
    seq(|points|, k requires 0 <= k < |points| => Coded(points[k], bounds))
  }

  /** The sides in the order of the passes. */
  const SIDES: seq<Code> := [LEFT, BOTTOM, RIGHT, TOP]

  /** The first `s` of the four passes. */
  function Passes(points: seq<Point>, s: nat, bounds: Bounds, round: bool): (out: Ring)
    requires bounds.Valid() && s <= 4
    ensures WellCoded(out, bounds)
  {
    if s == 0 then CodedRing(points, bounds) else Pass(Passes(points, s - 1, bounds, round), SIDES[s - 1], bounds, round)
  }

  lemma PassesAreFour(points: seq<Point>, bounds: Bounds, round: bool)
    requires bounds.Valid()
    ensures Passes(points, 4, bounds, round)
         == Pass(Pass(Pass(Pass(CodedRing(points, bounds), 1, bounds, round), 4, bounds, round), 2, bounds, round),
                 8, bounds, round)
  {
    hide Pass, CodedRing;
    assert Passes(points, 1, bounds, round) == Pass(CodedRing(points, bounds), 1, bounds, round);
    assert Passes(points, 2, bounds, round) == Pass(Passes(points, 1, bounds, round), 4, bounds, round);
    assert Passes(points, 3, bounds, round) == Pass(Passes(points, 2, bounds, round), 2, bounds, round);
  }

  lemma NextPass(points: seq<Point>, s: nat, bounds: Bounds, round: bool)
    requires bounds.Valid() && s < 4
    ensures Passes(points, 0, bounds, round) == CodedRing(points, bounds)
    ensures Passes(points, s + 1, bounds, round) == Pass(Passes(points, s, bounds, round), SIDES[s], bounds, round)
  {
    hide Pass, CodedRing;
  }

  method ClipPolygon(points: seq<Point>, bounds: Bounds, round: bool) returns (out: Ring)
    requires bounds.Valid()
    ensures out == Passes(points, 4, bounds, round)
    ensures out == Pass(Pass(Pass(Pass(CodedRing(points, bounds), 1, bounds, round), 4, bounds, round), 2, bounds, round),
                        8, bounds, round)
  {
    hide Pass, Passes, Coded;
    PassesAreFour(points, bounds, round);
    NextPass(points, 0, bounds, round);
    out := [];
    for c := 0 to |points|
      invariant out == CodedRing(points, bounds)[..c]
    {
      out := out + [Coded(points[c], bounds)];
    }
    for s := 0 to 4
      invariant out == Passes(points, s, bounds, round)
    {
      NextPass(points, s, bounds, round);
      out := ClipSide(out, SIDES[s], bounds, round);
    }
  }

  /** One pass: `o` trails `c` by one around the ring. */
  method ClipSide(ring: Ring, side: Code, bounds: Bounds, round: bool) returns (out: Ring)
    requires bounds.Valid() && IsSide(side) && WellCoded(ring, bounds)
    ensures out == Pass(ring, side, bounds, round)
  {
    out := [];
    ghost var turns := Turns(ring, Cuts(ring, side, bounds, round), side);
    var c, o := 0, |ring| - 1;
    while c < |ring|
      invariant 0 <= c <= |ring| && (c < |ring| ==> o == Before(|ring|, c))
      invariant out == Flat(turns[..c])
    {
      FlatNext(turns, c);
      var more := ClipCorner(ring[o], ring[c], side, bounds, round);
      out := out + more;
      o := c;
      c := c + 1;
    }
    assert turns[..|ring|] == turns;
  }

  /** The branches of a pass at one point: what is pushed at `r`, coming from `a`. */
  method ClipCorner(a: CodedPoint, r: CodedPoint, side: Code, bounds: Bounds, round: bool) returns (more: Ring)
    requires bounds.Valid() && IsSide(side) && a == Coded(a.p, bounds) && r == Coded(r.p, bounds)
    ensures more == Emit(a, r, Cut(a, r, side, bounds, round), side)
  {
    EdgeCrosses(a, r, side, bounds);
    more := [];
    if Out(r, side) {
      if !Out(a, side) {
        more := [Coded(EdgeIntersection(a.p, r.p, side, bounds, round), bounds)];
      }
    } else {
      if Out(a, side) {
        more := [Coded(EdgeIntersection(a.p, r.p, side, bounds, round), bounds)];
      }
      more := more + [r];
    }
  }

  // Every vertex of the result is inside the bounds.

  ghost predicate NoneBeyond(ring: Ring, side: Code, bounds: Bounds)
    requires IsSide(side)
  {
    forall k | 0 <= k < |ring| :: !Beyond(ring[k].p, side, bounds)
  }

  /** A cut point is not beyond the line it is cut at, nor beyond another side that both ends respect. */
  lemma CutRespectsSides(a: CodedPoint, r: CodedPoint, side: Code, other: Code, bounds: Bounds, round: bool)
    requires bounds.Clippable(round) && IsSide(side) && IsSide(other)
    requires a == Coded(a.p, bounds) && r == Coded(r.p, bounds) && Out(a, side) != Out(r, side)
    ensures var cut := Cut(a, r, side, bounds, round).p;
            && !Beyond(cut, side, bounds)
            && (!Beyond(a.p, other, bounds) && !Beyond(r.p, other, bounds) ==> !Beyond(cut, other, bounds))
  {
    EdgeCrosses(a, r, side, bounds);
    CutPoint(a.p, r.p, side, bounds, round);
    assert 12 & side != 0 <==> side == BOTTOM || side == TOP;
  }

  lemma EmitRespectsSides(a: CodedPoint, r: CodedPoint, side: Code, other: Code, bounds: Bounds, round: bool)
    requires bounds.Clippable(round) && IsSide(side) && IsSide(other)
    requires a == Coded(a.p, bounds) && r == Coded(r.p, bounds)
    ensures var more := Emit(a, r, Cut(a, r, side, bounds, round), side);
            && NoneBeyond(more, side, bounds)
            && (!Beyond(a.p, other, bounds) && !Beyond(r.p, other, bounds) ==> NoneBeyond(more, other, bounds))
  {
    EdgeCrosses(a, r, side, bounds);
    if Out(a, side) != Out(r, side) {
      CutRespectsSides(a, r, side, other, bounds, round);
    }
  }

  lemma {:induction false} FlatRespectsSide(turns: seq<Ring>, side: Code, bounds: Bounds)
    requires IsSide(side) && forall c | 0 <= c < |turns| :: NoneBeyond(turns[c], side, bounds)
    ensures NoneBeyond(Flat(turns), side, bounds)
  {
    if turns != [] {
      FlatRespectsSide(turns[..|turns| - 1], side, bounds);
      assert NoneBeyond(turns[|turns| - 1], side, bounds);
    }
  }

  lemma PassRespectsSides(ring: Ring, side: Code, other: Code, bounds: Bounds, round: bool)
    requires bounds.Clippable(round) && IsSide(side) && IsSide(other) && WellCoded(ring, bounds)
    ensures NoneBeyond(Pass(ring, side, bounds, round), side, bounds)
    ensures NoneBeyond(ring, other, bounds) ==> NoneBeyond(Pass(ring, side, bounds, round), other, bounds)
  {
    var turns := Turns(ring, Cuts(ring, side, bounds, round), side);
    forall c | 0 <= c < |ring|
      ensures NoneBeyond(turns[c], side, bounds)
      ensures NoneBeyond(ring, other, bounds) ==> NoneBeyond(turns[c], other, bounds)
    {
      EmitRespectsSides(ring[Before(|ring|, c)], ring[c], side, other, bounds, round);
    }
    FlatRespectsSide(turns, side, bounds);
    if NoneBeyond(ring, other, bounds) {
      FlatRespectsSide(turns, other, bounds);
    }
  }

  lemma {:induction false} PassesClearSides(points: seq<Point>, s: nat, k: nat, bounds: Bounds, round: bool)
    requires bounds.Clippable(round) && k < s <= 4
    ensures NoneBeyond(Passes(points, s, bounds, round), SIDES[k], bounds)
  {
    var ring := Passes(points, s - 1, bounds, round);
    PassRespectsSides(ring, SIDES[s - 1], SIDES[k], bounds, round);
    if k < s - 1 {
      PassesClearSides(points, s - 1, k, bounds, round);
    }
  }

  /** No later pass brings back a side that was cleared: every vertex that comes out is inside. */
  lemma ClippedIsInside(points: seq<Point>, bounds: Bounds, round: bool)
    requires bounds.Clippable(round)
    ensures forall v | v in Passes(points, 4, bounds, round) :: bounds.Contains(v.p)
  {
    forall k: nat | k < 4
      ensures NoneBeyond(Passes(points, 4, bounds, round), SIDES[k], bounds)
    {
      PassesClearSides(points, 4, k, bounds, round);
    }
    assert SIDES[0] == LEFT && SIDES[1] == BOTTOM && SIDES[2] == RIGHT && SIDES[3] == TOP;
  }

  // Why steady bounds are needed for that: where rounding pushes a side outward, a cut stays out.

  lemma PassSkips(ring: Ring, side: Code, bounds: Bounds, round: bool)
    requires bounds.Valid() && IsSide(side) && WellCoded(ring, bounds) && NoneBeyond(ring, side, bounds)
    ensures Pass(ring, side, bounds, round) == ring
  {
    var turns := Turns(ring, Cuts(ring, side, bounds, round), side);
    forall c | 0 <= c < |ring| ensures turns[c] == [ring[c]] {
      var a := ring[Before(|ring|, c)];
      assert !Beyond(a.p, side, bounds) && !Beyond(ring[c].p, side, bounds);
      EdgeCrosses(a, ring[c], side, bounds);
    }
    FlatOfSingles(turns, ring);
  }

  lemma {:induction false} FlatOfSingles(turns: seq<Ring>, ring: Ring)
    requires |turns| == |ring| && forall c | 0 <= c < |ring| :: turns[c] == [ring[c]]
    ensures Flat(turns) == ring
  {
    if ring != [] {
      FlatOfSingles(turns[..|ring| - 1], ring[..|ring| - 1]);
      assert ring == ring[..|ring| - 1] + [ring[|ring| - 1]];
    }
  }

  /** A pass over an edge there and back, with one end out. */
  lemma PassOfTwo(b: CodedPoint, q: CodedPoint, c: CodedPoint, side: Code, bounds: Bounds, round: bool)
    requires bounds.Valid() && IsSide(side) && b == Coded(b.p, bounds) && q == Coded(q.p, bounds)
    requires !Out(b, side) && Out(q, side)
    requires Cut(q, b, side, bounds, round) == c && Cut(b, q, side, bounds, round) == c
    ensures WellCoded([b, q], bounds) && Pass([b, q], side, bounds, round) == [c, b, c]
  {
    hide Cut;
    var ring := [b, q];
    assert WellCoded(ring, bounds);
    var turns := Turns(ring, Cuts(ring, side, bounds, round), side);
    assert turns == [[c, b], [c]];
    FlatOfTwo([c, b], [c]);
  }

  lemma FlatOfTwo(first: Ring, second: Ring)
    ensures Flat([first, second]) == first + second
  {
    var none: seq<Ring> := [];
    assert [first, second][..1] == [first] && [first][..0] == none;
    assert Flat(none) == [] && Flat([first]) == Flat(none) + first;
  }

  /** A cut that is still out and out of reach of the passes to come is a vertex of the result. */
  lemma CutStaysOut(b: Point, q: Point, c: Point, i: nat, bounds: Bounds)
    requires bounds.Valid() && i < 4 && bounds.Contains(b) && !bounds.Contains(c)
    requires forall side | IsSide(side) && side != SIDES[i] :: !Beyond(q, side, bounds)
    requires Beyond(q, SIDES[i], bounds) && Crosses(q, b, SIDES[i]) && Crosses(b, q, SIDES[i])
    requires EdgeIntersection(q, b, SIDES[i], bounds, true) == c && EdgeIntersection(b, q, SIDES[i], bounds, true) == c
    requires forall k | i < k < 4 :: !Beyond(c, SIDES[k], bounds)
    ensures Coded(c, bounds) in Passes([b, q], 4, bounds, true)
  {
    hide Beyond, EdgeIntersection, Pass, BitCode;
    var ring, cut := CodedRing([b, q], bounds), Coded(c, bounds);
    var out := [cut, Coded(b, bounds), cut];
    assert ring == [Coded(b, bounds), Coded(q, bounds)];
    BitCodeMeansBeyond(b, bounds);
    EdgeCrosses(Coded(b, bounds), Coded(q, bounds), SIDES[i], bounds);
    InsideIsBeyondNothing(b, SIDES[i], bounds);
    PassOfTwo(Coded(b, bounds), Coded(q, bounds), cut, SIDES[i], bounds, true);
    forall s: nat | s < i ensures NoneBeyond(ring, SIDES[s], bounds) {
      InsideIsBeyondNothing(b, SIDES[s], bounds);
    }
    forall s: nat | i < s < 4 ensures NoneBeyond(out, SIDES[s], bounds) {
      InsideIsBeyondNothing(b, SIDES[s], bounds);
    }
    for s: nat := 0 to 4
      invariant Passes([b, q], s, bounds, true) == if s <= i then ring else out
    {
      if s < i {
        PassSkips(ring, SIDES[s], bounds, true);
      } else if s > i {
        PassSkips(out, SIDES[s], bounds, true);
      }
    }
    assert out[0] == cut;
  }

  lemma InsideIsBeyondNothing(b: Point, side: Code, bounds: Bounds)
    requires bounds.Contains(b) && IsSide(side)
    ensures !Beyond(b, side, bounds)
  {
  }

  /** Where the line of a side meets an edge at right angles, starting from the point `b` of the edge. */
  function Facing(b: Point, side: Code, bounds: Bounds): Point
    requires IsSide(side)
  {
    if side == TOP then Point(b.x, bounds.max.y)
    else if side == BOTTOM then Point(b.x, bounds.min.y)
    else if side == RIGHT then Point(bounds.max.x, b.y)
    else Point(bounds.min.x, b.y)
  }

  /** An edge at right angles to a side is cut where it faces that side, rounded. */
  lemma AxisCut(a: Point, b: Point, side: Code, bounds: Bounds)
    requires IsSide(side)
    requires if side == TOP || side == BOTTOM then a.x == b.x && a.y != b.y else a.y == b.y && a.x != b.x
    ensures Crosses(a, b, side)
    ensures var c := Facing(b, side, bounds); EdgeIntersection(a, b, side, bounds, true) == NewPoint(c.x, c.y, true)
  {
    hide NewPoint;
    RoundedIntersection(a, b, side, bounds, true);
    FacingIsMet(a, b, side, bounds, Facing(b, side, bounds));
  }

  lemma FacingIsMet(a: Point, b: Point, side: Code, bounds: Bounds, c: Point)
    requires IsSide(side) && Crosses(a, b, side) && c == Facing(b, side, bounds)
    requires if side == TOP || side == BOTTOM then a.x == b.x && a.y != b.y else a.y == b.y && a.x != b.x
    ensures EdgeIntersection(a, b, side, bounds, false) == c
  {
    if side == TOP || side == BOTTOM {
      TimesNothing(Ratio(a.y, b.y, c.y), b.x - a.x);
    } else {
      TimesNothing(Ratio(a.x, b.x, c.x), b.y - a.y);
    }
  }

  lemma TimesNothing(r: real, d: real)
    requires d == 0.0
    ensures r * d == 0.0
  {
  }

  /** A point facing a side that is pushed outward, and a point beyond that side only, make an edge whose cut stays out. */
  lemma EscapeAt(b: Point, q: Point, i: nat, c: Point, bounds: Bounds)
    requires bounds.Valid() && i < 4 && bounds.Contains(b)
    requires forall side | IsSide(side) && side != SIDES[i] :: !Beyond(q, side, bounds)
    requires Beyond(q, SIDES[i], bounds) && if i % 2 == 1 then q.x == b.x else q.y == b.y
    requires var f := Facing(b, SIDES[i], bounds); c == NewPoint(f.x, f.y, true)
    requires Beyond(c, SIDES[i], bounds) && forall k | i < k < 4 :: !Beyond(c, SIDES[k], bounds)
    ensures Coded(c, bounds) in Passes([b, q], 4, bounds, true) && !bounds.Contains(c)
  {
    hide EdgeIntersection, Passes, NewPoint;
    AxisCut(b, q, SIDES[i], bounds);
    AxisCut(q, b, SIDES[i], bounds);
    CutStaysOut(b, q, c, i, bounds);
  }

  /** Where rounding pushes a side outward, clipping a certain edge leaves a vertex outside. */
  lemma PushedSideEscapes(bounds: Bounds) returns (points: seq<Point>)
    requires bounds.Valid() && !bounds.Steady()
    ensures exists v :: v in Passes(points, 4, bounds, true) && !bounds.Contains(v.p)
  {
    hide Passes, Round;
    var low, high := bounds.min, bounds.max;
    RoundIsMonotone(low.x, high.x);
    RoundIsMonotone(low.y, high.y);
    if Round(high.y) > high.y {
      points := [Point(low.x, high.y), Point(low.x, high.y + 1.0)];
      EscapeAt(points[0], points[1], 3, Point(Round(low.x), Round(high.y)), bounds);
    } else if Round(high.x) > high.x {
      points := [high, Point(high.x + 1.0, high.y)];
      EscapeAt(points[0], points[1], 2, Point(Round(high.x), Round(high.y)), bounds);
    } else if Round(low.y) < low.y {
      points := [Point(high.x, low.y), Point(high.x, low.y - 1.0)];
      EscapeAt(points[0], points[1], 1, Point(Round(high.x), Round(low.y)), bounds);
    } else {
      points := [low, Point(low.x - 1.0, low.y)];
      EscapeAt(points[0], points[1], 0, Point(Round(low.x), Round(low.y)), bounds);
    }
  }

  /** Every vertex of every clipped ring is inside exactly when nothing is rounded or no side is pushed outward. */
  lemma ClippedIsInsideExactlyWhen(bounds: Bounds, round: bool)
    requires bounds.Valid()
    ensures (forall points, v :: v in Passes(points, 4, bounds, round) ==> bounds.Contains(v.p))
            <==> (round ==> bounds.Steady())
  {
    hide Passes, Round;
    if round && !bounds.Steady() {
      var points := PushedSideEscapes(bounds);
    } else {
      forall points, v | v in Passes(points, 4, bounds, round) ensures bounds.Contains(v.p) {
        ClippedIsInside(points, bounds, round);
      }
    }
  }

  /** So it is with a renderer's bounds from 0 to 10, widened by a stroke weight of one half, and an edge across the top. */
  lemma HalfWeightEscapes()
    ensures var bounds := Bounds(Point(-0.5, -0.5), Point(10.5, 10.5));
            && bounds.Valid() && !bounds.Contains(Point(0.0, 11.0))
            && Coded(Point(0.0, 11.0), bounds) in Passes([Point(0.0, 0.0), Point(0.0, 20.0)], 4, bounds, true)
  {
    hide Passes;
    FloorBetween(11.0, 11);
    FloorBetween(0.5, 0);
    EscapeAt(Point(0.0, 0.0), Point(0.0, 20.0), 3, Point(0.0, 11.0), Bounds(Point(-0.5, -0.5), Point(10.5, 10.5)));
  }

  /** The bounds that a polygon with a stroke of this weight is clipped against. */
  function Widened(bounds: Bounds, weight: real): Bounds {
    Bounds(Point(bounds.min.x - weight, bounds.min.y - weight), Point(bounds.max.x + weight, bounds.max.y + weight))
  }

  lemma RoundOfSum(v: real, w: real)
    requires Whole(v)
    ensures Round(v + w) == v + Round(w)
  {
    assert v + w + 0.5 == v.Floor as real + (w + 0.5);
    FloorOfSum(v.Floor, w + 0.5);
  }

  lemma FloorOfSum(n: int, w: real)
    ensures (n as real + w).Floor == n + w.Floor
  {
    FloorBetween(n as real + w, n + w.Floor);
    assert (n + w.Floor + 1) as real == n as real + (w.Floor + 1) as real;
  }

  /** The weight does not push a side outward when its fraction is below one half. */
  lemma RoundOfWeight(weight: real)
    ensures var low := weight - weight.Floor as real < 0.5;
            (Round(weight) <= weight <==> low) && (low ==> Round(-weight) >= -weight)
  {
    var n := weight.Floor;
    FloorBetween(weight + 0.5, n);
    FloorBetween(weight + 0.5, n + 1);
    FloorBetween(-weight + 0.5, -n);
  }

  ghost predicate AllWhole(points: seq<Point>) {
    forall k :: 0 <= k < |points| ==> Whole(points[k].x) && Whole(points[k].y)
  }

  /** An edge between whole pixels, straight up out of the widened bounds, whose cut is rounded outward. */
  lemma WholePixelEscape(bounds: Bounds, weight: real) returns (points: seq<Point>)
    requires bounds.Valid() && Whole(bounds.min.x) && Whole(bounds.min.y) && Whole(bounds.max.y)
    requires weight >= 0.0 && Round(weight) > weight
    ensures AllWhole(points)
    ensures exists v :: v in Passes(points, 4, Widened(bounds, weight), true) && !Widened(bounds, weight).Contains(v.p)
  {
    hide Passes, Round, Whole;
    var wide, low, over := Widened(bounds, weight), bounds.min, bounds.max.y + (weight.Floor + 2) as real;
    WholeAbove(bounds.max.y, weight.Floor + 2);
    points := [low, Point(low.x, over)];
    RoundOfWhole(low.x);
    RoundOfSum(bounds.max.y, weight);
    EscapeAt(low, points[1], 3, Point(low.x, Round(wide.max.y)), wide);
  }

  lemma WholeAbove(v: real, n: int)
    requires Whole(v)
    ensures Whole(v + n as real)
  {
    assert v + n as real == (v.Floor + n) as real;
  }

  /**
   * Widened by a stroke weight, a renderer's whole-pixel bounds give results inside for every
   * polygon of whole pixels exactly when the fraction of the weight is below one half.
   */
  lemma PolygonsStayInsideExactlyWhen(bounds: Bounds, weight: real)
    requires bounds.Valid() && weight >= 0.0
    requires Whole(bounds.min.x) && Whole(bounds.min.y) && Whole(bounds.max.x) && Whole(bounds.max.y)
    ensures var wide := Widened(bounds, weight);
            && wide.Valid()
            && ((forall points, v :: AllWhole(points) && v in Passes(points, 4, wide, true) ==> wide.Contains(v.p))
                <==> weight - weight.Floor as real < 0.5)
  {
    hide Passes, Round, Whole;
    var wide := Widened(bounds, weight);
    RoundOfSum(bounds.min.x, -weight);
    RoundOfSum(bounds.min.y, -weight);
    RoundOfSum(bounds.max.x, weight);
    RoundOfSum(bounds.max.y, weight);
    RoundOfWeight(weight);
    if weight - weight.Floor as real < 0.5 {
      ClippedIsInsideExactlyWhen(wide, true);
    } else {
      var points := WholePixelEscape(bounds, weight);
    }
  }

  // Input vertices inside the bounds survive in their order.

  function Inside(ring: Ring): Ring {
    if ring == [] then []
    else
      var rest, last := Inside(ring[..|ring| - 1]), ring[|ring| - 1];
      if last.code == 0 then rest + [last] else rest
  }

  lemma InsideGrows(out: Ring, kept: Ring, x: CodedPoint)
    requires IsSubsequence(kept, Inside(out))
    ensures IsSubsequence(kept, Inside(out + [x]))
    ensures x.code == 0 ==> IsSubsequence(kept + [x], Inside(out + [x]))
  {
    hide IsSubsequence;
    assert (out + [x])[..|out|] == out;
    if x.code == 0 {
      SubsequenceSkip(kept, Inside(out), x);
      SubsequenceKeep(kept, Inside(out), x);
    }
  }

  /** What is pushed at `r` keeps `r` if it is inside. */
  lemma InsideOfEmit(out: Ring, kept: Ring, a: CodedPoint, r: CodedPoint, cut: CodedPoint, side: Code)
    requires IsSubsequence(kept, Inside(out))
    ensures IsSubsequence(kept + if r.code == 0 then [r] else [], Inside(out + Emit(a, r, cut, side)))
  {
    hide Inside, IsSubsequence;
    var more := Emit(a, r, cut, side);
    assert r.code == 0 ==> !Out(r, side);
    assert kept + [] == kept && out + [] == out;
    if |more| == 1 {
      InsideGrows(out, kept, more[0]);
    } else if |more| == 2 {
      assert more == [cut, r];
      InsideOfTwo(out, kept, cut, r);
    }
  }

  lemma InsideOfTwo(out: Ring, kept: Ring, cut: CodedPoint, r: CodedPoint)
    requires IsSubsequence(kept, Inside(out))
    ensures IsSubsequence(kept + if r.code == 0 then [r] else [], Inside(out + [cut, r]))
  {
    hide Inside, IsSubsequence;
    InsideGrows(out, kept, cut);
    InsideGrows(out + [cut], kept, r);
    assert out + [cut, r] == out + [cut] + [r];
    assert kept + [] == kept;
  }

  lemma InsideOfPrefix(ring: Ring, c: nat)
    requires 0 < c <= |ring|
    ensures Inside(ring[..c]) == Inside(ring[..c - 1]) + if ring[c - 1].code == 0 then [ring[c - 1]] else []
  {
    assert ring[..c][..c - 1] == ring[..c - 1];
  }

  lemma {:induction false} InsideOfTurns(ring: Ring, cuts: Ring, c: nat, side: Code)
    requires c <= |ring| == |cuts|
    ensures IsSubsequence(Inside(ring[..c]), Inside(Flat(Turns(ring, cuts, side)[..c])))
  {
    if c > 0 {
      var turns := Turns(ring, cuts, side);
      InsideOfTurns(ring, cuts, c - 1, side);
      InsideOfPrefix(ring, c);
      FlatNext(turns, c - 1);
      InsideOfEmit(Flat(turns[..c - 1]), Inside(ring[..c - 1]), ring[Before(|ring|, c - 1)], ring[c - 1], cuts[c - 1], side);
    }
  }

  /** The input vertices inside the bounds survive all passes, in their order. */
  lemma {:induction false} InsideSurvives(points: seq<Point>, s: nat, bounds: Bounds, round: bool)
    requires bounds.Valid() && s <= 4
    ensures IsSubsequence(Inside(CodedRing(points, bounds)), Inside(Passes(points, s, bounds, round)))
  {
    if s == 0 {
      SubsequenceRefl(Inside(CodedRing(points, bounds)));
    } else {
      var ring := Passes(points, s - 1, bounds, round);
      InsideSurvives(points, s - 1, bounds, round);
      var cuts := Cuts(ring, SIDES[s - 1], bounds, round);
      var turns := Turns(ring, cuts, SIDES[s - 1]);
      InsideOfTurns(ring, cuts, |ring|, SIDES[s - 1]);
      assert ring[..|ring|] == ring && turns[..|ring|] == turns;
      SubsequenceTransitive(Inside(CodedRing(points, bounds)), Inside(ring), Inside(Passes(points, s, bounds, round)));
    }
  }

  // With exact coordinates, no part of the outline inside the bounds is lost.

  ghost predicate OnEdge(ring: Ring, c: nat, q: Point)
    requires c < |ring|
  {
    OnSegment(ring[Before(|ring|, c)].p, ring[c].p, q)
  }

  /** The point lies on the closed outline of the ring. */
  ghost predicate OnOutline(ring: Ring, q: Point) {
    exists c: nat | c < |ring| :: OnEdge(ring, c, q)
  }

  /** The part of a cut edge that is not beyond the side lies between the cut and the end that is not. */
  lemma CutKeepsVisible(a: CodedPoint, r: CodedPoint, side: Code, bounds: Bounds, q: Point)
    requires bounds.Valid() && IsSide(side) && a == Coded(a.p, bounds) && r == Coded(r.p, bounds)
    requires Out(a, side) != Out(r, side) && OnSegment(a.p, r.p, q) && !Beyond(q, side, bounds)
    ensures var cut := Cut(a, r, side, bounds, false).p;
            if Out(a, side) then OnSegment(cut, r.p, q) else OnSegment(a.p, cut, q)
  {
    EdgeCrosses(a, r, side, bounds);
    var t :| 0.0 <= t <= 1.0 && q == Lerp(a.p, r.p, t);
    CutParameter(a.p, r.p, side, bounds, t);
    IntersectionIsLerp(a.p, r.p, side, bounds);
    var u, cut := CutAt(a.p, r.p, side, bounds), Cut(a, r, side, bounds, false).p;
    assert cut == Lerp(a.p, r.p, u);
    if Out(a, side) {
      SubSegment(a.p, r.p, u, 1.0, t, cut, r.p, q);
    } else {
      SubSegment(a.p, r.p, 0.0, u, t, a.p, cut, q);
    }
  }

  lemma SubSegment(a: Point, b: Point, t0: real, t1: real, t: real, p0: Point, p1: Point, q: Point)
    requires t0 <= t <= t1 && p0 == Lerp(a, b, t0) && p1 == Lerp(a, b, t1) && q == Lerp(a, b, t)
    ensures OnSegment(p0, p1, q)
  {
    if t0 < t1 {
      var v := Reparametrize(a, b, t0, t1, t);
    } else {
      assert q == Lerp(p0, p1, 0.0);
    }
  }

  /** The index of the output reached before the turn of index `c`. */
  function Reached(ring: Ring, cuts: Ring, c: nat, side: Code): nat
    requires c <= |ring| == |cuts|
  {
    |Flat(Turns(ring, cuts, side)[..c])|
  }

  lemma TurnAt(ring: Ring, cuts: Ring, c: nat, side: Code)
    requires c < |ring| == |cuts|
    ensures var out, k := Flat(Turns(ring, cuts, side)), Reached(ring, cuts, c, side);
            var more := Emit(ring[Before(|ring|, c)], ring[c], cuts[c], side);
            && Reached(ring, cuts, c + 1, side) == k + |more| <= |out|
            && forall i | 0 <= i < |more| :: out[k + i] == more[i]
  {
    hide Flat, Emit;
    BlockAt(Turns(ring, cuts, side), c);
  }

  /** A point that is not out is the last one pushed before the turn of its successor, around the ring. */
  lemma PredecessorIsPushed(ring: Ring, cuts: Ring, c: nat, side: Code)
    requires c < |ring| == |cuts| && !Out(ring[Before(|ring|, c)], side)
    ensures var out, k := Flat(Turns(ring, cuts, side)), Reached(ring, cuts, c, side);
            out != [] && k <= |out| && out[if k == 0 then |out| - 1 else k - 1] == ring[Before(|ring|, c)]
  {
    hide Flat;
    var turns := Turns(ring, cuts, side);
    var o := Before(|ring|, c);
    NothingFlat(turns);
    TurnAt(ring, cuts, c, side);
    TurnAt(ring, cuts, o, side);
    assert turns[..|ring|] == turns;
    var last := |turns[o]| - 1;
    assert Flat(turns)[Reached(ring, cuts, o, side) + last] == turns[o][last] == ring[o];
  }

  /** Where the vertices that one edge gives end up in the output. */
  lemma EdgeIsPushed(ring: Ring, cuts: Ring, c: nat, side: Code)
    requires c < |ring| == |cuts|
    ensures var out, k := Flat(Turns(ring, cuts, side)), Reached(ring, cuts, c, side);
            var a, r := ring[Before(|ring|, c)], ring[c];
            && (!Out(a, side) ==> k < |out| && out[Before(|out|, k)] == a && out[k] == if Out(r, side) then cuts[c] else r)
            && (Out(a, side) && !Out(r, side) ==> k + 1 < |out| && out[k] == cuts[c] && out[k + 1] == r)
  {
    hide Flat, Reached;
    TurnAt(ring, cuts, c, side);
    var more := Emit(ring[Before(|ring|, c)], ring[c], cuts[c], side);
    var out, k := Flat(Turns(ring, cuts, side)), Reached(ring, cuts, c, side);
    if !Out(ring[Before(|ring|, c)], side) {
      PredecessorIsPushed(ring, cuts, c, side);
      assert out[k + 0] == more[0];
    } else if !Out(ring[c], side) {
      assert out[k + 0] == more[0] && out[k + 1] == more[1];
    }
  }

  /** What is not beyond the side stays on the outline, if it stays between the cut and the end that is not out. */
  lemma EdgeIsCovered(ring: Ring, c: nat, side: Code, bounds: Bounds, round: bool, q: Point)
    requires bounds.Valid() && IsSide(side) && WellCoded(ring, bounds) && c < |ring|
    requires OnEdge(ring, c, q) && !Beyond(q, side, bounds)
    requires var a, r := ring[Before(|ring|, c)], ring[c];
             Out(a, side) != Out(r, side) ==>
               var cut := Cut(a, r, side, bounds, round).p;
               if Out(a, side) then OnSegment(cut, r.p, q) else OnSegment(a.p, cut, q)
    ensures OnOutline(Pass(ring, side, bounds, round), q)
  {
    var cuts := Cuts(ring, side, bounds, round);
    var out, k := Flat(Turns(ring, cuts, side)), Reached(ring, cuts, c, side);
    var a, r := ring[Before(|ring|, c)], ring[c];
    EdgeCrosses(a, r, side, bounds);
    EdgeIsPushed(ring, cuts, c, side);
    if Out(a, side) && Out(r, side) {
      OutlineBeyond(a.p, r.p, side, bounds, q);
    } else {
      assert OnEdge(out, if Out(a, side) then k + 1 else k, q);
    }
  }

  lemma OutlineBeyond(a: Point, b: Point, side: Code, bounds: Bounds, q: Point)
    requires IsSide(side) && Beyond(a, side, bounds) && Beyond(b, side, bounds) && OnSegment(a, b, q)
    ensures Beyond(q, side, bounds)
  {
    var t :| 0.0 <= t <= 1.0 && q == Lerp(a, b, t);
    LerpBetween(a.x, b.x, t, bounds.min.x);
    LerpBetween(a.x, b.x, t, bounds.max.x);
    LerpBetween(a.y, b.y, t, bounds.min.y);
    LerpBetween(a.y, b.y, t, bounds.max.y);
  }

  /** Every point of the input outline that is inside the bounds is on the outline after each pass, hence of the result. */
  lemma {:induction false} OutlineIsKept(points: seq<Point>, s: nat, bounds: Bounds, q: Point)
    requires bounds.Valid() && s <= 4 && bounds.Contains(q) && OnOutline(CodedRing(points, bounds), q)
    ensures OnOutline(Passes(points, s, bounds, false), q)
  {
    if s > 0 {
      OutlineIsKept(points, s - 1, bounds, q);
      var ring := Passes(points, s - 1, bounds, false);
      var c: nat :| c < |ring| && OnEdge(ring, c, q);
      var a, r, side := ring[Before(|ring|, c)], ring[c], SIDES[s - 1];
      if Out(a, side) != Out(r, side) {
        CutKeepsVisible(a, r, side, bounds, q);
      }
      EdgeIsCovered(ring, c, side, bounds, false, q);
    }
  }

  // With rounding that holds in bounds of a single pixel, and in no other whole-pixel bounds.

  lemma CutIsThePixel(a: CodedPoint, r: CodedPoint, side: Code, bounds: Bounds)
    requires bounds.min == bounds.max && Whole(bounds.min.x) && Whole(bounds.min.y) && IsSide(side)
    requires a == Coded(a.p, bounds) && r == Coded(r.p, bounds)
    requires Out(a, side) != Out(r, side) && OnSegment(a.p, r.p, bounds.min)
    ensures Cut(a, r, side, bounds, true).p == bounds.min
  {
    hide EdgeIntersection;
    EdgeCrosses(a, r, side, bounds);
    var q := bounds.min;
    var t :| 0.0 <= t <= 1.0 && q == Lerp(a.p, r.p, t);
    IntersectionIsLerp(a.p, r.p, side, bounds);
    var u := CutAt(a.p, r.p, side, bounds);
    SameRatio(a.p, r.p, side, bounds, t);
    RoundedIntersection(a.p, r.p, side, bounds, true);
    RoundOfWhole(q.x);
    RoundOfWhole(q.y);
  }

  lemma SameRatio(a: Point, r: Point, side: Code, bounds: Bounds, t: real)
    requires bounds.min == bounds.max && IsSide(side) && Crosses(a, r, side) && bounds.min == Lerp(a, r, t)
    ensures CutAt(a, r, side, bounds) == t
  {
    var q := bounds.min;
    if side == TOP || side == BOTTOM {
      RatioIs(a.y, r.y, q.y, t);
    } else {
      RatioIs(a.x, r.x, q.x, t);
    }
  }

  lemma RatioIs(p: real, q: real, m: real, t: real)
    requires p != q && m == p + t * (q - p)
    ensures Ratio(p, q, m) == t
  {
  }

  lemma {:induction false} PixelIsKept(points: seq<Point>, s: nat, bounds: Bounds)
    requires bounds.min == bounds.max && Whole(bounds.min.x) && Whole(bounds.min.y) && s <= 4
    requires OnOutline(CodedRing(points, bounds), bounds.min)
    ensures OnOutline(Passes(points, s, bounds, true), bounds.min)
  {
    hide Pass, Cut, Whole;
    if s > 0 {
      PixelIsKept(points, s - 1, bounds);
      var q, ring := bounds.min, Passes(points, s - 1, bounds, true);
      var c: nat :| c < |ring| && OnEdge(ring, c, q);
      var a, r, side := ring[Before(|ring|, c)], ring[c], SIDES[s - 1];
      if Out(a, side) != Out(r, side) {
        CutIsThePixel(a, r, side, bounds);
        EndsAreOn(a.p, q);
        EndsAreOn(q, r.p);
      }
      EdgeIsCovered(ring, c, side, bounds, true, q);
    }
  }

  lemma EndsAreOn(a: Point, b: Point)
    ensures OnSegment(a, b, a) && OnSegment(a, b, b)
  {
    assert a == Lerp(a, b, 0.0) && b == Lerp(a, b, 1.0);
  }

  /** A coordinate: the column or the row of a point. */
  function Line(p: Point, column: bool): real {
    if column then p.x else p.y
  }

  ghost predicate OnLine(ring: Ring, column: bool, v: real) {
    forall k :: 0 <= k < |ring| ==> Line(ring[k].p, column) == v
  }

  ghost predicate Holds(bounds: Bounds, column: bool, v: real) {
    Line(bounds.min, column) <= v <= Line(bounds.max, column)
  }

  /** A ring of one row or column inside the bounds stays on it. */
  lemma PassKeepsLine(ring: Ring, side: Code, bounds: Bounds, column: bool, v: real)
    requires bounds.Valid() && IsSide(side) && WellCoded(ring, bounds) && Whole(v)
    requires OnLine(ring, column, v) && Holds(bounds, column, v)
    ensures OnLine(Pass(ring, side, bounds, true), column, v)
  {
    if column == (side == LEFT || side == RIGHT) {
      PassSkips(ring, side, bounds, true);
    } else {
      var turns := Turns(ring, Cuts(ring, side, bounds, true), side);
      forall c | 0 <= c < |turns| ensures OnLine(turns[c], column, v) {
        EmitKeepsLine(ring[Before(|ring|, c)], ring[c], side, bounds, column, v);
      }
      FlatKeepsLine(turns, column, v);
    }
  }

  lemma EmitKeepsLine(a: CodedPoint, r: CodedPoint, side: Code, bounds: Bounds, column: bool, v: real)
    requires bounds.Valid() && IsSide(side) && column != (side == LEFT || side == RIGHT) && Whole(v)
    requires a == Coded(a.p, bounds) && r == Coded(r.p, bounds) && Line(a.p, column) == Line(r.p, column) == v
    ensures OnLine(Emit(a, r, Cut(a, r, side, bounds, true), side), column, v)
  {
    EdgeCrosses(a, r, side, bounds);
    RoundOfWhole(v);
    if Out(a, side) != Out(r, side) {
      AxisCut(a.p, r.p, side, bounds);
    }
  }

  lemma {:induction false} FlatKeepsLine(turns: seq<Ring>, column: bool, v: real)
    requires forall c :: 0 <= c < |turns| ==> OnLine(turns[c], column, v)
    ensures OnLine(Flat(turns), column, v)
  {
    if turns != [] {
      FlatKeepsLine(turns[..|turns| - 1], column, v);
      assert OnLine(turns[|turns| - 1], column, v);
    }
  }

  lemma LineMissesOthers(ring: Ring, column: bool, v: real, q: Point)
    requires OnLine(ring, column, v) && Line(q, column) != v
    ensures !OnOutline(ring, q)
  {
    forall c: nat | c < |ring| ensures !OnEdge(ring, c, q) {
      var a, r := ring[Before(|ring|, c)].p, ring[c].p;
      forall t | 0.0 <= t <= 1.0 ensures q != Lerp(a, r, t) {
        TimesNothing(t, Line(r, column) - Line(a, column));
      }
    }
  }


  /** An edge that crosses the lowest row, or the first column, half way between two pixels. */
  function Slanted(low: Point, column: bool): seq<Point> {
    [Point(low.x + 1.0, low.y + 1.0), if column then Point(low.x, low.y - 1.0) else Point(low.x - 1.0, low.y)]
  }

  function HalfWay(low: Point, column: bool): Point {
    if column then Point(low.x + 0.5, low.y) else Point(low.x, low.y + 0.5)
  }

  lemma SlantedCut(bounds: Bounds, column: bool)
    requires Whole(bounds.min.x) && Whole(bounds.min.y)
    ensures var low, side := bounds.min, if column then BOTTOM else LEFT;
            var b, a := Slanted(low, column)[0], Slanted(low, column)[1];
            var c := if column then Point(low.x + 1.0, low.y) else Point(low.x, low.y + 1.0);
            && Crosses(a, b, side) && EdgeIntersection(a, b, side, bounds, true) == c
            && Crosses(b, a, side) && EdgeIntersection(b, a, side, bounds, true) == c
  {
    hide Round, Whole;
    var low, side := bounds.min, if column then BOTTOM else LEFT;
    var b, a := Slanted(low, column)[0], Slanted(low, column)[1];
    var half := HalfWay(low, column);
    HalfIsMet(if column then low.y else low.x);
    RoundedIntersection(a, b, side, bounds, true);
    RoundedIntersection(b, a, side, bounds, true);
    assert EdgeIntersection(a, b, side, bounds, false) == half == EdgeIntersection(b, a, side, bounds, false);
    RoundOfWhole(low.x);
    RoundOfWhole(low.y);
    RoundOfHalf(if column then low.x else low.y);
  }

  lemma HalfIsMet(v: real)
    ensures Ratio(v - 1.0, v + 1.0, v) == 0.5 && Ratio(v + 1.0, v - 1.0, v) == 0.5
  {
  }

  lemma RoundOfHalf(v: real)
    requires Whole(v)
    ensures Round(v + 0.5) == v + 1.0
  {
    WholeAbove(v, 1);
  }

  lemma SlantedIsMoved(bounds: Bounds, column: bool)
    requires bounds.Valid() && Whole(bounds.min.x) && Whole(bounds.min.y) && Whole(bounds.max.x) && Whole(bounds.max.y)
    requires Line(bounds.min, column) < Line(bounds.max, column)
    ensures OnLine(Passes(Slanted(bounds.min, column), 4, bounds, true), column, Line(bounds.min, column) + 1.0)
  {
    hide Pass, EdgeIntersection, Whole, OnLine;
    var points, v, first: nat := Slanted(bounds.min, column), Line(bounds.min, column) + 1.0, if column then 1 else 0;
    var b, a, ring := Coded(points[0], bounds), Coded(points[1], bounds), CodedRing(points, bounds);
    assert ring == [b, a];
    WholeAbove(Line(bounds.min, column), 1);
    NextWhole(Line(bounds.min, column), Line(bounds.max, column));
    if column {
      PassSkips(ring, LEFT, bounds, true);
    }
    assert Passes(points, first, bounds, true) == ring;
    SlantedCut(bounds, column);
    EdgeCrosses(a, b, SIDES[first], bounds);
    var c := Cut(a, b, SIDES[first], bounds, true);
    PassOfTwo(b, a, c, SIDES[first], bounds, true);
    assert OnLine([c, b, c], column, v) by {
      OnLineOfThree(c, b, column, v);
    }
    for s := first + 1 to 4
      invariant OnLine(Passes(points, s, bounds, true), column, v)
    {
      PassKeepsLine(Passes(points, s, bounds, true), SIDES[s], bounds, column, v);
    }
  }

  lemma OnLineOfThree(c: CodedPoint, b: CodedPoint, column: bool, v: real)
    requires Line(c.p, column) == v && Line(b.p, column) == v
    ensures OnLine([c, b, c], column, v)
  {
  }

  lemma NextWhole(v: real, w: real)
    requires Whole(v) && Whole(w) && v < w
    ensures v + 1.0 <= w
  {
    WholesApart(v.Floor, w.Floor);
  }

  lemma WholesApart(m: int, n: int)
    requires m as real < n as real
    ensures m as real + 1.0 <= n as real
  {
    assert m < n;
  }

  lemma SlantedHalfWay(bounds: Bounds, column: bool)
    ensures Whole(bounds.min.x) && Whole(bounds.min.y) ==> AllWhole(Slanted(bounds.min, column))
    ensures OnOutline(CodedRing(Slanted(bounds.min, column), bounds), HalfWay(bounds.min, column))
  {
    var low := bounds.min;
    var points := Slanted(low, column);
    if Whole(low.x) && Whole(low.y) {
      WholeAbove(low.x, 1);
      WholeAbove(low.y, 1);
      WholeAbove(low.x, -1);
      WholeAbove(low.y, -1);
    }
    var ring := CodedRing(points, bounds);
    assert HalfWay(low, column) == Lerp(points[0], points[1], 0.5);
    assert OnEdge(ring, 1, HalfWay(low, column));
  }

  /**
   * In whole-pixel bounds, every point of every whole-pixel outline that is inside stays on the
   * outline exactly when nothing is rounded or the bounds are a single pixel.
   */
  lemma OutlineIsKeptExactlyWhen(bounds: Bounds, round: bool)
    requires bounds.Valid() && Whole(bounds.min.x) && Whole(bounds.min.y) && Whole(bounds.max.x) && Whole(bounds.max.y)
    ensures (forall points, q :: AllWhole(points) && bounds.Contains(q) && OnOutline(CodedRing(points, bounds), q) ==>
                                   OnOutline(Passes(points, 4, bounds, round), q))
            <==> (!round || bounds.min == bounds.max)
  {
    hide Passes, Whole, OnOutline, OnLine;
    if !round || bounds.min == bounds.max {
      forall points, q | bounds.Contains(q) && OnOutline(CodedRing(points, bounds), q)
        ensures OnOutline(Passes(points, 4, bounds, round), q)
      {
        if round {
          assert q == bounds.min;
          PixelIsKept(points, 4, bounds);
        } else {
          OutlineIsKept(points, 4, bounds, q);
        }
      }
    } else {
      var column := bounds.min.x < bounds.max.x;
      var points, q := Slanted(bounds.min, column), HalfWay(bounds.min, column);
      NextWhole(Line(bounds.min, column), Line(bounds.max, column));
      SlantedHalfWay(bounds, column);
      SlantedIsMoved(bounds, column);
      LineMissesOthers(Passes(points, 4, bounds, true), column, Line(bounds.min, column) + 1.0, q);
      assert AllWhole(points) && bounds.Contains(q) && !OnOutline(Passes(points, 4, bounds, true), q);
    }
  }

  /** The point lies on an edge with both ends inside the bounds. */
  ghost predicate OnInnerEdge(ring: Ring, q: Point) {
    exists c: nat | c < |ring| :: OnEdge(ring, c, q) && ring[c].code == 0 && ring[Before(|ring|, c)].code == 0
  }

  /** Rounded or not, an edge with both ends inside is an edge of the result. */
  lemma {:induction false} InnerEdgesAreKept(points: seq<Point>, s: nat, bounds: Bounds, round: bool, q: Point)
    requires bounds.Valid() && s <= 4 && OnInnerEdge(CodedRing(points, bounds), q)
    ensures OnInnerEdge(Passes(points, s, bounds, round), q)
  {
    hide Pass, OnEdge;
    if s > 0 {
      InnerEdgesAreKept(points, s - 1, bounds, round, q);
      var ring, side := Passes(points, s - 1, bounds, round), SIDES[s - 1];
      var c: nat :| c < |ring| && OnEdge(ring, c, q) && ring[c].code == 0 && ring[Before(|ring|, c)].code == 0;
      InnerEdgeIsPushed(ring, c, side, bounds, round, q);
    }
  }

  lemma InnerEdgeIsPushed(ring: Ring, c: nat, side: Code, bounds: Bounds, round: bool, q: Point)
    requires bounds.Valid() && IsSide(side) && WellCoded(ring, bounds) && c < |ring|
    requires OnEdge(ring, c, q) && ring[c].code == 0 && ring[Before(|ring|, c)].code == 0
    ensures OnInnerEdge(Pass(ring, side, bounds, round), q)
  {
    hide Flat, Emit, Cut;
    var cuts := Cuts(ring, side, bounds, round);
    var out, k := Flat(Turns(ring, cuts, side)), Reached(ring, cuts, c, side);
    EdgeIsPushed(ring, cuts, c, side);
    assert OnEdge(out, k, q);
  }

  // With rounding, every vertex that is not one of the input has whole coordinates.

  ghost predicate AllPixelsBut(ring: Ring, points: seq<Point>) {
    forall k :: 0 <= k < |ring| ==> ring[k].p in points || IsPixel(ring[k].p)
  }

  lemma {:induction false} NewVerticesArePixels(points: seq<Point>, s: nat, bounds: Bounds)
    requires bounds.Valid() && s <= 4
    ensures AllPixelsBut(Passes(points, s, bounds, true), points)
  {
    hide Cut, IsPixel, Flat, Emit;
    if s > 0 {
      var ring, side := Passes(points, s - 1, bounds, true), SIDES[s - 1];
      NewVerticesArePixels(points, s - 1, bounds);
      var turns := Turns(ring, Cuts(ring, side, bounds, true), side);
      forall c | 0 <= c < |turns| ensures AllPixelsBut(turns[c], points) {
        EmitsPixels(ring[Before(|ring|, c)], ring[c], side, bounds, points);
      }
      FlatOfPixels(turns, points);
    }
  }

  lemma EmitsPixels(a: CodedPoint, r: CodedPoint, side: Code, bounds: Bounds, points: seq<Point>)
    requires bounds.Valid() && IsSide(side) && a == Coded(a.p, bounds) && r == Coded(r.p, bounds)
    requires r.p in points || IsPixel(r.p)
    ensures AllPixelsBut(Emit(a, r, Cut(a, r, side, bounds, true), side), points)
  {
    hide IsPixel, EdgeIntersection;
    EdgeCrosses(a, r, side, bounds);
    if Out(a, side) != Out(r, side) {
      CutIsPixel(a.p, r.p, side, bounds);
    }
  }

  lemma {:induction false} FlatOfPixels(turns: seq<Ring>, points: seq<Point>)
    requires forall c :: 0 <= c < |turns| ==> AllPixelsBut(turns[c], points)
    ensures AllPixelsBut(Flat(turns), points)
  {
    hide IsPixel;
    if turns != [] {
      FlatOfPixels(turns[..|turns| - 1], points);
      assert AllPixelsBut(turns[|turns| - 1], points);
    }
  }

  // And nothing is made up: a vertex of the result is on the input outline, or is a corner of the bounds.

  /** How far rounding can have moved what `s` passes made, along each axis. */
  function Slack(s: nat, round: bool): real {
    if round then s as real * 0.5 else 0.0
  }

  predicate Close(p: Point, q: Point, slack: real) {
    -slack <= p.x - q.x <= slack && -slack <= p.y - q.y <= slack
  }

  function Rounded(v: real, round: bool): real {
    if round then Round(v) else v
  }

  predicate AtSide(p: Point, side: Code, bounds: Bounds, round: bool)
    requires IsSide(side)
  {
    if side == LEFT then p.x == Rounded(bounds.min.x, round)
    else if side == RIGHT then p.x == Rounded(bounds.max.x, round)
    else if side == BOTTOM then p.y == Rounded(bounds.min.y, round)
    else p.y == Rounded(bounds.max.y, round)
  }

  predicate IsCorner(p: Point, bounds: Bounds, round: bool) {
    && (p.x == Rounded(bounds.min.x, round) || p.x == Rounded(bounds.max.x, round))
    && (p.y == Rounded(bounds.min.y, round) || p.y == Rounded(bounds.max.y, round))
  }

  ghost predicate NearEdge(input: Ring, c: nat, p: Point, q: Point, p0: Point, q0: Point, slack: real)
    requires c < |input|
  {
    OnEdge(input, c, p0) && OnEdge(input, c, q0) && Close(p, p0, slack) && Close(q, q0, slack)
  }

  ghost predicate NearOneEdge(input: Ring, p: Point, q: Point, slack: real) {
    exists c: nat, p0, q0 | c < |input| :: NearEdge(input, c, p, q, p0, q0, slack)
  }

  ghost predicate OnOneSide(p: Point, q: Point, s: nat, bounds: Bounds, round: bool)
    requires s <= 4
  {
    exists k: nat | k < s :: AtSide(p, SIDES[k], bounds, round) && AtSide(q, SIDES[k], bounds, round)
  }

  /** After `s` passes an edge is near a part of an input edge, or runs along a side that was cut. */
  ghost predicate Sourced(input: Ring, s: nat, bounds: Bounds, round: bool, p: Point, q: Point)
    requires s <= 4
  {
    NearOneEdge(input, p, q, Slack(s, round)) || OnOneSide(p, q, s, bounds, round)
  }

  ghost predicate NearOutline(input: Ring, p: Point, slack: real) {
    exists o :: OnOutline(input, o) && Close(p, o, slack)
  }

  ghost predicate Genuine(input: Ring, s: nat, bounds: Bounds, round: bool, p: Point) {
    NearOutline(input, p, Slack(s, round)) || IsCorner(p, bounds, round)
  }

  lemma RoundIsClose(v: real)
    ensures -0.5 <= Round(v) - v <= 0.5 && Round(Round(v)) == Round(v)
  {
    RoundOfWhole(Round(v));
  }

  lemma NewPointIsClose(p: Point, q: Point, slack: real, round: bool)
    requires Close(p, q, slack)
    ensures Close(NewPoint(p.x, p.y, round), q, if round then slack + 0.5 else slack)
  {
    hide Round;
    RoundIsClose(p.x);
    RoundIsClose(p.y);
  }

  /** Points between two are as close to those between their neighbours. */
  lemma BetweenIsClose(p: real, q: real, p0: real, q0: real, u: real, slack: real)
    requires 0.0 <= u <= 1.0 && -slack <= p - p0 <= slack && -slack <= q - q0 <= slack
    ensures -slack <= (p + u * (q - p)) - (p0 + u * (q0 - p0)) <= slack
  {
    var d, e := p - p0, q - q0;
    LerpBetween(d, e, u, slack);
    LerpBetween(d, e, u, -slack);
    assert u * (e - d) == u * (q - p) - u * (q0 - p0) by {
      Distribute(q - p, p0 - q0, u);
    }
  }

  lemma LerpIsClose(p: Point, q: Point, p0: Point, q0: Point, u: real, slack: real)
    requires 0.0 <= u <= 1.0 && Close(p, p0, slack) && Close(q, q0, slack)
    ensures Close(Lerp(p, q, u), Lerp(p0, q0, u), slack)
  {
    BetweenIsClose(p.x, q.x, p0.x, q0.x, u, slack);
    BetweenIsClose(p.y, q.y, p0.y, q0.y, u, slack);
  }

  lemma SlackGrows(s: nat, next: nat, round: bool)
    requires next == s + 1
    ensures Slack(next, round) == if round then Slack(s, round) + 0.5 else Slack(s, round)
    ensures 0.0 <= Slack(s, round) <= Slack(next, round)
  {
  }

  /** The cut of an edge near an input edge. */
  lemma CutOfNearEdge(input: Ring, c: nat, a: Point, r: Point, p0: Point, q0: Point, u: real, cut: Point,
                      slack: real, more: real, round: bool)
    requires c < |input| && NearEdge(input, c, a, r, p0, q0, slack) && 0.0 <= u <= 1.0
    requires more == (if round then slack + 0.5 else slack)
    requires var v := Lerp(a, r, u); cut == NewPoint(v.x, v.y, round)
    ensures NearOneEdge(input, a, cut, more) && NearOneEdge(input, cut, r, more) && NearOutline(input, cut, more)
  {
    hide NewPoint, Lerp;
    var o := Lerp(p0, q0, u);
    BetweenOnSegment(input[Before(|input|, c)].p, input[c].p, p0, q0, u);
    LerpIsClose(a, r, p0, q0, u, slack);
    NewPointIsClose(Lerp(a, r, u), o, slack, round);
    assert OnEdge(input, c, o);
    assert NearEdge(input, c, a, cut, p0, o, more) && NearEdge(input, c, cut, r, o, q0, more);
    assert OnOutline(input, o);
  }

  /** The cut of an edge along a side that was cut before is a corner. */
  lemma CutOfSide(a: Point, r: Point, side: Code, other: Code, u: real, cut: Point, bounds: Bounds, round: bool)
    requires IsSide(side) && IsSide(other) && AtSide(a, other, bounds, round) && AtSide(r, other, bounds, round)
    requires Beyond(a, side, bounds) != Beyond(r, side, bounds) && AtSide(cut, side, bounds, round)
    requires var v := Lerp(a, r, u); cut == NewPoint(v.x, v.y, round)
    ensures AtSide(cut, other, bounds, round) && IsCorner(cut, bounds, round)
  {
    hide Round;
    LerpStaysAt(a, r, u, other, bounds, round);
    RoundIsClose(bounds.min.x);
    RoundIsClose(bounds.max.x);
    RoundIsClose(bounds.min.y);
    RoundIsClose(bounds.max.y);
  }

  /** A cut is on the rounded line it is cut at, and near everything that both ends of its edge are near. */
  lemma CutIsSourced(input: Ring, s: nat, bounds: Bounds, round: bool, a: CodedPoint, r: CodedPoint)
    requires bounds.Valid() && s < 4 && a == Coded(a.p, bounds) && r == Coded(r.p, bounds)
    requires Out(a, SIDES[s]) != Out(r, SIDES[s]) && Sourced(input, s, bounds, round, a.p, r.p)
    ensures var cut := Cut(a, r, SIDES[s], bounds, round).p;
            && AtSide(cut, SIDES[s], bounds, round)
            && Sourced(input, s + 1, bounds, round, a.p, cut) && Sourced(input, s + 1, bounds, round, cut, r.p)
            && Genuine(input, s + 1, bounds, round, cut)
  {
    hide EdgeIntersection, CutAt, Lerp, NearEdge, Slack, NewPoint, AtSide, IsCorner;
    var side := SIDES[s];
    EdgeCrosses(a, r, side, bounds);
    CutParameter(a.p, r.p, side, bounds, 0.0);
    IntersectionIsLerp(a.p, r.p, side, bounds);
    RoundedIntersection(a.p, r.p, side, bounds, round);
    var u, cut := CutAt(a.p, r.p, side, bounds), Cut(a, r, side, bounds, round).p;
    CutIsAtSide(a, r, side, bounds, round);
    SlackGrows(s, s + 1, round);
    if NearOneEdge(input, a.p, r.p, Slack(s, round)) {
      var c: nat, p0, q0 :| c < |input| && NearEdge(input, c, a.p, r.p, p0, q0, Slack(s, round));
      CutOfNearEdge(input, c, a.p, r.p, p0, q0, u, cut, Slack(s, round), Slack(s + 1, round), round);
    } else {
      var k: nat :| k < s && AtSide(a.p, SIDES[k], bounds, round) && AtSide(r.p, SIDES[k], bounds, round);
      CutOfSide(a.p, r.p, side, SIDES[k], u, cut, bounds, round);
      assert OnOneSide(a.p, cut, s + 1, bounds, round) && OnOneSide(cut, r.p, s + 1, bounds, round);
    }
  }

  lemma CutIsAtSide(a: CodedPoint, r: CodedPoint, side: Code, bounds: Bounds, round: bool)
    requires bounds.Valid() && IsSide(side) && a == Coded(a.p, bounds) && r == Coded(r.p, bounds)
    requires Out(a, side) != Out(r, side)
    ensures AtSide(Cut(a, r, side, bounds, round).p, side, bounds, round)
  {
    hide Round;
    EdgeCrosses(a, r, side, bounds);
  }

  lemma LerpStaysAt(a: Point, b: Point, u: real, side: Code, bounds: Bounds, round: bool)
    requires IsSide(side) && AtSide(a, side, bounds, round) && AtSide(b, side, bounds, round)
    ensures AtSide(Lerp(a, b, u), side, bounds, round)
  {
    hide Round;
  }

  lemma BetweenOnSegment(a: Point, b: Point, p: Point, q: Point, u: real)
    requires OnSegment(a, b, p) && OnSegment(a, b, q) && 0.0 <= u <= 1.0
    ensures OnSegment(a, b, Lerp(p, q, u))
  {
    var t0 :| 0.0 <= t0 <= 1.0 && p == Lerp(a, b, t0);
    var t1 :| 0.0 <= t1 <= 1.0 && q == Lerp(a, b, t1);
    LerpCompose(a, b, t0, t1, u);
    LerpBetween(t0, t1, u, 0.0);
    LerpBetween(t0, t1, u, 1.0);
  }

  lemma SourcedByOnePassMore(input: Ring, s: nat, bounds: Bounds, round: bool, p: Point, q: Point)
    requires s < 4
    requires Sourced(input, s, bounds, round, p, q)
             || (AtSide(p, SIDES[s], bounds, round) && AtSide(q, SIDES[s], bounds, round))
    ensures Sourced(input, s + 1, bounds, round, p, q)
  {
    hide AtSide;
    SlackGrows(s, s + 1, round);
    if AtSide(p, SIDES[s], bounds, round) && AtSide(q, SIDES[s], bounds, round) {
      assert OnOneSide(p, q, s + 1, bounds, round);
    } else if NearOneEdge(input, p, q, Slack(s, round)) {
      var c: nat, p0, q0 :| c < |input| && NearEdge(input, c, p, q, p0, q0, Slack(s, round));
      assert NearEdge(input, c, p, q, p0, q0, Slack(s + 1, round));
    } else {
      var k: nat :| k < s && AtSide(p, SIDES[k], bounds, round) && AtSide(q, SIDES[k], bounds, round);
      assert k < s + 1;
    }
  }

  lemma GenuineByOnePassMore(input: Ring, s: nat, bounds: Bounds, round: bool, p: Point)
    requires Genuine(input, s, bounds, round, p)
    ensures Genuine(input, s + 1, bounds, round, p)
  {
    SlackGrows(s, s + 1, round);
    if o :| OnOutline(input, o) && Close(p, o, Slack(s, round)) {
      assert Close(p, o, Slack(s + 1, round));
    }
  }

  /** What a pass may push coming from `a` to `r`: every step along it is sourced, and cuts are on the cut side. */
  ghost predicate StepIsSourced(input: Ring, s: nat, bounds: Bounds, round: bool, a: CodedPoint, r: CodedPoint, cut: CodedPoint)
    requires s < 4
  {
    && (Out(a, SIDES[s]) != Out(r, SIDES[s]) ==>
          && AtSide(cut.p, SIDES[s], bounds, round) && Genuine(input, s + 1, bounds, round, cut.p)
          && Sourced(input, s + 1, bounds, round, a.p, cut.p) && Sourced(input, s + 1, bounds, round, cut.p, r.p))
    && (!Out(a, SIDES[s]) && !Out(r, SIDES[s]) ==> Sourced(input, s + 1, bounds, round, a.p, r.p))
    && Genuine(input, s + 1, bounds, round, r.p)
  }

  ghost predicate StepsAreSourced(input: Ring, s: nat, bounds: Bounds, round: bool, ring: Ring, cuts: Ring)
    requires s < 4 && |ring| == |cuts|
  {
    forall c: nat | c < |ring| :: StepIsSourced(input, s, bounds, round, ring[Before(|ring|, c)], ring[c], cuts[c])
  }

  lemma StepFromSourced(input: Ring, s: nat, bounds: Bounds, round: bool, a: CodedPoint, r: CodedPoint)
    requires bounds.Valid() && s < 4 && a == Coded(a.p, bounds) && r == Coded(r.p, bounds)
    requires Sourced(input, s, bounds, round, a.p, r.p) && Genuine(input, s, bounds, round, r.p)
    ensures StepIsSourced(input, s, bounds, round, a, r, Cut(a, r, SIDES[s], bounds, round))
  {
    hide Sourced, Genuine, AtSide, Cut, BitCode;
    GenuineByOnePassMore(input, s, bounds, round, r.p);
    if Out(a, SIDES[s]) != Out(r, SIDES[s]) {
      CutIsSourced(input, s, bounds, round, a, r);
    } else {
      SourcedByOnePassMore(input, s, bounds, round, a.p, r.p);
    }
  }

  lemma NothingFlat(turns: seq<Ring>)
    ensures Flat(turns[..0]) == []
  {
  }

  /** After a point that is out, the last vertex pushed is a cut. */
  lemma {:induction false} LastIsACut(input: Ring, s: nat, bounds: Bounds, round: bool, ring: Ring, cuts: Ring, c: nat)
    requires s < 4 && 0 < c <= |ring| == |cuts| && StepsAreSourced(input, s, bounds, round, ring, cuts)
    requires Out(ring[c - 1], SIDES[s])
    ensures var upTo := Flat(Turns(ring, cuts, SIDES[s])[..c]);
            && (upTo != [] ==> AtSide(upTo[|upTo| - 1].p, SIDES[s], bounds, round))
            && (upTo == [] ==> Out(ring[|ring| - 1], SIDES[s]))
  {
    hide Flat, AtSide, Sourced, Genuine;
    var a, turns := ring[Before(|ring|, c - 1)], Turns(ring, cuts, SIDES[s]);
    FlatNext(turns, c - 1);
    NothingFlat(turns);
    assert StepIsSourced(input, s, bounds, round, a, ring[c - 1], cuts[c - 1]);
    if Out(a, SIDES[s]) {
      assert turns[c - 1] == [];
      if c > 1 {
        LastIsACut(input, s, bounds, round, ring, cuts, c - 1);
      }
    } else {
      assert turns[c - 1] == [cuts[c - 1]];
    }
  }

  /** The vertex pushed before the turn of a point, around the ring: its predecessor, or a cut if that is out. */
  lemma PushedBefore(input: Ring, s: nat, bounds: Bounds, round: bool, ring: Ring, cuts: Ring, c: nat)
    requires s < 4 && c < |ring| == |cuts| && StepsAreSourced(input, s, bounds, round, ring, cuts)
    requires Reached(ring, cuts, c, SIDES[s]) < |Flat(Turns(ring, cuts, SIDES[s]))|
    ensures var out, k := Flat(Turns(ring, cuts, SIDES[s])), Reached(ring, cuts, c, SIDES[s]);
            var a, last := ring[Before(|ring|, c)], out[Before(|out|, k)];
            if Out(a, SIDES[s]) then AtSide(last.p, SIDES[s], bounds, round) else last == a
  {
    hide Flat, StepsAreSourced, AtSide;
    if !Out(ring[Before(|ring|, c)], SIDES[s]) {
      PredecessorIsPushed(ring, cuts, c, SIDES[s]);
    } else {
      var turns := Turns(ring, cuts, SIDES[s]);
      NothingFlat(turns);
      FlatIsPrefix(turns, c);
      assert turns[..|ring|] == turns;
      if c > 0 {
        LastIsACut(input, s, bounds, round, ring, cuts, c);
      }
      if Flat(turns[..c]) == [] {
        LastIsACut(input, s, bounds, round, ring, cuts, |ring|);
      }
    }
  }

  ghost predicate SourcedUpTo(input: Ring, s: nat, bounds: Bounds, round: bool, out: Ring, k: nat)
    requires s <= 4 && k <= |out|
  {
    forall i: nat | i < k ::
      Sourced(input, s, bounds, round, out[Before(|out|, i)].p, out[i].p) && Genuine(input, s, bounds, round, out[i].p)
  }

  /** The vertices `more`, pushed after `last`, make sourced edges. */
  ghost predicate Linked(input: Ring, s: nat, bounds: Bounds, round: bool, last: CodedPoint, more: Ring)
    requires s <= 4
  {
    forall i: nat | i < |more| :: LinkedAt(input, s, bounds, round, last, more, i)
  }

  ghost predicate LinkedAt(input: Ring, s: nat, bounds: Bounds, round: bool, last: CodedPoint, more: Ring, i: nat)
    requires s <= 4 && i < |more|
  {
    Sourced(input, s, bounds, round, (if i == 0 then last else more[i - 1]).p, more[i].p) && Genuine(input, s, bounds, round, more[i].p)
  }

  lemma PushedIsLinked(input: Ring, s: nat, bounds: Bounds, round: bool, a: CodedPoint, r: CodedPoint, cut: CodedPoint, last: CodedPoint)
    requires s < 4 && StepIsSourced(input, s, bounds, round, a, r, cut)
    requires if Out(a, SIDES[s]) then AtSide(last.p, SIDES[s], bounds, round) else last == a
    ensures Linked(input, s + 1, bounds, round, last, Emit(a, r, cut, SIDES[s]))
  {
    if Out(a, SIDES[s]) && !Out(r, SIDES[s]) {
      SourcedByOnePassMore(input, s, bounds, round, last.p, cut.p);
    }
  }

  lemma BlockIsSourced(input: Ring, s: nat, bounds: Bounds, round: bool, out: Ring, k: nat, more: Ring)
    requires s <= 4 && k < k + |more| <= |out| && (forall i | 0 <= i < |more| :: out[k + i] == more[i])
    requires SourcedUpTo(input, s, bounds, round, out, k) && Linked(input, s, bounds, round, out[Before(|out|, k)], more)
    ensures SourcedUpTo(input, s, bounds, round, out, k + |more|)
  {
    forall i: nat | k <= i < k + |more|
      ensures Sourced(input, s, bounds, round, out[Before(|out|, i)].p, out[i].p) && Genuine(input, s, bounds, round, out[i].p)
    {
      assert LinkedAt(input, s, bounds, round, out[Before(|out|, k)], more, i - k);
      assert out[k + (i - k)] == more[i - k];
      if i > k {
        assert out[k + (i - 1 - k)] == more[i - 1 - k];
      }
    }
  }

  lemma TurnIsLinked(input: Ring, s: nat, bounds: Bounds, round: bool, ring: Ring, cuts: Ring, c: nat)
    requires s < 4 && c < |ring| == |cuts| && StepsAreSourced(input, s, bounds, round, ring, cuts)
    ensures LinkedTurn(input, s + 1, bounds, round, Turns(ring, cuts, SIDES[s]), c)
  {
    var turns := Turns(ring, cuts, SIDES[s]);
    BlockAt(turns, c);
    if turns[c] != [] {
      var out := Flat(turns);
      PushedBefore(input, s, bounds, round, ring, cuts, c);
      PushedIsLinked(input, s, bounds, round, ring[Before(|ring|, c)], ring[c], cuts[c], out[Before(|out|, |Flat(turns[..c])|)]);
    }
  }

  ghost predicate LinkedTurn(input: Ring, s: nat, bounds: Bounds, round: bool, turns: seq<Ring>, c: nat)
    requires s <= 4 && c < |turns|
  {
    var out, k := Flat(turns), |Flat(turns[..c])|;
    turns[c] != [] ==> k < |out| && Linked(input, s, bounds, round, out[Before(|out|, k)], turns[c])
  }

  lemma {:induction false} TurnsAreSourced(input: Ring, s: nat, bounds: Bounds, round: bool, turns: seq<Ring>, c: nat)
    requires s <= 4 && c <= |turns| && forall d: nat | d < |turns| :: LinkedTurn(input, s, bounds, round, turns, d)
    ensures |Flat(turns[..c])| <= |Flat(turns)| && SourcedUpTo(input, s, bounds, round, Flat(turns), |Flat(turns[..c])|)
  {
    if c > 0 {
      TurnsAreSourced(input, s, bounds, round, turns, c - 1);
      BlockAt(turns, c - 1);
      assert LinkedTurn(input, s, bounds, round, turns, c - 1);
      if turns[c - 1] != [] {
        BlockIsSourced(input, s, bounds, round, Flat(turns), |Flat(turns[..c - 1])|, turns[c - 1]);
      }
    }
  }

  lemma {:induction false} PassesAreSourced(points: seq<Point>, s: nat, bounds: Bounds, round: bool)
    requires bounds.Valid() && s <= 4
    ensures var out := Passes(points, s, bounds, round);
            SourcedUpTo(CodedRing(points, bounds), s, bounds, round, out, |out|)
  {
    var input := CodedRing(points, bounds);
    if s == 0 {
      forall i: nat | i < |input|
        ensures Sourced(input, 0, bounds, round, input[Before(|input|, i)].p, input[i].p) && Genuine(input, s, bounds, round, input[i].p)
      {
        var a, b := input[Before(|input|, i)].p, input[i].p;
        assert a == Lerp(a, b, 0.0) && b == Lerp(a, b, 1.0);
        assert OnEdge(input, i, a) && OnEdge(input, i, b) && OnOutline(input, b);
        assert NearEdge(input, i, a, b, a, b, Slack(0, round)) && Close(b, b, Slack(0, round));
      }
    } else {
      var ring := Passes(points, s - 1, bounds, round);
      PassesAreSourced(points, s - 1, bounds, round);
      var cuts := Cuts(ring, SIDES[s - 1], bounds, round);
      forall c: nat | c < |ring|
        ensures StepIsSourced(input, s - 1, bounds, round, ring[Before(|ring|, c)], ring[c], cuts[c])
      {
        StepFromSourced(input, s - 1, bounds, round, ring[Before(|ring|, c)], ring[c]);
      }
      var turns := Turns(ring, cuts, SIDES[s - 1]);
      forall c: nat | c < |ring|
        ensures LinkedTurn(input, s, bounds, round, turns, c)
      {
        TurnIsLinked(input, s - 1, bounds, round, ring, cuts, c);
      }
      TurnsAreSourced(input, s, bounds, round, turns, |ring|);
      assert turns[..|ring|] == turns;
    }
  }

  /**
   * Every vertex of the result is on the input outline or is a corner of the bounds; with rounding,
   * it is within two pixels of the outline along each axis, or is a rounded corner.
   */
  lemma ClippedIsGenuine(points: seq<Point>, bounds: Bounds, round: bool)
    requires bounds.Valid()
    ensures forall v | v in Passes(points, 4, bounds, round) ::
              IsCorner(v.p, bounds, round)
              || if round then NearOutline(CodedRing(points, bounds), v.p, 2.0) else OnOutline(CodedRing(points, bounds), v.p)
  {
    hide Passes, IsCorner, OnOutline, Sourced;
    PassesAreSourced(points, 4, bounds, round);
    var input, out := CodedRing(points, bounds), Passes(points, 4, bounds, round);
    forall v | v in out
      ensures IsCorner(v.p, bounds, round) || if round then NearOutline(input, v.p, 2.0) else OnOutline(input, v.p)
    {
      var i: nat :| i < |out| && out[i] == v;
      assert Genuine(input, 4, bounds, round, out[i].p);
      if !round && NearOutline(input, v.p, 0.0) {
        var o :| OnOutline(input, o) && Close(v.p, o, 0.0);
        assert v.p == o;
      }
    }
  }
}
