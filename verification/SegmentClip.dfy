/** Cohen-Sutherland segment clipping and the polyline clipping built on it. */
module SegmentClip {
  import opened Geometry
  import opened Options

  // What a clip computes: the loop of the original as a recursion on the segment that is left.

  function Weight(code: Code): nat {
    if code & 12 != 0 then 2 else if code & 3 != 0 then 1 else 0
  }

  /** How many clips are still possible. */
  function Rank(h: Code, l: Code): (clips: nat) {
    if h & l != 0 then 0 else Weight(h) + Weight(l)
  }

  function Clip(a: Point, b: Point, bounds: Bounds, round: bool): Option<(Point, Point)>
    requires bounds.Clippable(round)
    decreases Rank(BitCode(a, bounds), BitCode(b, bounds))
  {
    var h, l := BitCode(a, bounds), BitCode(b, bounds);
    if h | l == 0 then
      Some((a, b))
    else if h & l != 0 then
      None
    else
      var s := if h != 0 then h else l;
      CutCrosses(a, b, bounds);
      CutMakesProgress(a, b, bounds, round);
      var r := EdgeIntersection(a, b, s, bounds, round);
      if s == h then Clip(r, b, bounds, round) else Clip(a, r, bounds, round)
  }

  /** The intersection never divides by zero: one end is beyond the cut side and the other is not. */
  lemma CutCrosses(a: Point, b: Point, bounds: Bounds)
    requires bounds.Valid()
    requires BitCode(a, bounds) & BitCode(b, bounds) == 0 && BitCode(a, bounds) | BitCode(b, bounds) != 0
    ensures var h, l := BitCode(a, bounds), BitCode(b, bounds);
            var s := if h != 0 then h else l;
            s != 0 && Crosses(a, b, s)
            && Beyond(a, CutSide(s), bounds) != Beyond(b, CutSide(s), bounds)
            && (Beyond(a, CutSide(s), bounds) <==> s == h)
  {
    BitCodeMeansBeyond(a, bounds);
    BitCodeMeansBeyond(b, bounds);
    var h, l := BitCode(a, bounds), BitCode(b, bounds);
    var s := if h != 0 then h else l;
    assert h & CutSide(s) == 0 || l & CutSide(s) == 0;
  }

  /** The parameter at which the segment meets the line it is cut at. */
  function CutAt(a: Point, b: Point, code: Code, bounds: Bounds): real
    requires code != 0 && Crosses(a, b, code)
  {
    if 8 & code != 0 then Ratio(a.y, b.y, bounds.max.y)
    else if 4 & code != 0 then Ratio(a.y, b.y, bounds.min.y)
    else if 2 & code != 0 then Ratio(a.x, b.x, bounds.max.x)
    else Ratio(a.x, b.x, bounds.min.x)
  }

  lemma IntersectionIsLerp(a: Point, b: Point, code: Code, bounds: Bounds)
    requires code != 0 && Crosses(a, b, code)
    ensures EdgeIntersection(a, b, code, bounds, false) == Lerp(a, b, CutAt(a, b, code, bounds))
  {
    hide Ratio, Lerp;
    var u := CutAt(a, b, code, bounds);
    if 8 & code != 0 {
      AlongY(a, b, bounds.max.y, u);
    } else if 4 & code != 0 {
      AlongY(a, b, bounds.min.y, u);
    } else if 2 & code != 0 {
      AlongX(a, b, bounds.max.x, u);
    } else {
      AlongX(a, b, bounds.min.x, u);
    }
  }

  lemma AlongX(a: Point, b: Point, m: real, u: real)
    requires a.x != b.x && u == Ratio(a.x, b.x, m)
    ensures Lerp(a, b, u) == Point(m, a.y + u * (b.y - a.y))
  {
    hide Ratio;
    RatioReaches(a.x, b.x, m);
    var p := Lerp(a, b, u);
    assert p.x == m;
    assert p == Point(p.x, p.y);
  }

  lemma AlongY(a: Point, b: Point, m: real, u: real)
    requires a.y != b.y && u == Ratio(a.y, b.y, m)
    ensures Lerp(a, b, u) == Point(a.x + u * (b.x - a.x), m)
  {
    hide Ratio;
    RatioReaches(a.y, b.y, m);
    var p := Lerp(a, b, u);
    assert p.y == m;
    assert p == Point(p.x, p.y);
  }

  /** Which part of the segment is beyond the cut side. */
  lemma CutParameter(a: Point, b: Point, code: Code, bounds: Bounds, t: real)
    requires bounds.Valid() && code != 0
    requires Beyond(a, CutSide(code), bounds) != Beyond(b, CutSide(code), bounds)
    ensures Crosses(a, b, code) && 0.0 <= CutAt(a, b, code, bounds) <= 1.0
    ensures var u, p, side := CutAt(a, b, code, bounds), Lerp(a, b, t), CutSide(code);
            && (Beyond(a, side, bounds) ==> (Beyond(p, side, bounds) <==> t < u))
            && (Beyond(b, side, bounds) ==> (Beyond(p, side, bounds) <==> t > u))
  {
    var p := Lerp(a, b, t);
    if 8 & code != 0 {
      CrossingParameter(a.y, b.y, bounds.max.y, Ratio(a.y, b.y, bounds.max.y), t, p.y);
    } else if 4 & code != 0 {
      CrossingParameter(a.y, b.y, bounds.min.y, Ratio(a.y, b.y, bounds.min.y), t, p.y);
    } else if 2 & code != 0 {
      CrossingParameter(a.x, b.x, bounds.max.x, Ratio(a.x, b.x, bounds.max.x), t, p.x);
    } else {
      CrossingParameter(a.x, b.x, bounds.min.x, Ratio(a.x, b.x, bounds.min.x), t, p.x);
    }
  }

  /** The new point is not beyond the line it was cut at, and no further out the other way than the two ends. */
  lemma CutPoint(a: Point, b: Point, code: Code, bounds: Bounds, round: bool)
    requires bounds.Clippable(round) && code != 0
    requires Beyond(a, CutSide(code), bounds) != Beyond(b, CutSide(code), bounds)
    ensures Crosses(a, b, code)
    ensures var r := EdgeIntersection(a, b, code, bounds, round);
            && (if 12 & code != 0 then bounds.min.y <= r.y <= bounds.max.y else bounds.min.x <= r.x <= bounds.max.x)
            && forall side | IsSide(side) && Beyond(r, side, bounds) :: Beyond(a, side, bounds) || Beyond(b, side, bounds)
  {
    CutParameter(a, b, code, bounds, 0.0);
    IntersectionIsLerp(a, b, code, bounds);
    OnTheCutSide(a, b, code, bounds, round);
    BetweenTheEnds(a, b, CutAt(a, b, code, bounds), bounds, round);
    var r := EdgeIntersection(a, b, code, bounds, round);
    RoundedIntersection(a, b, code, bounds, round);
  }

  lemma RoundedIntersection(a: Point, b: Point, code: Code, bounds: Bounds, round: bool)
    requires code != 0 && Crosses(a, b, code)
    ensures var p := EdgeIntersection(a, b, code, bounds, false);
            EdgeIntersection(a, b, code, bounds, round) == NewPoint(p.x, p.y, round)
  {
  }

  lemma OnTheCutSide(a: Point, b: Point, code: Code, bounds: Bounds, round: bool)
    requires bounds.Clippable(round) && code != 0 && Crosses(a, b, code)
    ensures var r := EdgeIntersection(a, b, code, bounds, round);
            if 12 & code != 0 then bounds.min.y <= r.y <= bounds.max.y else bounds.min.x <= r.x <= bounds.max.x
  {
    if round {
      RoundIsMonotone(bounds.min.x, bounds.max.x);
      RoundIsMonotone(bounds.min.y, bounds.max.y);
    }
    assert 12 & code != 0 <==> 8 & code != 0 || 4 & code != 0;
  }

  lemma BetweenTheEnds(a: Point, b: Point, u: real, bounds: Bounds, round: bool)
    requires bounds.Clippable(round) && 0.0 <= u <= 1.0
    ensures var p := Lerp(a, b, u);
            var r := NewPoint(p.x, p.y, round);
            forall side | IsSide(side) && Beyond(r, side, bounds) :: Beyond(a, side, bounds) || Beyond(b, side, bounds)
  {
    var p := Lerp(a, b, u);
    CoordinateBetween(a.x, b.x, u, p.x, bounds.min.x, bounds.max.x, round);
    CoordinateBetween(a.y, b.y, u, p.y, bounds.min.y, bounds.max.y, round);
    NotBeyond(a, b, NewPoint(p.x, p.y, round), bounds);
  }

  predicate Within(p: real, q: real, r: real, lo: real, hi: real) {
    (p >= lo && q >= lo ==> r >= lo) && (p <= hi && q <= hi ==> r <= hi)
  }

  lemma NotBeyond(a: Point, b: Point, r: Point, bounds: Bounds)
    requires Within(a.x, b.x, r.x, bounds.min.x, bounds.max.x) && Within(a.y, b.y, r.y, bounds.min.y, bounds.max.y)
    ensures forall side | IsSide(side) && Beyond(r, side, bounds) :: Beyond(a, side, bounds) || Beyond(b, side, bounds)
  {
  }

  lemma CoordinateBetween(p: real, q: real, u: real, v: real, lo: real, hi: real, round: bool)
    requires 0.0 <= u <= 1.0 && (round ==> Round(lo) >= lo && Round(hi) <= hi) && v == p + u * (q - p)
    ensures Within(p, q, if round then Round(v) else v, lo, hi)
  {
    LerpBetween(p, q, u, lo);
    LerpBetween(p, q, u, hi);
    if round && v >= lo {
      RoundIsMonotone(lo, v);
    }
    if round && v <= hi {
      RoundIsMonotone(v, hi);
    }
  }

  lemma WeightMeaning(p: Point, bounds: Bounds)
    requires bounds.Valid()
    ensures var code := BitCode(p, bounds);
            && (Weight(code) == 2 <==> code & 12 != 0)
            && (code & 12 != 0 <==> Beyond(p, TOP, bounds) || Beyond(p, BOTTOM, bounds))
            && (Weight(code) == 0 <==> code == 0)
  {
    BitCodeMeansBeyond(p, bounds);
  }

  lemma CutMakesProgress(a: Point, b: Point, bounds: Bounds, round: bool)
    requires bounds.Clippable(round)
    requires BitCode(a, bounds) & BitCode(b, bounds) == 0 && BitCode(a, bounds) | BitCode(b, bounds) != 0
    ensures var h, l := BitCode(a, bounds), BitCode(b, bounds);
            var s := if h != 0 then h else l;
            && s != 0 && Crosses(a, b, s)
            && var c := BitCode(EdgeIntersection(a, b, s, bounds, round), bounds);
               (if s == h then Rank(c, l) else Rank(h, c)) < Rank(h, l)
  {
    CutCrosses(a, b, bounds);
    var h, l := BitCode(a, bounds), BitCode(b, bounds);
    var s := if h != 0 then h else l;
    CutPoint(a, b, s, bounds, round);
    var r := EdgeIntersection(a, b, s, bounds, round);
    BitCodeMeansBeyond(a, bounds);
    BitCodeMeansBeyond(b, bounds);
    BitCodeMeansBeyond(r, bounds);
    WeightMeaning(a, bounds);
    WeightMeaning(b, bounds);
    WeightMeaning(r, bounds);
    assert 12 & s == s & 12;
    SharedSide(a, r, bounds);
    SharedSide(r, b, bounds);
  }

  // Exactness: what is kept is the part of the segment that is inside the bounds.

  /** Exactly the parameters from `t0` to `t1` give points inside the bounds. */
  ghost predicate VisiblePart(a: Point, b: Point, bounds: Bounds, t0: real, t1: real) {
    && 0.0 <= t0 <= t1 <= 1.0
    && forall t | 0.0 <= t <= 1.0 :: bounds.Contains(Lerp(a, b, t)) <==> t0 <= t <= t1
  }

  ghost predicate Invisible(a: Point, b: Point, bounds: Bounds) {
    forall t | 0.0 <= t <= 1.0 :: !bounds.Contains(Lerp(a, b, t))
  }

  /** Nothing outside the parameters from `t0` to `t1` is inside the bounds. */
  ghost predicate Encloses(a: Point, b: Point, bounds: Bounds, t0: real, t1: real) {
    && 0.0 <= t0 <= t1 <= 1.0
    && forall t | 0.0 <= t <= 1.0 && bounds.Contains(Lerp(a, b, t)) :: t0 <= t <= t1
  }

  /** The clip is refused only when the segment misses the bounds, and otherwise keeps exactly the part inside, in its direction. */
  lemma ClipIsExact(a: Point, b: Point, bounds: Bounds)
    requires bounds.Clippable(false)
    ensures match Clip(a, b, bounds, false)
            case None => Invisible(a, b, bounds)
            case Some(part) =>
              exists t0, t1 :: VisiblePart(a, b, bounds, t0, t1) && part == (Lerp(a, b, t0), Lerp(a, b, t1))
  {
    assert Lerp(a, b, 0.0) == a && Lerp(a, b, 1.0) == b;
    var t0, t1 := ClipWithin(a, b, 0.0, 1.0, bounds);
  }

  lemma {:induction false} ClipWithin(a: Point, b: Point, t0: real, t1: real, bounds: Bounds) returns (v0: real, v1: real)
    requires bounds.Clippable(false) && Encloses(a, b, bounds, t0, t1)
    ensures match Clip(Lerp(a, b, t0), Lerp(a, b, t1), bounds, false)
            case None => Invisible(a, b, bounds)
            case Some(part) => VisiblePart(a, b, bounds, v0, v1) && part == (Lerp(a, b, v0), Lerp(a, b, v1))
    decreases Rank(BitCode(Lerp(a, b, t0), bounds), BitCode(Lerp(a, b, t1), bounds))
  {
    var p, q := Lerp(a, b, t0), Lerp(a, b, t1);
    var h, l := BitCode(p, bounds), BitCode(q, bounds);
    v0, v1 := t0, t1;
    if h | l == 0 {
      BothInside(a, b, t0, t1, bounds);
    } else if h & l != 0 {
      BothBeyond(a, b, t0, t1, bounds);
    } else {
      var s := if h != 0 then h else l;
      CutCrosses(p, q, bounds);
      CutMakesProgress(p, q, bounds, false);
      CutParameter(p, q, s, bounds, 0.0);
      IntersectionIsLerp(p, q, s, bounds);
      var u := CutAt(p, q, s, bounds);
      var m := t0 + u * (t1 - t0);
      LerpCompose(a, b, t0, t1, u);
      CutEncloses(a, b, t0, t1, s, bounds, m);
      if s == h {
        v0, v1 := ClipWithin(a, b, m, t1, bounds);
      } else {
        v0, v1 := ClipWithin(a, b, t0, m, bounds);
      }
    }
  }

  /** A parameter between two others, as a parameter of the part between them. */
  lemma Reparametrize(a: Point, b: Point, t0: real, t1: real, t: real) returns (v: real)
    requires t0 <= t <= t1 && t0 < t1
    ensures 0.0 <= v <= 1.0 && t == t0 + v * (t1 - t0)
    ensures Lerp(Lerp(a, b, t0), Lerp(a, b, t1), v) == Lerp(a, b, t)
  {
    v := (t - t0) / (t1 - t0);
    LerpCompose(a, b, t0, t1, v);
  }

  lemma BothInside(a: Point, b: Point, t0: real, t1: real, bounds: Bounds)
    requires bounds.Valid() && Encloses(a, b, bounds, t0, t1)
    requires BitCode(Lerp(a, b, t0), bounds) | BitCode(Lerp(a, b, t1), bounds) == 0
    ensures VisiblePart(a, b, bounds, t0, t1)
  {
    var p, q := Lerp(a, b, t0), Lerp(a, b, t1);
    BitCodeMeansBeyond(p, bounds);
    BitCodeMeansBeyond(q, bounds);
    forall t | t0 <= t <= t1
      ensures bounds.Contains(Lerp(a, b, t))
    {
      if t0 < t1 {
        var v := Reparametrize(a, b, t0, t1, t);
        StaysInside(p, q, v, bounds);
      } else {
        assert t == t0;
      }
    }
  }

  lemma StaysInside(p: Point, q: Point, v: real, bounds: Bounds)
    requires bounds.Contains(p) && bounds.Contains(q) && 0.0 <= v <= 1.0
    ensures bounds.Contains(Lerp(p, q, v))
  {
    LerpBetween(p.x, q.x, v, bounds.min.x);
    LerpBetween(p.x, q.x, v, bounds.max.x);
    LerpBetween(p.y, q.y, v, bounds.min.y);
    LerpBetween(p.y, q.y, v, bounds.max.y);
  }

  lemma BothBeyond(a: Point, b: Point, t0: real, t1: real, bounds: Bounds)
    requires bounds.Valid() && Encloses(a, b, bounds, t0, t1)
    requires BitCode(Lerp(a, b, t0), bounds) & BitCode(Lerp(a, b, t1), bounds) != 0
    ensures Invisible(a, b, bounds)
  {
    var p, q := Lerp(a, b, t0), Lerp(a, b, t1);
    SharedSide(p, q, bounds);
    var side :| IsSide(side) && Beyond(p, side, bounds) && Beyond(q, side, bounds);
    forall t | 0.0 <= t <= 1.0
      ensures !bounds.Contains(Lerp(a, b, t))
    {
      if t0 < t1 && t0 <= t <= t1 {
        var v := Reparametrize(a, b, t0, t1, t);
        StaysBeyond(p, q, v, side, bounds);
      }
    }
  }

  lemma StaysBeyond(p: Point, q: Point, v: real, side: Code, bounds: Bounds)
    requires bounds.Valid() && IsSide(side) && Beyond(p, side, bounds) && Beyond(q, side, bounds) && 0.0 <= v <= 1.0
    ensures !bounds.Contains(Lerp(p, q, v))
  {
    LerpBetween(p.x, q.x, v, bounds.min.x);
    LerpBetween(p.x, q.x, v, bounds.max.x);
    LerpBetween(p.y, q.y, v, bounds.min.y);
    LerpBetween(p.y, q.y, v, bounds.max.y);
  }

  /** Cutting at the side line loses nothing that is inside. */
  lemma CutEncloses(a: Point, b: Point, t0: real, t1: real, code: Code, bounds: Bounds, m: real)
    requires bounds.Valid() && Encloses(a, b, bounds, t0, t1) && code != 0
    requires var p, q := Lerp(a, b, t0), Lerp(a, b, t1);
             && Beyond(p, CutSide(code), bounds) != Beyond(q, CutSide(code), bounds)
             && Crosses(p, q, code) && 0.0 <= CutAt(p, q, code, bounds) <= 1.0
             && m == t0 + CutAt(p, q, code, bounds) * (t1 - t0)
    ensures Beyond(Lerp(a, b, t0), CutSide(code), bounds) ==> Encloses(a, b, bounds, m, t1)
    ensures !Beyond(Lerp(a, b, t0), CutSide(code), bounds) ==> Encloses(a, b, bounds, t0, m)
  {
    var p, q := Lerp(a, b, t0), Lerp(a, b, t1);
    var u := CutAt(p, q, code, bounds);
    Between(t0, t1, u, m);
    forall t | 0.0 <= t <= 1.0 && bounds.Contains(Lerp(a, b, t))
      ensures if Beyond(p, CutSide(code), bounds) then m <= t else t <= m
    {
      var v := Reparametrize(a, b, t0, t1, t);
      CutParameter(p, q, code, bounds, v);
      Ordered(t0, t1, u, v);
    }
  }

  lemma Between(t0: real, t1: real, u: real, m: real)
    requires t0 <= t1 && 0.0 <= u <= 1.0 && m == t0 + u * (t1 - t0)
    ensures t0 <= m <= t1
  {
    ProductIsMonotone(0.0, u, t1 - t0);
    ProductIsMonotone(u, 1.0, t1 - t0);
  }

  lemma Ordered(t0: real, t1: real, u: real, v: real)
    requires t0 <= t1
    ensures u <= v ==> t0 + u * (t1 - t0) <= t0 + v * (t1 - t0)
    ensures v <= u ==> t0 + v * (t1 - t0) <= t0 + u * (t1 - t0)
  {
    if u <= v {
      ProductIsMonotone(u, v, t1 - t0);
    }
    if v <= u {
      ProductIsMonotone(v, u, t1 - t0);
    }
  }

  // With or without rounding: what is kept lies inside the bounds, and an end is moved exactly when it lies outside.

  lemma {:induction false} ClipEnds(a: Point, b: Point, bounds: Bounds, round: bool)
    requires bounds.Clippable(round)
    ensures EndsKept(a, b, Clip(a, b, bounds, round), bounds)
    decreases Rank(BitCode(a, bounds), BitCode(b, bounds))
  {
    var h, l := BitCode(a, bounds), BitCode(b, bounds);
    BitCodeMeansBeyond(a, bounds);
    BitCodeMeansBeyond(b, bounds);
    if h | l != 0 && h & l == 0 {
      var s := if h != 0 then h else l;
      CutCrosses(a, b, bounds);
      CutMakesProgress(a, b, bounds, round);
      var r := EdgeIntersection(a, b, s, bounds, round);
      if s == h {
        ClipEnds(r, b, bounds, round);
      } else {
        ClipEnds(a, r, bounds, round);
      }
    }
  }

  // When the loop ends.

  /** The segment after one turn of the loop; `None` when the loop returns instead. */
  ghost function LoopTurn(a: Point, b: Point, bounds: Bounds, round: bool): Option<(Point, Point)>
    requires bounds.Valid()
  {
    var h, l := BitCode(a, bounds), BitCode(b, bounds);
    if h | l == 0 || h & l != 0 then None
    else
      CutCrosses(a, b, bounds);
      var s := if h != 0 then h else l;
      var r := EdgeIntersection(a, b, s, bounds, round);
      Some(if s == h then (r, b) else (a, r))
  }

  /** The segment after `n` turns; `None` when the loop has returned before. */
  ghost function AfterTurns(a: Point, b: Point, bounds: Bounds, round: bool, n: nat): Option<(Point, Point)>
    requires bounds.Valid()
    decreases n
  {
    if n == 0 then Some((a, b))
    else
      match LoopTurn(a, b, bounds, round)
      case None => None
      case Some((p, q)) => AfterTurns(p, q, bounds, round, n - 1)
  }

  ghost predicate LoopEnds(a: Point, b: Point, bounds: Bounds, round: bool)
    requires bounds.Valid()
  {
    exists n: nat :: AfterTurns(a, b, bounds, round, n).None?
  }

  /** What the loop returns when it ends. */
  ghost predicate LoopReturns(a: Point, b: Point, bounds: Bounds, round: bool, r: ClipResult)
    requires bounds.Valid()
  {
    exists n: nat, p, q ::
      && AfterTurns(a, b, bounds, round, n) == Some((p, q)) && LoopTurn(p, q, bounds, round).None?
      && r == if BitCode(p, bounds) | BitCode(q, bounds) == 0 then Some((p, q)) else None
  }

  lemma {:induction false} AfterNextTurn(a: Point, b: Point, bounds: Bounds, round: bool, n: nat, p: Point, q: Point, next: nat)
    requires bounds.Valid() && AfterTurns(a, b, bounds, round, n) == Some((p, q)) && next == n + 1
    ensures AfterTurns(a, b, bounds, round, next) == LoopTurn(p, q, bounds, round)
    decreases n
  {
    hide LoopTurn;
    if n > 0 {
      var (p', q') := LoopTurn(a, b, bounds, round).value;
      AfterNextTurn(p', q', bounds, round, n - 1, p, q, n);
    } else if LoopTurn(a, b, bounds, round).Some? {
      var (p', q') := LoopTurn(a, b, bounds, round).value;
      assert AfterTurns(p', q', bounds, round, 0) == Some((p', q'));
    }
  }

  lemma NoTurnYet(a: Point, b: Point, bounds: Bounds, round: bool)
    requires bounds.Valid()
    ensures AfterTurns(a, b, bounds, round, 0) == Some((a, b))
    ensures Rank(BitCode(a, bounds), BitCode(b, bounds)) <= 4
  {
  }

  lemma MoreTurns(a: Point, b: Point, bounds: Bounds, round: bool, n: nat)
    requires bounds.Valid() && AfterTurns(a, b, bounds, round, n).None?
    ensures n > 0
    ensures LoopTurn(a, b, bounds, round).Some? ==>
              var (p, q) := LoopTurn(a, b, bounds, round).value; AfterTurns(p, q, bounds, round, n - 1).None?
  {
  }

  lemma ClippableEnds(a: Point, b: Point, bounds: Bounds, round: bool)
    requires bounds.Clippable(round)
    ensures LoopEnds(a, b, bounds, round)
  {
    hide BitCode, AfterTurns;
    EndsWithinRank(a, b, bounds, round, Rank(BitCode(a, bounds), BitCode(b, bounds)) + 1);
  }

  lemma {:induction false} EndsWithinRank(a: Point, b: Point, bounds: Bounds, round: bool, n: nat)
    requires bounds.Clippable(round) && n > Rank(BitCode(a, bounds), BitCode(b, bounds))
    ensures AfterTurns(a, b, bounds, round, n).None?
    decreases n
  {
    hide EdgeIntersection, BitCode, Rank;
    var h, l := BitCode(a, bounds), BitCode(b, bounds);
    if h | l != 0 && h & l == 0 {
      CutMakesProgress(a, b, bounds, round);
      var s := if h != 0 then h else l;
      var r := EdgeIntersection(a, b, s, bounds, round);
      if s == h {
        EndsWithinRank(r, b, bounds, round, n - 1);
      } else {
        EndsWithinRank(a, r, bounds, round, n - 1);
      }
    }
  }

  lemma {:induction false} GoesOnForEver(a: Point, b: Point, bounds: Bounds, round: bool, n: nat)
    requires bounds.Valid() && LoopTurn(a, b, bounds, round) == Some((a, b))
    ensures AfterTurns(a, b, bounds, round, n) == Some((a, b))
    decreases n
  {
    hide LoopTurn;
    if n > 0 {
      GoesOnForEver(a, b, bounds, round, n - 1);
    }
  }

  /** The corner of bounds that rounding takes outside, if it takes any. */
  ghost function PushedCorner(bounds: Bounds): Point {
    var low, high := bounds.min, bounds.max;
    Point(if Round(low.x) < low.x then low.x else high.x, if Round(low.y) < low.y then low.y else high.y)
  }

  /** From such a corner's rounded point to the corner, every cut is at the corner and rounds back to where it was. */
  lemma PushedCornerStays(bounds: Bounds)
    requires bounds.Valid() && !bounds.Steady()
    ensures var b := PushedCorner(bounds); LoopTurn(NewPoint(b.x, b.y, true), b, bounds, true) == Some((NewPoint(b.x, b.y, true), b))
  {
    hide Round;
    var b := PushedCorner(bounds);
    var a := NewPoint(b.x, b.y, true);
    RoundIsMonotone(bounds.min.x, bounds.max.x);
    RoundIsMonotone(bounds.min.y, bounds.max.y);
    BitCodeMeansBeyond(b, bounds);
    BitCodeMeansBeyond(a, bounds);
    CutCrosses(a, b, bounds);
    CornerIsCut(a, b, BitCode(a, bounds), bounds);
  }

  lemma CornerIsCut(a: Point, b: Point, code: Code, bounds: Bounds)
    requires code != 0 && Crosses(a, b, code) && a == NewPoint(b.x, b.y, true)
    requires b.y == if 8 & code != 0 then bounds.max.y else if 4 & code != 0 then bounds.min.y else b.y
    requires 12 & code == 0 ==> b.x == if 2 & code != 0 then bounds.max.x else bounds.min.x
    ensures EdgeIntersection(a, b, code, bounds, true) == a
  {
    hide NewPoint, EdgeIntersection;
    RoundedIntersection(a, b, code, bounds, true);
    CornerIsMet(a, b, code, bounds);
  }

  lemma CornerIsMet(a: Point, b: Point, code: Code, bounds: Bounds)
    requires code != 0 && Crosses(a, b, code)
    requires b.y == if 8 & code != 0 then bounds.max.y else if 4 & code != 0 then bounds.min.y else b.y
    requires 12 & code == 0 ==> b.x == if 2 & code != 0 then bounds.max.x else bounds.min.x
    ensures EdgeIntersection(a, b, code, bounds, false) == b
  {
    hide Round, Ratio;
    var dx, dy := b.x - a.x, b.y - a.y;
    if 12 & code != 0 {
      RatioOfEnd(a.y, b.y);
      assert a.x + 1.0 * dx == b.x;
    } else {
      RatioOfEnd(a.x, b.x);
      assert a.y + 1.0 * dy == b.y;
    }
  }

  /** Rounded clipping ends for every segment exactly when rounding pushes no side of the bounds outward. */
  lemma RoundedClipEndsExactlyWhen(bounds: Bounds)
    requires bounds.Valid()
    ensures (forall a, b :: LoopEnds(a, b, bounds, true)) <==> bounds.Steady()
  {
    hide Round, LoopTurn, AfterTurns, BitCode;
    if bounds.Steady() {
      forall a, b ensures LoopEnds(a, b, bounds, true) {
        EndsWithinRank(a, b, bounds, true, Rank(BitCode(a, bounds), BitCode(b, bounds)) + 1);
      }
    } else {
      var b := PushedCorner(bounds);
      var a := NewPoint(b.x, b.y, true);
      PushedCornerStays(bounds);
      forall n: nat ensures AfterTurns(a, b, bounds, true, n).Some? {
        GoesOnForEver(a, b, bounds, true, n);
      }
      assert !LoopEnds(a, b, bounds, true);
    }
  }

  // Polyline clipping.

  /** An accepted clip of one edge of a ring; `joined` when the part it belongs to goes on with the next edge. */
  datatype Piece = Piece(from: Point, to: Point, joined: bool)

  type ClipResult = Option<(Point, Point)>

  /** Of every edge of the ring, what the clipping loop returns. */
  ghost predicate ClipsOf(ring: seq<Point>, bounds: Bounds, round: bool, clips: seq<ClipResult>)
    requires bounds.Valid()
  {
    && |clips| == (if ring == [] then 0 else |ring| - 1)
    && forall e :: 0 <= e < |ring| - 1 ==> LoopReturns(ring[e], ring[e + 1], bounds, round, clips[e])
  }

  ghost predicate AllClipsOf(rings: seq<seq<Point>>, bounds: Bounds, round: bool, clips: seq<seq<ClipResult>>)
    requires bounds.Valid()
  {
    |clips| == |rings| && forall r :: 0 <= r < |rings| ==> ClipsOf(rings[r], bounds, round, clips[r])
  }

  /** The accepted ones among the clips of a ring's edges, from edge `e` on. */
  function Pieces(ring: seq<Point>, clips: seq<ClipResult>, e: nat): seq<Piece>
    requires |ring| <= |clips| + 1
    decreases |ring| - e
  {
    if e + 1 >= |ring| then []
    else
      (match clips[e]
       case None => []
       case Some((p, q)) => [Piece(p, q, q == ring[e + 1] && e + 2 < |ring|)])
      + Pieces(ring, clips, e + 1)
  }

  /** The accepted clips of all rings, in order. */
  function AllPieces(rings: seq<seq<Point>>, clips: seq<seq<ClipResult>>): seq<Piece>
    requires |clips| == |rings| && forall r :: 0 <= r < |rings| ==> |rings[r]| <= |clips[r]| + 1
  {
    if rings == [] then []
    else
      var n := |rings| - 1;
      AllPieces(rings[..n], clips[..n]) + Pieces(rings[n], clips[n], 0)
  }

  lemma AllPiecesNext(rings: seq<seq<Point>>, clips: seq<seq<ClipResult>>, ring: seq<Point>, more: seq<ClipResult>)
    requires |clips| == |rings| && forall r :: 0 <= r < |rings| ==> |rings[r]| <= |clips[r]| + 1
    requires |ring| <= |more| + 1
    ensures AllPieces(rings + [ring], clips + [more]) == AllPieces(rings, clips) + Pieces(ring, more, 0)
  {
    hide Pieces;
    assert (rings + [ring])[..|rings|] == rings && (clips + [more])[..|clips|] == clips;
  }

  lemma NothingAssembled()
    ensures AllPieces([], []) == [] && Assembled([], [])
  {
  }

  // Every point that is drawn is a vertex, or a cut that was rounded.

  predicate IsPixel(p: Point) {
    Whole(p.x) && Whole(p.y)
  }

  lemma {:induction false} TurnsRound(a: Point, b: Point, bounds: Bounds, n: nat)
    requires bounds.Valid() && AfterTurns(a, b, bounds, true, n).Some?
    ensures var (p, q) := AfterTurns(a, b, bounds, true, n).value;
            (p == a || IsPixel(p)) && (q == b || IsPixel(q))
    decreases n
  {
    hide EdgeIntersection, BitCode, Whole;
    if n > 0 && LoopTurn(a, b, bounds, true).Some? {
      var (p, q) := LoopTurn(a, b, bounds, true).value;
      CutCrosses(a, b, bounds);
      var h := BitCode(a, bounds);
      CutIsPixel(a, b, if h != 0 then h else BitCode(b, bounds), bounds);
      TurnsRound(p, q, bounds, n - 1);
    }
  }

  lemma CutIsPixel(a: Point, b: Point, code: Code, bounds: Bounds)
    requires code != 0 && Crosses(a, b, code)
    ensures IsPixel(EdgeIntersection(a, b, code, bounds, true))
  {
    hide EdgeIntersection, Round, Whole;
    RoundedIntersection(a, b, code, bounds, true);
    var p := EdgeIntersection(a, b, code, bounds, false);
    RoundIsNearest(p.x, p.x);
    RoundIsNearest(p.y, p.y);
  }

  /** The point is a vertex of a ring, or has whole coordinates. */
  ghost predicate Placed(rings: seq<seq<Point>>, p: Point) {
    (exists r, k :: 0 <= r < |rings| && 0 <= k < |rings[r]| && rings[r][k] == p) || IsPixel(p)
  }

  ghost predicate AllPlaced(rings: seq<seq<Point>>, pieces: seq<Piece>) {
    forall k :: 0 <= k < |pieces| ==> Placed(rings, pieces[k].from) && Placed(rings, pieces[k].to)
  }

  lemma {:induction false} PiecesArePlaced(rings: seq<seq<Point>>, r: nat, bounds: Bounds, clips: seq<ClipResult>, e: nat)
    requires bounds.Valid() && r < |rings| && ClipsOf(rings[r], bounds, true, clips)
    ensures AllPlaced(rings, Pieces(rings[r], clips, e))
    decreases |rings[r]| - e
  {
    hide LoopTurn, AfterTurns, IsPixel;
    var ring := rings[r];
    if e + 1 < |ring| {
      PiecesArePlaced(rings, r, bounds, clips, e + 1);
      if clips[e].Some? {
        var n: nat, p, q :| AfterTurns(ring[e], ring[e + 1], bounds, true, n) == Some((p, q)) && clips[e] == Some((p, q));
        TurnsRound(ring[e], ring[e + 1], bounds, n);
        assert rings[r][e] == ring[e] && rings[r][e + 1] == ring[e + 1];
        assert Placed(rings, p) && Placed(rings, q);
      }
    }
  }

  lemma BothPlaced(rings: seq<seq<Point>>, pieces: seq<Piece>, more: seq<Piece>)
    requires AllPlaced(rings, pieces) && AllPlaced(rings, more)
    ensures AllPlaced(rings, pieces + more)
  {
    hide Placed;
  }

  lemma NothingPlaced(rings: seq<seq<Point>>)
    ensures AllPlaced(rings, AllPieces([], []))
  {
  }

  lemma {:induction false} AllPiecesArePlaced(rings: seq<seq<Point>>, bounds: Bounds, clips: seq<seq<ClipResult>>, n: nat)
    requires bounds.Valid() && AllClipsOf(rings, bounds, true, clips) && n <= |rings|
    ensures AllPlaced(rings, AllPieces(rings[..n], clips[..n]))
  {
    hide Pieces, AllPieces, AllPlaced, LoopReturns;
    if n > 0 {
      var m := n - 1;
      AllPiecesArePlaced(rings, bounds, clips, m);
      PiecesArePlaced(rings, m, bounds, clips[m], 0);
      assert rings[..n] == rings[..m] + [rings[m]] && clips[..n] == clips[..m] + [clips[m]];
      AllPiecesNext(rings[..m], clips[..m], rings[m], clips[m]);
      BothPlaced(rings, AllPieces(rings[..m], clips[..m]), Pieces(rings[m], clips[m], 0));
    } else {
      NothingPlaced(rings);
    }
  }

  lemma {:induction false} PartsArePlaced(rings: seq<seq<Point>>, parts: seq<seq<Point>>, pieces: seq<Piece>)
    requires Assembled(parts, pieces) && AllPlaced(rings, pieces)
    ensures forall i, k :: 0 <= i < |parts| && 0 <= k < |parts[i]| ==> Placed(rings, parts[i][k])
    decreases |parts|
  {
    hide Placed, Chain, OnePart;
    if parts != [] {
      var n, last := |parts| - 1, parts[|parts| - 1];
      var cut := |pieces| + 1 - |last|;
      assert forall k :: 0 <= k < |pieces[cut..]| ==> pieces[cut..][k] == pieces[cut + k];
      PartIsPlaced(rings, last, pieces[cut..]);
      PartsArePlaced(rings, parts[..n], pieces[..cut]);
      assert forall i :: 0 <= i < n ==> parts[..n][i] == parts[i];
    }
  }

  lemma PartIsPlaced(rings: seq<seq<Point>>, part: seq<Point>, pieces: seq<Piece>)
    requires Chain(part, pieces) && pieces != [] && AllPlaced(rings, pieces)
    ensures forall k :: 0 <= k < |part| ==> Placed(rings, part[k])
  {
    hide Placed;
    forall k | 0 <= k < |part| ensures Placed(rings, part[k]) {
      if k < |pieces| {
        assert pieces[k].from == part[k];
      } else {
        assert pieces[k - 1].to == part[k];
      }
    }
  }

  /** In steady bounds the loop returns the clip. */
  lemma {:induction false} LoopReturnsClip(a: Point, b: Point, bounds: Bounds, round: bool)
    requires bounds.Clippable(round)
    ensures LoopReturns(a, b, bounds, round, Clip(a, b, bounds, round))
    decreases Rank(BitCode(a, bounds), BitCode(b, bounds))
  {
    hide EdgeIntersection, BitCode, Rank, LoopReturns, AfterTurns;
    if LoopTurn(a, b, bounds, round).Some? {
      var (p, q) := LoopTurn(a, b, bounds, round).value;
      CutCrosses(a, b, bounds);
      CutMakesProgress(a, b, bounds, round);
      LoopReturnsClip(p, q, bounds, round);
      ReturnsAfterTurn(a, b, bounds, round, p, q, Clip(a, b, bounds, round));
    } else {
      ReturnsAtOnce(a, b, bounds, round);
    }
  }

  lemma ReturnsAtOnce(a: Point, b: Point, bounds: Bounds, round: bool)
    requires bounds.Valid() && LoopTurn(a, b, bounds, round).None?
    ensures LoopReturns(a, b, bounds, round, if BitCode(a, bounds) | BitCode(b, bounds) == 0 then Some((a, b)) else None)
  {
    hide BitCode, LoopTurn;
    NoTurnYet(a, b, bounds, round);
  }

  lemma ReturnsAfterTurn(a: Point, b: Point, bounds: Bounds, round: bool, p: Point, q: Point, r: ClipResult)
    requires bounds.Valid() && LoopTurn(a, b, bounds, round) == Some((p, q)) && LoopReturns(p, q, bounds, round, r)
    ensures LoopReturns(a, b, bounds, round, r)
  {
    hide BitCode, LoopTurn;
    var n: nat, t, e :| AfterTurns(p, q, bounds, round, n) == Some((t, e)) && LoopTurn(t, e, bounds, round).None?
                        && r == if BitCode(t, bounds) | BitCode(e, bounds) == 0 then Some((t, e)) else None;
    assert AfterTurns(a, b, bounds, round, n + 1) == Some((t, e));
  }

  lemma ClipEdges(ring: seq<Point>, bounds: Bounds, round: bool) returns (clips: seq<ClipResult>)
    requires bounds.Clippable(round)
    ensures ClipsOf(ring, bounds, round, clips)
    ensures forall e :: 0 <= e < |ring| - 1 ==> clips[e] == Clip(ring[e], ring[e + 1], bounds, round)
  {
    hide LoopReturns, Clip;
    clips := seq(if ring == [] then 0 else |ring| - 1,
                 e requires 0 <= e < |ring| - 1 => Clip(ring[e], ring[e + 1], bounds, round));
    forall e | 0 <= e < |ring| - 1 ensures LoopReturns(ring[e], ring[e + 1], bounds, round, clips[e]) {
      LoopReturnsClip(ring[e], ring[e + 1], bounds, round);
    }
  }

  /** What clipping an edge of a ring promises about its ends. */
  ghost predicate EndsKept(a: Point, b: Point, clip: ClipResult, bounds: Bounds) {
    match clip
    case None => !bounds.Contains(a) && !bounds.Contains(b)
    case Some((p, q)) =>
      && bounds.Contains(p) && bounds.Contains(q)
      && (p == a <==> bounds.Contains(a)) && (q == b <==> bounds.Contains(b))
  }

  /** The consecutive pairs of points of `part` are the given pieces. */
  ghost predicate Chain(part: seq<Point>, pieces: seq<Piece>) {
    && |part| == |pieces| + 1
    && forall k | 0 <= k < |pieces| :: pieces[k].from == part[k] && pieces[k].to == part[k + 1]
  }

  /** Every piece but the last goes on with the next. */
  ghost predicate OnePart(pieces: seq<Piece>) {
    pieces != [] && forall k | 0 <= k < |pieces| :: pieces[k].joined <==> k < |pieces| - 1
  }

  /** The parts are the pieces in order, one part for each run of joined pieces. */
  ghost predicate Assembled(parts: seq<seq<Point>>, pieces: seq<Piece>)
    decreases |parts|
  {
    if parts == [] then
      pieces == []
    else
      var last := parts[|parts| - 1];
      && 2 <= |last| <= |pieces| + 1
      && var cut := |pieces| + 1 - |last|;
         Chain(last, pieces[cut..]) && OnePart(pieces[cut..]) && Assembled(parts[..|parts| - 1], pieces[..cut])
  }

  lemma AssembledExtend(parts: seq<seq<Point>>, pieces: seq<Piece>, part: seq<Point>, more: seq<Piece>)
    requires Assembled(parts, pieces) && Chain(part, more) && OnePart(more)
    ensures Assembled(parts + [part], pieces + more)
  {
    var all, ps := pieces + more, parts + [part];
    assert ps[..|ps| - 1] == parts;
    assert all[|pieces|..] == more && all[..|pieces|] == pieces;
  }

  /** A part that is still open at the point `at`: its pieces so far all go on with the next edge. */
  ghost predicate Open(part: seq<Point>, pieces: seq<Piece>, at: Point, bounds: Bounds) {
    if part == [] then
      pieces == []
    else
      Chain(part + [at], pieces) && bounds.Contains(at) && forall k | 0 <= k < |pieces| :: pieces[k].joined
  }

  /** One more accepted clip keeps the part open, or closes it. */
  lemma Joined(part: seq<Point>, pieces: seq<Piece>, at: Point, bounds: Bounds, p: Point, q: Point, joined: bool)
    requires Open(part, pieces, at, bounds) && (bounds.Contains(at) ==> p == at) && bounds.Contains(q)
    ensures var more := pieces + [Piece(p, q, joined)];
            Chain(part + [p] + [q], more) && if joined then Open(part + [p], more, q, bounds) else OnePart(more)
  {
    var more, longer := pieces + [Piece(p, q, joined)], part + [p] + [q];
    forall k | 0 <= k < |more|
      ensures more[k].from == longer[k] && more[k].to == longer[k + 1]
    {
      if k < |pieces| {
        assert pieces[k].from == (part + [at])[k] && pieces[k].to == (part + [at])[k + 1];
      }
    }
  }

  /** The state of the inner loop before edge `e` of a ring: the closed parts, and the open one. */
  ghost predicate Drawn(parts: seq<seq<Point>>, pieces: seq<Piece>, part: seq<Point>, open: seq<Piece>,
                        ring: seq<Point>, clips: seq<ClipResult>, e: nat, bounds: Bounds, target: seq<Piece>)
    requires |ring| <= |clips| + 1
  {
    && Assembled(parts, pieces)
    && (if e < |ring| then Open(part, open, ring[e], bounds) else part == [] && open == [])
    && (part != [] ==> e + 1 < |ring|)
    && pieces + open + Pieces(ring, clips, e) == target
  }

  lemma DrawnAtStart(parts: seq<seq<Point>>, pieces: seq<Piece>, ring: seq<Point>, clips: seq<ClipResult>,
                     bounds: Bounds, target: seq<Piece>)
    requires |ring| <= |clips| + 1 && Assembled(parts, pieces) && target == pieces + Pieces(ring, clips, 0)
    ensures Drawn(parts, pieces, [], [], ring, clips, 0, bounds, target)
  {
    hide Assembled, Pieces;
    assert pieces + [] == pieces;
  }

  lemma DrawnAtEnd(parts: seq<seq<Point>>, pieces: seq<Piece>, part: seq<Point>, open: seq<Piece>,
                   ring: seq<Point>, clips: seq<ClipResult>, e: nat, bounds: Bounds, target: seq<Piece>)
    requires |ring| <= |clips| + 1 && e + 1 >= |ring| && Drawn(parts, pieces, part, open, ring, clips, e, bounds, target)
    ensures Assembled(parts, pieces) && pieces == target
  {
    hide Assembled;
    assert pieces + [] + [] == pieces;
  }

  lemma PiecesNext(ring: seq<Point>, clips: seq<ClipResult>, e: nat, next: nat, p: Point, q: Point)
    requires |ring| <= |clips| + 1 && next == e + 1 < |ring| && clips[e] == Some((p, q))
    ensures Pieces(ring, clips, e) == [Piece(p, q, q == ring[next] && e + 2 < |ring|)] + Pieces(ring, clips, next)
  {
  }

  /** In steady bounds a piece goes on with the next edge exactly when there is one and it starts inside. */
  lemma JoinedExactlyInside(ring: seq<Point>, bounds: Bounds, round: bool, clips: seq<ClipResult>, e: nat)
    requires bounds.Clippable(round) && e + 1 < |ring| && |ring| == |clips| + 1
    requires clips[e] == Clip(ring[e], ring[e + 1], bounds, round) && clips[e].Some?
    ensures var piece := Pieces(ring, clips, e)[0];
            && clips[e] == Some((piece.from, piece.to))
            && (piece.joined <==> bounds.Contains(ring[e + 1]) && e + 2 < |ring|)
  {
    hide Clip;
    ClipEnds(ring[e], ring[e + 1], bounds, round);
  }

  lemma EdgeRefused(parts: seq<seq<Point>>, pieces: seq<Piece>, part: seq<Point>, open: seq<Piece>,
                    ring: seq<Point>, clips: seq<ClipResult>, e: nat, bounds: Bounds, target: seq<Piece>)
    requires |ring| <= |clips| + 1 && Drawn(parts, pieces, part, open, ring, clips, e, bounds, target)
    requires e + 1 < |ring| && clips[e].None? && EndsKept(ring[e], ring[e + 1], clips[e], bounds)
    ensures Drawn(parts, pieces, part, open, ring, clips, e + 1, bounds, target)
  {
    hide Assembled, Chain, OnePart;
    assert [] + Pieces(ring, clips, e + 1) == Pieces(ring, clips, e + 1);
  }

  lemma EdgeAccepted(parts: seq<seq<Point>>, pieces: seq<Piece>, part: seq<Point>, open: seq<Piece>,
                     ring: seq<Point>, clips: seq<ClipResult>, e: nat, bounds: Bounds, target: seq<Piece>, p: Point, q: Point)
    requires |ring| <= |clips| + 1 && Drawn(parts, pieces, part, open, ring, clips, e, bounds, target)
    requires e + 1 < |ring| && clips[e] == Some((p, q)) && EndsKept(ring[e], ring[e + 1], clips[e], bounds)
    ensures var joined := q == ring[e + 1] && e + 2 < |ring|;
            var more := open + [Piece(p, q, joined)];
            if joined then
              Drawn(parts, pieces, part + [p], more, ring, clips, e + 1, bounds, target)
            else
              Drawn(parts + [part + [p] + [q]], pieces + more, [], [], ring, clips, e + 1, bounds, target)
  {
    hide Assembled, Chain, OnePart, Pieces;
    var joined := q == ring[e + 1] && e + 2 < |ring|;
    var more, rest := open + [Piece(p, q, joined)], Pieces(ring, clips, e + 1);
    PiecesNext(ring, clips, e, e + 1, p, q);
    Joined(part, open, ring[e], bounds, p, q, joined);
    assert pieces + open + ([Piece(p, q, joined)] + rest) == pieces + more + rest;
    if !joined {
      AssembledExtend(parts, pieces, part + [p] + [q], more);
      assert pieces + more + [] + rest == pieces + more + rest;
    }
  }

  /** The early exit loses nothing: when the extent of the rings misses the bounds, no edge would be accepted. */
  lemma {:induction false} QuickRejectLosesNothing(rings: seq<seq<Point>>, extent: Bounds, bounds: Bounds, round: bool,
                                                   clips: seq<seq<ClipResult>>)
    requires bounds.Valid() && extent.Valid() && !extent.Intersects(bounds) && AllClipsOf(rings, bounds, round, clips)
    requires forall r, k | 0 <= r < |rings| && 0 <= k < |rings[r]| :: extent.Contains(rings[r][k])
    ensures AllPieces(rings, clips) == []
    decreases |rings|
  {
    hide LoopReturns;
    if rings != [] {
      var n := |rings| - 1;
      var ring := rings[n];
      forall e | 0 <= e < |ring| - 1
        ensures clips[n][e] == None
      {
        var a, b := ring[e], ring[e + 1];
        assert extent.Contains(a) && extent.Contains(b);
        var side := if extent.max.x < bounds.min.x then LEFT else if extent.min.x > bounds.max.x then RIGHT
                    else if extent.max.y < bounds.min.y then BOTTOM else TOP;
        assert IsSide(side) && Beyond(a, side, bounds) && Beyond(b, side, bounds);
        SharedSide(a, b, bounds);
        RefusedAtOnce(a, b, bounds, round, clips[n][e]);
      }
      NoPieces(ring, clips[n], 0);
      QuickRejectLosesNothing(rings[..n], extent, bounds, round, clips[..n]);
    }
  }

  lemma RefusedAtOnce(a: Point, b: Point, bounds: Bounds, round: bool, clip: ClipResult)
    requires bounds.Valid() && BitCode(a, bounds) & BitCode(b, bounds) != 0 && LoopReturns(a, b, bounds, round, clip)
    ensures clip == None
  {
    hide BitCode, EdgeIntersection;
    var n: nat, p, q :| AfterTurns(a, b, bounds, round, n) == Some((p, q)) && LoopTurn(p, q, bounds, round).None?
                        && clip == if BitCode(p, bounds) | BitCode(q, bounds) == 0 then Some((p, q)) else None;
    assert n == 0;
    BothBits(BitCode(a, bounds), BitCode(b, bounds));
  }

  lemma BothBits(h: Code, l: Code)
    ensures h & l != 0 ==> h | l != 0
  {
  }

  lemma {:induction false} NoPieces(ring: seq<Point>, clips: seq<ClipResult>, e: nat)
    requires |ring| <= |clips| + 1 && forall k | 0 <= k < |ring| - 1 :: clips[k] == None
    ensures Pieces(ring, clips, e) == []
    decreases |ring| - e
  {
    if e + 1 < |ring| {
      NoPieces(ring, clips, e + 1);
    }
  }

  class LineClipper {
    /** Outcode of the end of the last segment, kept for the next call. */
    var lastCode: Code

    constructor ()
    {
      lastCode := 0;
    }

    /** Whenever the loop ends, which it always does in bounds that rounding does not push outward, and then after four clips at most. */
    method ClipSegment(a: Point, b: Point, bounds: Bounds, useLastCode: bool, round: bool)
      returns (r: Option<(Point, Point)>, ghost clips: nat)
      requires bounds.Valid() && LoopEnds(a, b, bounds, round)
      requires useLastCode ==> lastCode == BitCode(a, bounds)
      modifies this`lastCode
      ensures LoopReturns(a, b, bounds, round, r)
      ensures r.Some? ==> bounds.Contains(r.value.0) && bounds.Contains(r.value.1)
      ensures bounds.Clippable(round) ==> r == Clip(a, b, bounds, round) && clips <= 4
      ensures lastCode == BitCode(b, bounds)
    {
      hide BitCode, EdgeIntersection, AfterTurns, Rank;
      var t, e := a, b;
      var h := if useLastCode then lastCode else BitCode(a, bounds);
      var l := BitCode(b, bounds);
      lastCode := l;
      clips := 0;
      ghost var turns: nat :| AfterTurns(a, b, bounds, round, turns).None?;
      NoTurnYet(a, b, bounds, round);
      while true
        invariant lastCode == BitCode(b, bounds)
        invariant h == BitCode(t, bounds) && l == BitCode(e, bounds)
        invariant AfterTurns(a, b, bounds, round, clips) == Some((t, e)) && AfterTurns(t, e, bounds, round, turns).None?
        invariant bounds.Clippable(round) ==> Clip(t, e, bounds, round) == Clip(a, b, bounds, round)
        invariant bounds.Clippable(round) ==> clips + Rank(h, l) <= 4
        decreases turns
      {
        if h | l == 0 {
          BitCodeMeansBeyond(t, bounds);
          BitCodeMeansBeyond(e, bounds);
          return Some((t, e)), clips;
        }
        if h & l != 0 {
          return None, clips;
        }
        CutCrosses(t, e, bounds);
        if bounds.Clippable(round) {
          CutMakesProgress(t, e, bounds, round);
        }
        MoreTurns(t, e, bounds, round, turns);
        AfterNextTurn(a, b, bounds, round, clips, t, e, clips + 1);
        var s := if h != 0 then h else l;
        var cut := EdgeIntersection(t, e, s, bounds, round);
        var code := BitCode(cut, bounds);
        if s == h {
          t, h := cut, code;
        } else {
          e, l := cut, code;
        }
        clips, turns := clips + 1, turns - 1;
      }
    }

    /**
     * The parts of the rings that are drawn: what clipping with rounding accepts of their edges, each
     * run of edges that meet joined into one part; a point that is no vertex has whole coordinates.
     */
    method ClipPoints(rings: seq<seq<Point>>, pxBounds: Option<Bounds>, bounds: Bounds, noClip: bool)
      returns (parts: seq<seq<Point>>, ghost clips: seq<seq<ClipResult>>)
      requires bounds.Clippable(true)
      modifies this`lastCode
      ensures pxBounds.None? || !pxBounds.value.Intersects(bounds) ==> parts == []
      ensures pxBounds.Some? && pxBounds.value.Intersects(bounds) && noClip ==> parts == rings
      ensures pxBounds.Some? && pxBounds.value.Intersects(bounds) && !noClip ==>
                AllClipsOf(rings, bounds, true, clips) && Assembled(parts, AllPieces(rings, clips))
      ensures forall i, k :: 0 <= i < |parts| && 0 <= k < |parts[i]| ==> Placed(rings, parts[i][k])
    {
      hide Assembled, AllPieces, LoopReturns, IsPixel;
      parts, clips := [], [];
      NothingAssembled();
      if pxBounds.None? || !pxBounds.value.Intersects(bounds) {
        return;
      }
      if noClip {
        return rings, [];
      }
      ghost var pieces := [];
      for r := 0 to |rings|
        invariant Assembled(parts, pieces) && AllClipsOf(rings[..r], bounds, true, clips)
        invariant pieces == AllPieces(rings[..r], clips)
      {
        ghost var more;
        parts, pieces, more := ClipRing(rings[r], bounds, parts, pieces);
        AllPiecesNext(rings[..r], clips, rings[r], more);
        assert rings[..r + 1] == rings[..r] + [rings[r]];
        clips := clips + [more];
      }
      assert rings[..|rings|] == rings && clips[..|rings|] == clips;
      AllPiecesArePlaced(rings, bounds, clips, |rings|);
      PartsArePlaced(rings, parts, pieces);
    }

    /** The inner loop: the edges of one ring, their parts pushed after the earlier ones. */
    method ClipRing(ring: seq<Point>, bounds: Bounds, before: seq<seq<Point>>, ghost earlier: seq<Piece>)
      returns (parts: seq<seq<Point>>, ghost pieces: seq<Piece>, ghost clips: seq<ClipResult>)
      requires bounds.Clippable(true) && Assembled(before, earlier)
      modifies this`lastCode
      ensures ClipsOf(ring, bounds, true, clips)
      ensures pieces == earlier + Pieces(ring, clips, 0)
      ensures Assembled(parts, pieces)
    {
      hide Assembled, Pieces, Drawn, Clip, BitCode, EndsKept, LoopReturns;
      parts, pieces := before, earlier;
      var part: seq<Point> := [];
      ghost var open := [];
      clips := ClipEdges(ring, bounds, true);
      ghost var target := earlier + Pieces(ring, clips, 0);
      DrawnAtStart(before, earlier, ring, clips, bounds, target);
      var e := 0;
      while e < |ring| - 1
        invariant 0 <= e && (e > 0 ==> e < |ring| && lastCode == BitCode(ring[e], bounds))
        invariant Drawn(parts, pieces, part, open, ring, clips, e, bounds, target)
      {
        ClippableEnds(ring[e], ring[e + 1], bounds, true);
        var clip, _ := ClipSegment(ring[e], ring[e + 1], bounds, e != 0, true);
        ClipEnds(ring[e], ring[e + 1], bounds, true);
        if clip.Some? {
          var (p, q) := clip.value;
          EdgeAccepted(parts, pieces, part, open, ring, clips, e, bounds, target, p, q);
          part := part + [p];
          open := open + [Piece(p, q, q == ring[e + 1] && e + 2 < |ring|)];
          if !(q == ring[e + 1] && e != |ring| - 2) {
            parts, part := parts + [part + [q]], [];
            pieces, open := pieces + open, [];
          }
        } else {
          EdgeRefused(parts, pieces, part, open, ring, clips, e, bounds, target);
        }
        e := e + 1;
      }
      DrawnAtEnd(parts, pieces, part, open, ring, clips, e, bounds, target);
    }
  }
}
